/**
 * The one directory the rotator works in. A file is either plain bytes or a
 * zip archive, the latter seen as a map from entry name to the entry's
 * bytes (compression is not modelled). Files are keyed by their full path.
 */
module FileSystem {

  type byte = x: int | 0 <= x < 256

  datatype Entry =
    | Plain(data: seq<byte>)
    | Archive(entries: map<string, seq<byte>>)

  /** `filepath.Join(dir, name)` for a plain file name (no path cleaning). */
  function Join(dir: string, name: string): string {
    dir + "/" + name
  }

  /** `p` is a path below `dir`: it starts with `dir` and a separator. */
  predicate Under(dir: string, p: string) {
    |dir| + 1 <= |p| && p[..|dir| + 1] == dir + "/"
  }

  /** Every file of `files` lies below `dir`. */
  ghost predicate AllUnder(files: map<string, Entry>, dir: string) {
    forall p :: p in files ==> Under(dir, p)
  }

  lemma JoinIsUnder(dir: string, name: string)
    ensures Under(dir, Join(dir, name))
  {
    assert Join(dir, name)[..|dir| + 1] == (dir + "/" + name)[..|dir| + 1];
  }

  /** The directory's state; the rotator's methods change it as the `os` calls would. */
  class Directory {
    var files: map<string, Entry>

    constructor (files: map<string, Entry>)
      ensures this.files == files
    {
      this.files := files;
    }
  }
}
