/**
 * The rotator's behaviour on values: its state, the paths it builds, the
 * decision to rotate, the effect of `Rotate` and of `WriteLine`, and the
 * chunked copy that fills the archive. `Logp.FileRotator` is proved to
 * change its state exactly as these functions say.
 */
module Rotation {
  import opened Wrappers
  import opened Strings
  import opened Config
  import opened FileSystem
  import opened Retention

  /** Size of the buffer the archive copy reads into: 512 KiB. */
  const BLOCK_SIZE: int := 512 * 1024

  const NEWLINE: byte := 10

  /** The settings once checked: both pointers set. */
  datatype Settings = Settings(path: string, name: string, rotateEveryBytes: uint64, keepFiles: int)

  /**
   * What a rotation can change: the directory, whether the `current` handle
   * is non-nil, and `current_size`.
   */
  datatype RotatorState = RotatorState(files: map<string, Entry>, current: bool, currentSize: uint64)

  // ---------------------------------------------------------------------
  // Paths
  // ---------------------------------------------------------------------

  /** `FilePath(fileNo)`: the active file for 0, the legacy numbered archive otherwise. */
  function FilePath(path: string, name: string, fileNo: int): string {
    if fileNo == 0 then Join(path, name)
    else Join(path, name + "." + FormatInt(fileNo) + ARCHIVE_SUFFIX)
  }

  /** Every such path lies below `path`; the numbered ones end in `.zip`. */
  lemma FilePathShape(path: string, name: string, fileNo: int)
    ensures Under(path, FilePath(path, name, fileNo))
    ensures fileNo != 0 ==> HasSuffix(FilePath(path, name, fileNo), ARCHIVE_SUFFIX)
  {
    if fileNo == 0 {
      JoinIsUnder(path, name);
    } else {
      JoinIsUnder(path, name + "." + FormatInt(fileNo) + ARCHIVE_SUFFIX);
      HasSuffixOfAppend(path + "/" + name + "." + FormatInt(fileNo), ARCHIVE_SUFFIX);
    }
  }

  function BasePath(cfg: Settings): string {
    FilePath(cfg.path, cfg.name, 0)
  }

  /** The archive a rotation at `millis` milliseconds since the epoch writes: `Name-<millis>.zip`. */
  function ArchivePath(cfg: Settings, millis: int): string {
    Join(cfg.path, cfg.name + "-" + FormatInt(millis) + ARCHIVE_SUFFIX)
  }

  /** An archive lies below the rotator's directory and ends in `.zip`. */
  lemma ArchivePathShape(cfg: Settings, millis: int)
    ensures Under(cfg.path, ArchivePath(cfg, millis))
    ensures HasSuffix(ArchivePath(cfg, millis), ARCHIVE_SUFFIX)
  {
    JoinIsUnder(cfg.path, cfg.name + "-" + FormatInt(millis) + ARCHIVE_SUFFIX);
    HasSuffixOfAppend(cfg.path + "/" + cfg.name + "-" + FormatInt(millis), ARCHIVE_SUFFIX);
  }

  lemma StripAround(p: string, x: string, y: string, q: string)
    requires p + x + q == p + y + q
    ensures x == y
  {
    var s := p + x + q;
    assert |x| == |y|;
    assert x == s[|p|..|p| + |x|];
    assert y == (p + y + q)[|p|..|p| + |y|];
  }

  lemma NumberedPath(path: string, name: string, i: int)
    requires i != 0
    ensures FilePath(path, name, i) == (path + "/" + name + ".") + FormatInt(i) + ARCHIVE_SUFFIX
  {
  }

  /** Distinct file numbers give distinct paths. */
  lemma FilePathInjective(path: string, name: string, i: int, j: int)
    requires FilePath(path, name, i) == FilePath(path, name, j)
    ensures i == j
  {
    if i != 0 && j != 0 {
      var p := path + "/" + name + ".";
      NumberedPath(path, name, i);
      NumberedPath(path, name, j);
      StripAround(p, FormatInt(i), FormatInt(j), ARCHIVE_SUFFIX);
      FormatIntInjective(i, j);
    }
  }

  lemma StampedPath(cfg: Settings, i: int)
    ensures ArchivePath(cfg, i) == (cfg.path + "/" + cfg.name + "-") + FormatInt(i) + ARCHIVE_SUFFIX
    ensures ArchivePath(cfg, i) == (cfg.path + "/" + cfg.name + "-") + (FormatInt(i) + ARCHIVE_SUFFIX)
  {
  }

  /**
   * Rotations at distinct milliseconds write to distinct archives; two in
   * the same millisecond write to the same path.
   */
  lemma ArchivePathInjective(cfg: Settings, i: int, j: int)
    requires ArchivePath(cfg, i) == ArchivePath(cfg, j)
    ensures i == j
  {
    var p := cfg.path + "/" + cfg.name + "-";
    StampedPath(cfg, i);
    StampedPath(cfg, j);
    StripAround(p, FormatInt(i), FormatInt(j), ARCHIVE_SUFFIX);
    FormatIntInjective(i, j);
  }

  /**
   * The timestamped archives a rotation writes never collide with the
   * active file nor with any legacy numbered path.
   */
  lemma ArchivePathIsNoFilePath(cfg: Settings, millis: int, fileNo: int)
    ensures ArchivePath(cfg, millis) != FilePath(cfg.path, cfg.name, fileNo)
  {
    var a, f := ArchivePath(cfg, millis), FilePath(cfg.path, cfg.name, fileNo);
    var k := |cfg.path| + 1 + |cfg.name|;
    if fileNo != 0 {
      assert a[k] == '-' && f[k] == '.';
    } else {
      assert |a| > |f|;
    }
  }

  /**
   * Archive names sort in time order, as long as the two timestamps have the
   * same number of digits.
   */
  lemma ArchiveOrderFollowsTime(cfg: Settings, a: nat, b: nat)
    requires a < b && |FormatInt(a)| == |FormatInt(b)|
    ensures Le(ArchivePath(cfg, a), ArchivePath(cfg, b))
    ensures ArchivePath(cfg, a) != ArchivePath(cfg, b)
  {
    var p := cfg.path + "/" + cfg.name + "-";
    StampedPath(cfg, a);
    StampedPath(cfg, b);
    assert FormatInt(a) == Digits(a) && FormatInt(b) == Digits(b);
    StampedNameOrder(p, a, b);
  }

  lemma StampedNameOrder(p: string, a: nat, b: nat)
    requires a < b && |Digits(a)| == |Digits(b)|
    ensures Le(p + (Digits(a) + ARCHIVE_SUFFIX), p + (Digits(b) + ARCHIVE_SUFFIX))
    ensures p + (Digits(a) + ARCHIVE_SUFFIX) != p + (Digits(b) + ARCHIVE_SUFFIX)
  {
    DigitsOrder(a, b);
    LessAppend(Digits(a), Digits(b), ARCHIVE_SUFFIX, ARCHIVE_SUFFIX);
    LeCommonPrefix(p, Digits(a) + ARCHIVE_SUFFIX, Digits(b) + ARCHIVE_SUFFIX);
    assert (p + (Digits(a) + ARCHIVE_SUFFIX))[|p|..] == Digits(a) + ARCHIVE_SUFFIX;
    assert (p + (Digits(b) + ARCHIVE_SUFFIX))[|p|..] == Digits(b) + ARCHIVE_SUFFIX;
  }

  // ---------------------------------------------------------------------
  // Rotation
  // ---------------------------------------------------------------------

  /** `shouldRotate`: no file open yet, or the counter has reached the threshold. */
  predicate ShouldRotate(s: RotatorState, threshold: uint64) {
    !s.current || s.currentSize >= threshold
  }

  /**
   * While a file is open, it is the plain file at `base` and the counter is
   * its length in bytes, modulo 2^64 as a `uint64` counter wraps.
   */
  ghost predicate Consistent(s: RotatorState, base: string) {
    s.current ==>
      && base in s.files
      && s.files[base].Plain?
      && s.currentSize == |s.files[base].data| % U64_MODULUS
  }

  /**
   * The directory after a later rotation has written its archive and
   * recreated the active file, before the sweep runs.
   */
  function Archived(files: map<string, Entry>, cfg: Settings, millis: int): (r: map<string, Entry>)
    requires BasePath(cfg) in files && files[BasePath(cfg)].Plain?
    ensures r.Keys == files.Keys + {ArchivePath(cfg, millis)}
    ensures forall p :: p in files && p != BasePath(cfg) && p != ArchivePath(cfg, millis) ==> r[p] == files[p]
  {
    var base := BasePath(cfg);
    files[ArchivePath(cfg, millis) := Archive(map[cfg.name := files[base].data])][base := Plain([])]
  }

  /**
   * The state after `Rotate` at `millis`. The sweep skips the active file
   * (see `AsWrittenSweepDeletesActiveFile`).
   */
  ghost function AfterRotate(s: RotatorState, cfg: Settings, millis: int): (t: RotatorState)
    requires cfg.keepFiles >= 1 && Consistent(s, BasePath(cfg))
    ensures t.current && t.currentSize == 0
    ensures BasePath(cfg) in t.files && t.files[BasePath(cfg)] == Plain([])
  {
    var base := BasePath(cfg);
    if !s.current then
      RotatorState(s.files[base := Plain([])], true, 0)
    else
      var staged := Archived(s.files, cfg, millis);
      SweepOnlyDeletesCandidates(staged, cfg.keepFiles, {base});
      RotatorState(Sweep(staged, cfg.keepFiles, {base}), true, 0)
  }

  lemma ModAdd(a: nat, b: nat)
    ensures (a % U64_MODULUS + b) % U64_MODULUS == (a + b) % U64_MODULUS
  {
    var m := U64_MODULUS;
    var q := a / m;
    assert a == q * m + a % m;
    assert (a + b) == q * m + (a % m + b);
  }

  /** The state after `WriteLine(line)` at `millis`. */
  ghost function AfterWriteLine(s: RotatorState, cfg: Settings, line: seq<byte>, millis: int): (t: RotatorState)
    requires cfg.keepFiles >= 1 && Consistent(s, BasePath(cfg))
    ensures t.current && Consistent(t, BasePath(cfg))
  {
    var base := BasePath(cfg);
    var r := if ShouldRotate(s, cfg.rotateEveryBytes) then AfterRotate(s, cfg, millis) else s;
    var data := r.files[base].data + line + [NEWLINE];
    ModAdd(|r.files[base].data|, |line| + 1);
    RotatorState(r.files[base := Plain(data)], true, (r.currentSize + |line| + 1) % U64_MODULUS)
  }

  // ---------------------------------------------------------------------
  // What a rotation promises
  // ---------------------------------------------------------------------

  /** A rotation creates files only below the rotator's directory. */
  lemma RotationStaysUnder(s: RotatorState, cfg: Settings, millis: int)
    requires cfg.keepFiles >= 1 && Consistent(s, BasePath(cfg)) && AllUnder(s.files, cfg.path)
    ensures AllUnder(AfterRotate(s, cfg, millis).files, cfg.path)
  {
    FilePathShape(cfg.path, cfg.name, 0);
    if s.current {
      ArchivePathShape(cfg, millis);
      SweepOnlyDeletesCandidates(Archived(s.files, cfg, millis), cfg.keepFiles, {BasePath(cfg)});
    }
  }

  /** So does a write. */
  lemma WriteStaysUnder(s: RotatorState, cfg: Settings, line: seq<byte>, millis: int)
    requires cfg.keepFiles >= 1 && Consistent(s, BasePath(cfg)) && AllUnder(s.files, cfg.path)
    ensures AllUnder(AfterWriteLine(s, cfg, line, millis).files, cfg.path)
  {
    if ShouldRotate(s, cfg.rotateEveryBytes) {
      RotationStaysUnder(s, cfg, millis);
    }
  }

  /**
   * The first rotation only creates the active file, empty (truncating any
   * file already at that path): no archive, no other file touched.
   */
  lemma FirstRotation(s: RotatorState, cfg: Settings, millis: int)
    requires cfg.keepFiles >= 1 && Consistent(s, BasePath(cfg)) && !s.current
    ensures var t := AfterRotate(s, cfg, millis);
            && t.files.Keys == s.files.Keys + {BasePath(cfg)}
            && (forall p :: p in s.files && p != BasePath(cfg) ==> t.files[p] == s.files[p])
  {
  }

  /**
   * Round trip: the archive a later rotation writes has one entry, named
   * after the active file, holding what the active file held; the active
   * file is left empty. This holds of the archive as long as the sweep
   * keeps it.
   */
  lemma RotationArchivesContent(s: RotatorState, cfg: Settings, millis: int)
    requires cfg.keepFiles >= 1 && Consistent(s, BasePath(cfg)) && s.current
    ensures var t := AfterRotate(s, cfg, millis);
            var zip := ArchivePath(cfg, millis);
            && zip in Archived(s.files, cfg, millis)
            && (zip in t.files ==> t.files[zip] == Archive(map[cfg.name := s.files[BasePath(cfg)].data]))
            && t.files[BasePath(cfg)] == Plain([]) && t.currentSize == 0
  {
    var base := BasePath(cfg);
    ArchivePathIsNoFilePath(cfg, millis, 0);
    SweepOnlyDeletesCandidates(Archived(s.files, cfg, millis), cfg.keepFiles, {base});
  }

  /**
   * With at least two archives kept, the archive just written survives the
   * sweep when no other archive sorts after it, as is the case for archives
   * of this rotator with timestamps of one digit count.
   */
  lemma RotationKeepsNewestArchive(s: RotatorState, cfg: Settings, millis: int)
    requires cfg.keepFiles >= 2 && Consistent(s, BasePath(cfg)) && s.current
    requires forall p :: p in Candidates(s.files, {BasePath(cfg)}) ==> Le(p, ArchivePath(cfg, millis))
    ensures var t := AfterRotate(s, cfg, millis);
            var zip := ArchivePath(cfg, millis);
            zip in t.files && t.files[zip] == Archive(map[cfg.name := s.files[BasePath(cfg)].data])
  {
    var base, zip := BasePath(cfg), ArchivePath(cfg, millis);
    var staged := Archived(s.files, cfg, millis);
    ArchivePathIsNoFilePath(cfg, millis, 0);
    HasSuffixOfAppend(cfg.path + "/" + cfg.name + "-" + FormatInt(millis), ARCHIVE_SUFFIX);
    assert zip in Candidates(staged, {base});
    forall y | y in Candidates(staged, {base})
      ensures Le(y, zip)
    {
      if y == zip {
        LeReflexive(zip);
      } else {
        assert y in Candidates(s.files, {base});
      }
    }
    SweepKeepsGreatest(staged, cfg.keepFiles, {base}, zip);
    RotationArchivesContent(s, cfg, millis);
  }

  /**
   * After a later rotation fewer than `KeepFiles` archives remain; the ones
   * deleted sort before every one kept; files not ending in ".zip" are
   * untouched.
   */
  lemma RotationRetention(s: RotatorState, cfg: Settings, millis: int)
    requires cfg.keepFiles >= 1 && Consistent(s, BasePath(cfg)) && s.current
    ensures var t := AfterRotate(s, cfg, millis);
            var staged := Archived(s.files, cfg, millis);
            && |Candidates(t.files, {BasePath(cfg)})| < cfg.keepFiles
            && (forall d, k :: d in staged && d !in t.files && k in Candidates(t.files, {BasePath(cfg)}) ==> Le(d, k))
            && (forall p :: p in s.files && !HasSuffix(p, ARCHIVE_SUFFIX) && p != BasePath(cfg) ==>
                  p in t.files && t.files[p] == s.files[p])
  {
    var base := BasePath(cfg);
    var staged := Archived(s.files, cfg, millis);
    SweepCount(staged, cfg.keepFiles, {base});
    SweepDeletesSmallest(staged, cfg.keepFiles, {base});
    SweepOnlyDeletesCandidates(staged, cfg.keepFiles, {base});
    forall p | p in s.files && !HasSuffix(p, ARCHIVE_SUFFIX) && p != base
      ensures p in staged && staged[p] == s.files[p]
    {
      HasSuffixOfAppend(cfg.path + "/" + cfg.name + "-" + FormatInt(millis), ARCHIVE_SUFFIX);
    }
  }

  /**
   * Skipping the active file changes nothing in the source's terms whenever
   * its path does not end in ".zip".
   */
  lemma SkipAgreesWithSource(files: map<string, Entry>, cfg: Settings)
    requires cfg.keepFiles >= 1 && !HasSuffix(BasePath(cfg), ARCHIVE_SUFFIX)
    ensures Sweep(files, cfg.keepFiles, {BasePath(cfg)}) == Sweep(files, cfg.keepFiles, {})
  {
    SweepSkipIrrelevant(files, cfg.keepFiles, {BasePath(cfg)});
  }

  /** An active file named like an archive is counted, and sorts before the archive of its own rotation. */
  lemma ActiveFileSortsFirst(cfg: Settings, millis: int)
    requires HasSuffix(cfg.name, ARCHIVE_SUFFIX)
    ensures HasSuffix(BasePath(cfg), ARCHIVE_SUFFIX) && HasSuffix(ArchivePath(cfg, millis), ARCHIVE_SUFFIX)
    ensures Le(BasePath(cfg), ArchivePath(cfg, millis))
  {
    var base := BasePath(cfg);
    var tail := "-" + FormatInt(millis) + ARCHIVE_SUFFIX;
    HasSuffixOfExtension(cfg.path + "/", cfg.name, ARCHIVE_SUFFIX);
    HasSuffixOfAppend(base + "-" + FormatInt(millis), ARCHIVE_SUFFIX);
    assert ArchivePath(cfg, millis) == base + tail;
    LePrefixOf(base, tail);
  }

  /**
   * The sweep as the source writes it counts every path ending in ".zip",
   * the active file's included. With a `Name` such as "a.zip" and
   * `KeepFiles = 2`, a rotation deletes the active file it has just
   * recreated.
   */
  lemma AsWrittenSweepDeletesActiveFile(s: RotatorState, cfg: Settings, millis: int)
    requires HasSuffix(cfg.name, ARCHIVE_SUFFIX) && cfg.keepFiles == 2
    requires s.current && s.files.Keys == {BasePath(cfg)} && s.files[BasePath(cfg)].Plain?
    ensures BasePath(cfg) !in Sweep(Archived(s.files, cfg, millis), cfg.keepFiles, {})
  {
    ArchivePathIsNoFilePath(cfg, millis, 0);
    ActiveFileSortsFirst(cfg, millis);
    SweepOfTwoDeletesSmaller(Archived(s.files, cfg, millis), BasePath(cfg), ArchivePath(cfg, millis));
  }

  /** Two archives and `keep == 2`: the sweep deletes the one that sorts first. */
  lemma SweepOfTwoDeletesSmaller(files: map<string, Entry>, first: string, second: string)
    requires files.Keys == {first, second} && first != second
    requires HasSuffix(first, ARCHIVE_SUFFIX) && HasSuffix(second, ARCHIVE_SUFFIX)
    requires Le(first, second)
    ensures first !in Sweep(files, 2, {})
  {
    var c := Candidates(files, {});
    assert c == {first, second};
    LeReflexive(first);
    LeAntisymmetric(MinOf(c), first);
    var rest := files - {first};
    assert Candidates(rest, {}) == {second};
    assert Sweep(files, 2, {}) == Sweep(rest, 2, {});
  }

  // ---------------------------------------------------------------------
  // What a write promises
  // ---------------------------------------------------------------------

  /** Below the threshold a write appends `line` and a newline and grows the counter by their length. */
  lemma WriteBelowThreshold(s: RotatorState, cfg: Settings, line: seq<byte>, millis: int)
    requires cfg.keepFiles >= 1 && Consistent(s, BasePath(cfg))
    requires s.current && s.currentSize < cfg.rotateEveryBytes
    ensures var t := AfterWriteLine(s, cfg, line, millis);
            var base := BasePath(cfg);
            && t.files == s.files[base := Plain(s.files[base].data + line + [NEWLINE])]
            && t.currentSize == (s.currentSize + |line| + 1) % U64_MODULUS
  {
  }

  /**
   * Once the counter has reached the threshold, the next write rotates once
   * and then lands alone in the recreated active file, whose counter is the
   * line's length plus one.
   */
  lemma WriteAtThreshold(s: RotatorState, cfg: Settings, line: seq<byte>, millis: int)
    requires cfg.keepFiles >= 1 && Consistent(s, BasePath(cfg))
    requires s.current && s.currentSize >= cfg.rotateEveryBytes
    requires |line| + 1 < U64_MODULUS
    ensures var t := AfterWriteLine(s, cfg, line, millis);
            var base := BasePath(cfg);
            && t.files == AfterRotate(s, cfg, millis).files[base := Plain(line + [NEWLINE])]
            && t.currentSize == |line| + 1
  {
    assert [] + line + [NEWLINE] == line + [NEWLINE];
  }

  /** The first write creates the active file with the line in it, and no archive. */
  lemma FirstWrite(s: RotatorState, cfg: Settings, line: seq<byte>, millis: int)
    requires cfg.keepFiles >= 1 && !s.current
    requires |line| + 1 < U64_MODULUS
    ensures var t := AfterWriteLine(s, cfg, line, millis);
            && t.files == s.files[BasePath(cfg) := Plain(line + [NEWLINE])]
            && t.currentSize == |line| + 1
  {
    assert [] + line + [NEWLINE] == line + [NEWLINE];
  }

  /**
   * Directory `/tmp/x`, name `app.log`, threshold 10 bytes, two files kept.
   * `hello` (6 bytes with its newline) and then `world!` (7 more) both land
   * in the active file: the trigger is tested on the counter before the
   * write, which is 6. The third write finds 13 >= 10, rotates, and lands
   * alone in the recreated file; the archive holds the first two lines.
   */
  lemma ThresholdScenario(t0: int, t1: int, t2: int)
    ensures var cfg := Settings("/tmp/x", "app.log", 10, 2);
            var hello: seq<byte> := [104, 101, 108, 108, 111];
            var world: seq<byte> := [119, 111, 114, 108, 100, 33];
            var bang: seq<byte> := [33];
            var s1 := AfterWriteLine(RotatorState(map[], false, 0), cfg, hello, t0);
            var s2 := AfterWriteLine(s1, cfg, world, t1);
            var s3 := AfterWriteLine(s2, cfg, bang, t2);
            && s1.files == map["/tmp/x/app.log" := Plain(hello + [NEWLINE])] && s1.currentSize == 6
            && s2.files == map["/tmp/x/app.log" := Plain(hello + [NEWLINE] + world + [NEWLINE])] && s2.currentSize == 13
            && s3.files == map["/tmp/x/app.log" := Plain(bang + [NEWLINE]),
                               ArchivePath(cfg, t2) := Archive(map["app.log" := hello + [NEWLINE] + world + [NEWLINE]])]
            && s3.currentSize == 2
  {
    var cfg := Settings("/tmp/x", "app.log", 10, 2);
    var hello: seq<byte> := [104, 101, 108, 108, 111];
    var world: seq<byte> := [119, 111, 114, 108, 100, 33];
    var bang: seq<byte> := [33];
    var base := BasePath(cfg);
    assert base == "/tmp/x/app.log";
    var s0 := RotatorState(map[], false, 0);
    var s1 := AfterWriteLine(s0, cfg, hello, t0);
    FirstWrite(s0, cfg, hello, t0);
    var s2 := AfterWriteLine(s1, cfg, world, t1);
    WriteBelowThreshold(s1, cfg, world, t1);
    WriteAtThreshold(s2, cfg, bang, t2);
    var staged := Archived(s2.files, cfg, t2);
    var zip := ArchivePath(cfg, t2);
    ArchivePathIsNoFilePath(cfg, t2, 0);
    assert staged.Keys == {base, zip};
    assert Candidates(staged, {base}) <= {zip};
    SweepCount(staged, 2, {base});
    assert AfterRotate(s2, cfg, t2).files == staged;
  }

  // ---------------------------------------------------------------------
  // The archive copy
  // ---------------------------------------------------------------------

  /**
   * One `fileReader.Read(bytes)` on a file holding `src`, of which `pos`
   * bytes are already read: end of input, or between one byte and a full
   * buffer, copied into the buffer.
   */
  method ReadBlock(src: seq<byte>, pos: nat, buf: array<byte>) returns (n: nat, eof: bool)
    requires pos <= |src| && buf.Length > 0
    modifies buf
    ensures eof <==> pos == |src|
    ensures eof ==> n == 0
    ensures !eof ==> 1 <= n <= buf.Length && pos + n <= |src| && buf[..n] == src[pos..pos + n]
  {
    if pos == |src| {
      return 0, true;
    }
    n :| 1 <= n <= buf.Length && n <= |src| - pos;
    forall k | 0 <= k < n {
      buf[k] := src[pos + k];
    }
    eof := false;
  }

  /**
   * The copy loop that fills the archive entry: read into a reused
   * `BLOCK_SIZE` buffer until end of input, writing the whole buffer after a
   * full read and its filled prefix otherwise. For every sequence of read
   * sizes the entry ends up holding exactly the file's bytes.
   */
  method ZipCopy(src: seq<byte>) returns (entry: seq<byte>)
    ensures entry == src
  {
    var bytes := new byte[BLOCK_SIZE];
    var pos := 0;
    entry := [];
    while true
      invariant pos <= |src|
      invariant entry == src[..pos]
      decreases |src| - pos
    {
      var n, eof := ReadBlock(src, pos, bytes);
      if eof {
        break;
      }
      if n >= BLOCK_SIZE {
        entry := entry + bytes[..];
        pos := pos + n;
        continue;
      }
      entry := entry + bytes[..n];
      pos := pos + n;
    }
  }
}
