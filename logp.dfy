/**
 * `FileRotator`: a size-triggered log file rotator working in one directory.
 * Its methods change the rotator's fields and the directory as the source's
 * do, and are proved to do exactly what `Rotation.AfterRotate` and
 * `Rotation.AfterWriteLine` say.
 */
module Logp {
  import opened Wrappers
  import opened Strings
  import opened Config
  import opened FileSystem
  import opened Retention
  import opened Rotation

  class FileRotator {
    const Path: string
    const Name: string
    var RotateEveryBytes: Option<uint64>
    var KeepFiles: Option<int>

    /** Whether the `current` handle is non-nil; when it is, it is open on `FilePath(0)`. */
    var current: bool
    var currentSize: uint64

    /** The directory `Path`, shared with whatever else writes there. */
    const dir: Directory

    /** A rotator as the caller builds it: no file open, counter zero. */
    constructor (path: string, name: string, rotateEveryBytes: Option<uint64>, keepFiles: Option<int>, dir: Directory)
      requires AllUnder(dir.files, path)
      ensures Path == path && Name == name && this.dir == dir
      ensures RotateEveryBytes == rotateEveryBytes && KeepFiles == keepFiles
      ensures !current && currentSize == 0
      ensures Valid()
    {
      Path, Name, this.dir := path, name, dir;
      RotateEveryBytes, KeepFiles := rotateEveryBytes, keepFiles;
      current, currentSize := false, 0;
    }

    function State(): RotatorState
      reads this, dir
    {
      RotatorState(dir.files, current, currentSize)
    }

    ghost predicate Valid()
      reads this, dir
    {
      && Consistent(State(), FilePath(Path, Name, 0))
      && AllUnder(dir.files, Path)
    }

    /**
     * What writing and rotating rely on: a name, and both settings set with
     * at least one file to keep. `CheckIfConfigSane` establishes it.
     */
    predicate Ready()
      reads this
    {
      Name != [] && RotateEveryBytes.Some? && KeepFiles.Some? && KeepFiles.value >= 1
    }

    function Settings(): Settings
      reads this
      requires Ready()
    {
      Rotation.Settings(Path, Name, RotateEveryBytes.value, KeepFiles.value)
    }

    /** Fills in the unset settings and checks them, as `CheckConfig` says. */
    method CheckIfConfigSane() returns (err: Outcome<ConfigError>)
      modifies this`KeepFiles, this`RotateEveryBytes
      ensures Checked(KeepFiles, RotateEveryBytes, err) == CheckConfig(Name, old(KeepFiles), old(RotateEveryBytes))
      ensures err == Pass ==> Ready()
    {
      if |Name| == 0 {
        return Fail(NameRequired);
      }
      if KeepFiles == None {
        KeepFiles := Some(DEFAULT_KEEP_FILES);
      }
      if RotateEveryBytes == None {
        RotateEveryBytes := Some(DEFAULT_ROTATE_EVERY_BYTES);
      }
      if KeepFiles.value < 2 || KeepFiles.value >= ROTATOR_MAX_FILES {
        return Fail(KeepFilesOutOfRange);
      }
      return Pass;
    }

    /** Appends `line` and a newline to the active file, rotating first when due. */
    method WriteLine(line: seq<byte>, millis: int)
      requires Valid() && Ready()
      modifies this`current, this`currentSize, dir
      ensures Valid()
      ensures State() == AfterWriteLine(old(State()), Settings(), line, millis)
    {
      if ShouldRotate(State(), RotateEveryBytes.value) {
        Rotate(millis);
      }
      var base := FilePath(Path, Name, 0);
      var data := dir.files[base].data + line + [NEWLINE];
      ModAdd(|dir.files[base].data|, |line| + 1);
      dir.files := dir.files[base := Plain(data)];
      currentSize := (currentSize + |line| + 1) % U64_MODULUS;
    }

    /**
     * The first call creates the active file; later calls archive it as
     * `Name-<millis>.zip`, recreate it empty and run the retention sweep.
     */
    method Rotate(millis: int)
      requires Valid() && Ready()
      modifies this`current, this`currentSize, dir
      ensures Valid()
      ensures State() == AfterRotate(old(State()), Settings(), millis)
    {
      var base := FilePath(Path, Name, 0);
      RotationStaysUnder(State(), Settings(), millis);
      // Closing the open handle leaves the directory as it is.
      if !current {
        dir.files := dir.files[base := Plain([])];
        current, currentSize := true, 0;
        return;
      }
      ghost var before := dir.files;
      var zipPath := Join(Path, Name + "-" + FormatInt(millis) + ARCHIVE_SUFFIX);
      ArchivePathIsNoFilePath(Settings(), millis, 0);
      // os.Create of the archive and zipWriter.Create of its single entry
      dir.files := dir.files[zipPath := Archive(map[Name := []])];
      var entry := ZipCopy(dir.files[base].data);
      // zipWriter.Close writes the entry out
      dir.files := dir.files[zipPath := Archive(map[Name := entry])];
      // os.Create truncates the active file
      dir.files := dir.files[base := Plain([])];
      current, currentSize := true, 0;
      assert dir.files == Archived(before, Settings(), millis);
      RetentionSweep();
      SweepOnlyDeletesCandidates(Archived(before, Settings(), millis), KeepFiles.value, {base});
    }

    /**
     * While at least `KeepFiles` archives are listed, delete the one that
     * sorts first. The active file is never counted nor deleted.
     */
    method RetentionSweep()
      requires Ready()
      modifies dir
      ensures dir.files == Sweep(old(dir.files), KeepFiles.value, {FilePath(Path, Name, 0)})
    {
      var skip := {FilePath(Path, Name, 0)};
      while true
        invariant Sweep(dir.files, KeepFiles.value, skip) == Sweep(old(dir.files), KeepFiles.value, skip)
        decreases dir.files.Keys
      {
        var list := ListArchives(dir.files, skip);
        if |list| < KeepFiles.value {
          break;
        }
        // sort.Strings(list); os.Remove(list[0])
        var first := Least(list);
        LeastIsMinOf(list, Candidates(dir.files, skip));
        dir.files := dir.files - {first};
      }
    }
  }
}
