# FileRotator: a verified model of a size-triggered log rotator

This project models `FileRotator` from the `logp` package of libbeat
(`libbeat/logp/file_rotator.go`). The rotator appends log lines to one
active file. When a byte counter reaches a threshold, the next write
rotates first:

- the active file is archived as `Name-<millis>.zip`, a zip file with one
  entry named `Name` that holds the file's bytes;
- the active file is recreated empty;
- a retention sweep deletes the lexicographically smallest `.zip` paths
  until fewer than `KeepFiles` remain.

A check (`CheckIfConfigSane`) fills in the default settings and
range-checks them.

The filesystem is one directory, the `Directory` object. It maps a file's
full path (`Path + "/" + file name`) to its content. A file is either plain
bytes or an archive. An archive is a map from entry name to the entry's
bytes. The current time is a parameter of `Rotate` and `WriteLine`, in
milliseconds since the epoch.

Modules:

- `Wrappers`: `Option` (a Go pointer that may be nil) and `Outcome` (a Go
  `error` that may be nil).
- `Strings`: Go's string order, the first element of a sorted list,
  `strings.HasSuffix`, and `strconv.FormatInt` in base 10 with its inverse.
- `Config`: the constants, `uint64`, and `CheckConfig`, the value-level
  meaning of `CheckIfConfigSane`.
- `FileSystem`: bytes, files, paths and the `Directory`.
- `Retention`: the retention sweep as a function (`Sweep`), its properties,
  and the directory walk (`ListArchives`).
- `Rotation`: the rotator's state as a value, the paths it builds,
  `ShouldRotate`, the state after `Rotate` (`AfterRotate`) and after
  `WriteLine` (`AfterWriteLine`), and the chunked archive copy (`ZipCopy`).
- `Logp`: the `FileRotator` class. Its methods change its fields and the
  directory step by step as the source does. Each is proved to produce the
  state that `Rotation` describes.

The `current_size` counter is a Go `uint64`. The model writes out its
wrap-around modulo 2^64. The class invariant `Valid()` states two things
while a file is open: the active file exists as a plain file, and the
counter equals its length modulo 2^64. It also states, at all times, that
every path in the directory map lies below `Path`. The constructor requires
this of the `Directory` it is given: the map holds the files of `Path`.
Rotations and writes only create paths below `Path`, so the property is
kept.

Go compares strings byte by byte. Here names are sequences of characters
compared by code point, which is the same order for UTF-8 text.

Three consequences of the code that are easy to miss, all modelled as the
code has them:

- A `RotateEveryBytes` of 0 is accepted (nothing checks that the threshold
  is positive). Every write then rotates.
- The trigger is tested on the counter before the line is added. With a
  threshold of 10, `"hello"` (6 bytes) is followed by `"world!"` in the
  same file (13 bytes). The rotation happens on the third write, as
  `Rotation.ThresholdScenario` shows. A run that rotated on the second
  write would need the trigger tested after adding the new line.
- The first rotation truncates a base file left over from an earlier run
  without archiving it.

## Model

| member | source | states |
|---|---|---|
| `Config.CheckConfig` | libbeat/logp/file_rotator.go:47-63 | An empty name gives `NameRequired` with both settings left as given. Otherwise, unset settings become 7 and 10 MiB and set ones are kept. The check passes iff the name is non-empty and 2 <= KeepFiles < 1024. |
| `Config.CheckConfigIdempotent` | libbeat/logp/file_rotator.go:51-63 | Checking the settings the first check produced gives the same settings and the same outcome again. |
| `Config.KeepFilesBoundaries` | libbeat/logp/file_rotator.go:60-62 | KeepFiles 1 and 1024 are refused; 2, 1023 and the default 7 are accepted. |
| `Logp.FileRotator.constructor` | libbeat/logp/file_rotator.go:19-27 | A new rotator has no open file, a zero counter and the given settings. Given a directory whose files all lie below `Path`, it satisfies the class invariant. |
| `Logp.FileRotator.CheckIfConfigSane` | libbeat/logp/file_rotator.go:47-64 | The fields it assigns and the error it returns are exactly `CheckConfig`'s. A success leaves the rotator ready to write. |
| `Logp.FileRotator.WriteLine` | libbeat/logp/file_rotator.go:66-82 | The new state is `AfterWriteLine` of the old one. The class invariant (active file present, counter equal to its length mod 2^64) is kept. |
| `Logp.FileRotator.Rotate` | libbeat/logp/file_rotator.go:113-202 | The new state is `AfterRotate` of the old one. The class invariant is kept. |
| `Logp.FileRotator.RetentionSweep` | libbeat/logp/file_rotator.go:184-199 | The loop leaves the directory as `Sweep` says, except that it skips the active file's path. |
| `Rotation.AfterRotate` | libbeat/logp/file_rotator.go:113-182 | After any rotation the active file exists and is empty, a file is open, and the counter is 0. |
| `Rotation.AfterWriteLine` | libbeat/logp/file_rotator.go:66-82 | After a write a file is open, and the counter equals the active file's length mod 2^64. |
| `Rotation.FirstRotation` | libbeat/logp/file_rotator.go:119-129 | With no open file, rotating adds only the active file, which is empty. It writes no archive and changes no other file. |
| `Rotation.RotationArchivesContent` | libbeat/logp/file_rotator.go:131-182 | A later rotation writes `Name-<millis>.zip`. Its single entry `Name` holds exactly the active file's previous bytes, unless the sweep has deleted it. The active file is left empty with counter 0. |
| `Rotation.RotationKeepsNewestArchive` | libbeat/logp/file_rotator.go:131-199 | With KeepFiles >= 2, the new archive survives the sweep when no other archive sorts after it. It then holds the old content. |
| `Rotation.RotationRetention` | libbeat/logp/file_rotator.go:184-199 | After a later rotation, fewer than KeepFiles archives remain. Every deleted path sorts before every kept archive. Files not ending in ".zip" are untouched. |
| `Rotation.SkipAgreesWithSource` | libbeat/logp/file_rotator.go:184-199 | When the active file's path does not end in ".zip", skipping it changes nothing: the sweep is the source's. |
| `Rotation.ActiveFileSortsFirst` | libbeat/logp/file_rotator.go:184-199 | When `Name` ends in ".zip", the active file's path is counted by the walk and sorts before the archive of its own rotation. |
| `Rotation.AsWrittenSweepDeletesActiveFile` | libbeat/logp/file_rotator.go:184-199 | The sweep as written deletes the active file after a later rotation when `Name` ends in ".zip" (such as "a.zip"), KeepFiles is 2 and the active file was alone in the directory. |
| `Rotation.SweepOfTwoDeletesSmaller` | libbeat/logp/file_rotator.go:193-197 | With two archives and KeepFiles 2, the sweep deletes the one that sorts first. |
| `Rotation.WriteBelowThreshold` | libbeat/logp/file_rotator.go:66-94 | Below the threshold, a write appends the line and a newline. The counter grows by the line's length plus one, mod 2^64. |
| `Rotation.WriteAtThreshold` | libbeat/logp/file_rotator.go:66-94 | At or above the threshold, a write rotates once. The line then lands alone in the recreated file, and the counter is its length plus one. |
| `Rotation.FirstWrite` | libbeat/logp/file_rotator.go:66-94 | The first write creates the active file holding just the line. It writes no archive. |
| `Rotation.ThresholdScenario` | libbeat/logp/file_rotator.go:66-94 | In the `/tmp/x/app.log` example (threshold 10, keep 2), "hello" and "world!" share the file. The third write rotates and archives both lines. |
| `Rotation.ShouldRotate` | libbeat/logp/file_rotator.go:84-94 | A rotation is due when no file is open, or when the counter has reached the threshold. `WriteAtThreshold`, `WriteBelowThreshold` and `FirstWrite` state what each case does to a write. |
| `Rotation.Consistent` | libbeat/logp/file_rotator.go:66-82 | While a file is open, the active file exists as a plain file and the counter is its length mod 2^64. `AfterRotate` and `AfterWriteLine` re-establish it. |
| `Rotation.FilePath` | libbeat/logp/file_rotator.go:96-102 | Number 0 gives `Path/Name`. Any other number gives `Path/Name.<n>.zip`. |
| `Rotation.FilePathShape` | libbeat/logp/file_rotator.go:96-102 | Every such path lies below `Path`. The numbered ones end in ".zip". |
| `Rotation.ArchivePath` | libbeat/logp/file_rotator.go:131-134 | A rotation at `millis` writes `Path/Name-<millis>.zip`, with the decimal timestamp. |
| `Rotation.ArchivePathShape` | libbeat/logp/file_rotator.go:131-134 | The archive path lies below `Path` and ends in ".zip", so the sweep counts it. |
| `Rotation.ArchivePathInjective` | libbeat/logp/file_rotator.go:131-134 | Rotations at distinct milliseconds write distinct archive paths. |
| `Rotation.Archived` | libbeat/logp/file_rotator.go:135-182 | Before the sweep, a later rotation adds the archive path and keeps every other file as it was, apart from the active file. `RotationArchivesContent` states the archive's content. |
| `Rotation.RotationStaysUnder` | libbeat/logp/file_rotator.go:113-199 | A rotation keeps every file of the directory below `Path`. |
| `Rotation.WriteStaysUnder` | libbeat/logp/file_rotator.go:66-82 | So does a write. |
| `Retention.Sweep` | libbeat/logp/file_rotator.go:184-199 | While `keep` or more paths are counted, remove the least one. The lemmas below state what this does. |
| `Rotation.FilePathInjective` | libbeat/logp/file_rotator.go:96-102 | Distinct file numbers give distinct paths. |
| `Rotation.ArchivePathIsNoFilePath` | libbeat/logp/file_rotator.go:96-102 | A timestamped archive path never equals the active file's path or any legacy numbered path. |
| `Rotation.ArchiveOrderFollowsTime` | libbeat/logp/file_rotator.go:131-134 | For timestamps with the same digit count, the earlier archive's path sorts strictly first. |
| `Rotation.ReadBlock` | libbeat/logp/file_rotator.go:151 | A read reports end of input exactly at the end. Otherwise it copies the next 1..buffer-length bytes of the file into the buffer. |
| `Rotation.ZipCopy` | libbeat/logp/file_rotator.go:146-168 | For every sequence of read sizes, the entry written equals the file's content. The full-buffer branch and the prefix branch write the same bytes. |
| `Retention.SweepOnlyDeletesCandidates` | libbeat/logp/file_rotator.go:184-199 | The sweep only deletes, and only paths it counts. Kept files keep their content, and every file it does not count is kept. |
| `Retention.SweepCount` | libbeat/logp/file_rotator.go:193-194 | The sweep ends with fewer than `keep` counted paths. With `keep` or more at the start, exactly `keep - 1` remain; with fewer, nothing changes. |
| `Retention.SweepDeletesSmallest` | libbeat/logp/file_rotator.go:196-197 | Every deleted path sorts before every counted path that is kept. |
| `Retention.SweepKeepsGreatest` | libbeat/logp/file_rotator.go:184-199 | With `keep >= 2`, the counted path that sorts last survives. |
| `Retention.SweepSkipIrrelevant` | libbeat/logp/file_rotator.go:188 | Skipping paths that do not end in ".zip" does not change the sweep. |
| `Retention.ListArchives` | libbeat/logp/file_rotator.go:186-192 | The walk lists each path ending in ".zip" exactly once, and nothing else. |
| `Retention.MinOf` | libbeat/logp/file_rotator.go:196-197 | The path a sweep step deletes belongs to the counted set and sorts before all other counted paths. |
| `Retention.LeastIsMinOf` | libbeat/logp/file_rotator.go:196-197 | The first path of the sorted walk is that least counted path. |
| `Strings.Least` | libbeat/logp/file_rotator.go:196-197 | `sort.Strings(list)` followed by `list[0]` gives an element of the list that sorts before every element. |
| `Strings.FormatIntRoundTrip` | libbeat/logp/file_rotator.go:132 | Parsing the decimal timestamp gives the number back. |
| `Strings.FormatIntInjective` | libbeat/logp/file_rotator.go:132 | Distinct numbers give distinct decimal strings. |
| `Strings.DigitsOrder` | libbeat/logp/file_rotator.go:132 | For numbers with the same digit count, string order is numeric order. |

## Left out

- `CreateDirectory` and `FileExists` are left out: they are `os.Stat`/`os.MkdirAll` plumbing with no logic of the rotator's own.
- The zip container format, DEFLATE compression and `bufio` buffering are left out. An archive is an entry-name-to-bytes map. A read returns between one byte and a full buffer, chosen freely.
- The clock is left out: `time.Now()` is the `millis` parameter. Two rotations in the same millisecond write the same archive path, and the second overwrites the first, as in the source.
- `Logp.FileRotator.WriteLine`: returns no error, because every `os` call is modelled as succeeding. The source's error returns of `WriteLine` and `Rotate` are absent for the same reason.
- `Logp.FileRotator.Rotate`: returns no error, because every `os` call is modelled as succeeding. This includes the ignored failure of `os.Open` and `iow.Write`, read errors other than end of input, and the string match on "EOF".
- `Logp.FileRotator.Rotate` and `WriteLine` require `Ready()`: a non-empty name, both settings set, and KeepFiles >= 1. This is the configuration `CheckIfConfigSane` produces when it passes. The source demands less. Its first write with nil settings succeeds, since `shouldRotate` returns early when no file is open and the first rotation reads neither setting. A nil `RotateEveryBytes` panics only at the second write. A nil `KeepFiles` panics only at the first later rotation. A KeepFiles below 1 makes the sweep index an empty list. An empty name makes `os.Create` target the directory itself, which is an I/O failure.
- Failing `os.Remove` is left out. The source swallows the error, but its loop only stops when the count drops, so a lasting failure would loop forever. Deletes always succeed here.
- The directory walk is flat. `filepath.Walk`'s descent into subdirectories is left out. `filepath.Join`'s path cleaning is left out too.
- `Logp.FileRotator.RetentionSweep`: does not model a `Path` that ends in ".zip". There `filepath.Walk` also reports the directory itself. That path sorts before every file in it, so the source tries to remove it first. `os.Remove` of a non-empty directory fails and the error is ignored. The count never drops, so the source loops forever. The model's walk lists only the files in the map, and its sweep always terminates.
- File handles are identified with the active file's path. Closing the handle changes nothing. What an open handle on a deleted file would do is not modelled, because the model's sweep never deletes the active file (see Findings).
- `Logp.FileRotator.RetentionSweep`: skips the active file's path, which the source does not. This is the correction recorded under Findings. `Rotation.SkipAgreesWithSource` shows the two agree whenever that path does not end in ".zip".
- Concurrency is left out: the source has no locking and assumes a single writer.

## Findings

| source | as written | input that shows it | evidently intended | confidence | as-written member | corrected member |
|---|---|---|---|---|---|---|
| libbeat/logp/file_rotator.go:184-199 | The sweep counts and deletes every path ending in ".zip", including the active file's own path. | `Path = "/d"`, `Name = "a.zip"`, KeepFiles 2, a second rotation. The walk lists `/d/a.zip` and `/d/a.zip-<millis>.zip`. `/d/a.zip` sorts first and is removed, which leaves the open handle on a deleted file. | The sweep counts and deletes archives only, never `FilePath(0)`. | medium; not executed | `Rotation.AsWrittenSweepDeletesActiveFile` | `Rotation.AfterRotate` |
