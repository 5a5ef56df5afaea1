/**
 * The rotator's settings and the check that fills in their defaults and
 * range-checks them (`CheckIfConfigSane`). `RotateEveryBytes` and
 * `KeepFiles` are Go pointers that may be nil; here they are `Option`s.
 */
module Config {
  import opened Wrappers

  /** Go's `uint64`. */
  type uint64 = x: int | 0 <= x < 0x1_0000_0000_0000_0000

  const U64_MODULUS: int := 0x1_0000_0000_0000_0000

  const ROTATOR_MAX_FILES: int := 1024
  const DEFAULT_KEEP_FILES: int := 7
  const DEFAULT_ROTATE_EVERY_BYTES: uint64 := 10 * 1024 * 1024

  datatype ConfigError =
    | NameRequired          // "File logging requires a name for the file names"
    | KeepFilesOutOfRange   // "The number of files to keep should be between 2 and 1023"

  /** The two settings as the check leaves them, and what the check returned. */
  datatype Checked = Checked(keepFiles: Option<int>, rotateEveryBytes: Option<uint64>, outcome: Outcome<ConfigError>)

  /**
   * `CheckIfConfigSane` on a rotator named `name` whose settings are
   * `keepFiles` and `rotateEveryBytes`.
   */
  function CheckConfig(name: string, keepFiles: Option<int>, rotateEveryBytes: Option<uint64>): (r: Checked)
    // An empty name is refused before anything is defaulted.
    ensures name == [] ==> r == Checked(keepFiles, rotateEveryBytes, Fail(NameRequired))
    // Otherwise both settings are set: unset ones take their defaults, set ones are kept.
    ensures name != [] ==> r.keepFiles == Some(keepFiles.GetOr(DEFAULT_KEEP_FILES))
    ensures name != [] ==> r.rotateEveryBytes == Some(rotateEveryBytes.GetOr(DEFAULT_ROTATE_EVERY_BYTES))
    // Success exactly when the name is non-empty and 2 <= KeepFiles < 1024.
    ensures r.outcome == Pass <==> name != [] && 2 <= keepFiles.GetOr(DEFAULT_KEEP_FILES) < ROTATOR_MAX_FILES
    ensures r.outcome != Pass ==> r.outcome == Fail(if name == [] then NameRequired else KeepFilesOutOfRange)
  {
    if |name| == 0 then
      Checked(keepFiles, rotateEveryBytes, Fail(NameRequired))
    else
      var keep := if keepFiles == None then Some(DEFAULT_KEEP_FILES) else keepFiles;
      var every := if rotateEveryBytes == None then Some(DEFAULT_ROTATE_EVERY_BYTES) else rotateEveryBytes;
      if keep.value < 2 || keep.value >= ROTATOR_MAX_FILES then
        Checked(keep, every, Fail(KeepFilesOutOfRange))
      else
        Checked(keep, every, Pass)
  }

  /** Checking the settings a second time changes nothing and gives the same answer. */
  lemma CheckConfigIdempotent(name: string, keepFiles: Option<int>, rotateEveryBytes: Option<uint64>)
    ensures var r := CheckConfig(name, keepFiles, rotateEveryBytes);
            CheckConfig(name, r.keepFiles, r.rotateEveryBytes) == r
  {
  }

  /** The edges of the accepted range: 1 and 1024 are refused, 2 and 1023 accepted. */
  lemma KeepFilesBoundaries(name: string, rotateEveryBytes: Option<uint64>)
    requires name != []
    ensures CheckConfig(name, Some(1), rotateEveryBytes).outcome == Fail(KeepFilesOutOfRange)
    ensures CheckConfig(name, Some(1024), rotateEveryBytes).outcome == Fail(KeepFilesOutOfRange)
    ensures CheckConfig(name, Some(2), rotateEveryBytes).outcome == Pass
    ensures CheckConfig(name, Some(1023), rotateEveryBytes).outcome == Pass
    ensures CheckConfig(name, None, rotateEveryBytes).outcome == Pass
  {
  }
}
