/** The global limits of app.js and its byte-count helper. */
module Limits {
  import opened Wrappers

  const MAX_FILE_MB: nat := 20
  const MAX_FILE_BYTES: nat := MAX_FILE_MB * 1024 * 1024
  const MIN_TARGET_KB: nat := 20

  /** A file chosen in a file picker: only its name and byte size matter here. */
  datatype FileInfo = FileInfo(name: string, size: nat)

  /** `isOverLimit`: a missing file is never over the limit; a present one is
      over it exactly when it is larger than 20 MiB (20 * 2^20 bytes). */
  function IsOverLimit(file: Option<FileInfo>): (over: bool)
    ensures over ==> file.Some?
    ensures file.Some? ==> (over <==> file.value.size > 20971520)
  {
    file.Some? && file.value.size > MAX_FILE_BYTES
  }

  /** `bytesToKB`: kilobytes of 1024 bytes, as an exact fraction. */
  function BytesToKB(bytes: nat): (kb: real)
    ensures kb * 1024.0 == bytes as real
    ensures kb >= 0.0
  {
    bytes as real / 1024.0
  }
}
