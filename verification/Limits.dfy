/** Resource bounds applied while opening a container (crates/umbrik-core/src/limits.rs). */
module LimitsModel {
  import opened Basics

  datatype Limits = Limits(
    maxCompressionRatio: u64,
    maxEntries: u64,
    maxUncompressedBytes: u64,
    allowSymlinks: bool,
    allowAbsolutePaths: bool,
    allowOverwrite: bool,
    maxRecipients: u64,
    maxTotalKdfIterations: u64)

  const DEFAULT_LIMITS: Limits :=
    Limits(100, 1000, 16 * 1024 * 1024 * 1024, false, false, false, 64, 50_000_000)
}
