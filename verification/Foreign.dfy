/** The libraries the series log calls: their results are parameters, their laws are stated here. */
module Foreign {
  import opened Bytes

  /** zstd's bulk calls and the 64-bit string hash. */
  datatype Library = Library(compress: bytes -> bytes, decompress: (bytes, nat) -> Option<bytes>, hash: bytes -> u64)

  /** What the log relies on: compression is lossless and never empty. */
  ghost predicate Lawful(lib: Library) {
    forall x: bytes {:trigger lib.compress(x)} ::
      lib.decompress(lib.compress(x), |x|) == Some(x) && lib.compress(x) != []
  }
}
