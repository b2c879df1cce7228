/** The embedding constants that the Python and the Rust implementation share. */
module Layout {
  import opened Basics

  const HEADER_SUBTREE: byte := 0
  const CODE_SUBTREE: byte := 1
  const STORAGE_SUBTREE: byte := 255
  const CODE_OFFSET := 4
  const HEADER_STORAGE_OFFSET := 20
  const CODE_CHUNKS_IN_HEADER := 16
  const STORAGE_CHUNKS_IN_HEADER := 4

  /** Code bytes in one chunk. */
  const CHUNK_SIZE := 31

  function ChunkCount(code: Bytes): nat {
    (|code| + CHUNK_SIZE - 1) / CHUNK_SIZE
  }
}
