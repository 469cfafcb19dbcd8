/** Bytes, the sizes fixed by src/consts.rs, src/v5/dynshm.rs and src/v5/release_queue.rs, and the
    errors that managers and streams report. */
module Common {
  newtype byte = b: int | 0 <= b < 256

  datatype ManagerError = NoSpace | NotAllocated | InvalidOffset | OutOfBounds | ReleaseQueueFull | Closed

  datatype StreamError =
    | NotEnoughData
    | BrokenBuffer
    | SizeTooLarge
    | StreamClosed
    | SessionShutdown
    | InvalidVersion
    | InvalidMsgType
    | EndOfStream
    | ReadBufferTooSmall

  const TWO_32: nat := 0x1_0000_0000
  const TWO_63: nat := 0x8000_0000_0000_0000
  const TWO_64: nat := 0x1_0000_0000_0000_0000
  const I32_MAX: nat := 0x7fff_ffff

  /** `[magic:4][order:4]` in front of every block of a shared region. */
  const ALLOCATOR_HEADER_SIZE: nat := 8
  /** `[offset:8][next:8][len:4][cap:4]` in front of every payload. */
  const BUFFER_HEADER_SIZE: nat := 24

  const RQ_SIZE: nat := 128 * 4096
  const SHARED_REGION_SIZE: nat := 0x100_0000
  const MIN_BLOCK_SIZE: nat := 0x4000
  const MAX_BLOCK_SIZE: nat := 0x4_0000
  const DYNSHM_TOTAL_SIZE: nat := 0x1_0000_0000
  const MAX_TRANSFER_SIZE: nat := 0x4000_0000
  const MAX_CHAIN_NODES: nat := DYNSHM_TOTAL_SIZE / MIN_BLOCK_SIZE
}
