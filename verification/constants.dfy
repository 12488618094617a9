/** Protocol limits shared by the components (the values of the library's RakNet constant classes). */
module Constants {

  /** Number of ordering/sequencing channels; the per-channel arrays have this length. */
  const MAX_CHANNELS: int := 32

  /** Largest number of fragments a split message may declare. */
  const MAX_SPLIT_COUNT: int := 128

  /** Bounds a negotiated maximum transfer unit must respect. */
  const MINIMUM_MTU_SIZE: int := 400
  const MAXIMUM_MTU_SIZE: int := 1492

  /** Minimum time between two unforced acknowledgement flushes, in milliseconds. */
  const ACK_SEND_WAIT_TIME_MILLIS: int := 3000

  /** Channel used when the caller names none. */
  const DEFAULT_ORDER_CHANNEL: int := 0

  /** Fixed overhead of a datagram frame: one identifier byte and a three-byte sequence number.
      Both the frame's empty-size computation and its "dummy" size are this constant. */
  const FRAME_HEADER_SIZE: int := 4
}
