/** Capacities that the firmware takes from its build-time configuration
    header. The header is not part of this model: the values below are
    one admissible configuration, and no proof depends on them beyond
    their being positive and small enough for the 16-bit indices the
    code uses. */
module Config {
  /** Size of the frame reassembly buffer `rxFrame`. */
  const RX_FRAME_LENGTH: nat := 128
  /** Size of a subscription's topic buffer and of the received-topic buffer. */
  const MAX_TOPIC_STR_LEN: nat := 16
  /** Number of format specifiers a message can carry. */
  const MAX_NUM_OF_FORMAT_SPECIFIERS: nat := 8
  /** Size of the receive buffers in `DIS_process` and in the stored message. */
  const MAX_RECEIVE_MESSAGE_LEN: nat := 96
  /** Number of slots in the subscription table. */
  const MAX_NUM_OF_SUBSCRIPTIONS: nat := 8
}
