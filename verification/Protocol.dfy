/** The limits of the tox-sequenced protocol (`protocol.rs`). */
module Protocol {
  const MAX_FRAGMENTS_PER_MESSAGE: nat := 1024
  const MAX_MESSAGE_SIZE: nat := 1048576
  /** What a packet carries of a payload: the packet size less the overhead. */
  const PAYLOAD_MTU: nat := 1353
  const ESTIMATED_PAYLOAD_SIZE: nat := 1300
  const MAX_CONCURRENT_OUTGOING: nat := 32
  const MAX_CONCURRENT_INCOMING: nat := 32
  const MAX_COMPLETED_INCOMING: nat := 1024
  const REASSEMBLY_TIMEOUT: nat := 30
  /** How many ids behind the highest a new one may be. */
  const LOOKBACK: nat := 32
  /** Message ids are 32-bit numbers. */
  const ID_SPACE: nat := 0x1_0000_0000
}
