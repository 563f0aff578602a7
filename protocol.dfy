/** The wire protocol both sides agree on: the command tags that open every
    packet on the update pipe, the identity record's tag, and the radio's
    payload limit. */
module Protocol {
  import opened Bytes

  const TAG_APPEND: byte := 0x42    // 'B': page offset, then data
  const TAG_ERASE: byte := 0x65     // 'e'
  const TAG_COMMIT: byte := 0x6D    // 'm'
  const TAG_FINALIZE: byte := 0x77  // 'w': image CRC
  const TAG_INFO: byte := 0x73      // 's': identity query and record

  /** The largest payload an nRF24L01+ packet carries. */
  const MAX_PAYLOAD: nat := 32
}
