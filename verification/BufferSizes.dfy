/** The sizes that the allocator, the connections and the message loops share. */
module BufferSizes {
  const SLOT_SIZE: nat := 4096
  const RBUF_SZ: nat := SLOT_SIZE
  const WBUF_SZ: nat := SLOT_SIZE
  const CMD_PREFIX_BYTE: nat := 10
}
