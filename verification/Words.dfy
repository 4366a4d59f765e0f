/** Machine values shared by the whole model. */
module Words {
  /** An octet of a packet buffer or of a message. */
  type byte = x: int | 0 <= x < 256

  /** A 32-bit address, mask or router id, read in network byte order. */
  type Addr = x: int | 0 <= x < 0x1_0000_0000
}
