/** The octet type shared by both ends of the link. */
module EwbBytes {
  /** An octet, as held in a Uint8Array or an Arduino String. */
  type byte = x: int | 0 <= x < 0x100
}
