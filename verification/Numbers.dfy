/** Machine words and hexadecimal digits. */
module Numbers {
  import opened Digests

  type UInt32 = x: nat | x < 0x1_0000_0000

  /** A hexadecimal digit of either case. */
  function HexValue(b: Byte): Option<Byte> {
    if 48 <= b < 58 then Some(b - 48)
    else if 65 <= b < 71 then Some(b - 55)
    else if 97 <= b < 103 then Some(b - 87)
    else None
  }
}
