/**
  Bytes as unsigned 8-bit values, with the masks and shifts the decoders use
  read as arithmetic on the byte's value.
 */
module Bytes {

  type Byte = bv8

  lemma LowBits2(x: Byte) ensures (x & 3) as int == x as int % 4 {}
  lemma LowBits3(x: Byte) ensures (x & 7) as int == x as int % 8 {}
  lemma LowBits4(x: Byte) ensures (x & 15) as int == x as int % 16 {}
  lemma LowBits5(x: Byte) ensures (x & 31) as int == x as int % 32 {}

  lemma Shift3(x: Byte) ensures (x >> 3) as int == x as int / 8 {}
  lemma Shift4(x: Byte) ensures (x >> 4) as int == x as int / 16 {}
  lemma Shift6(x: Byte) ensures (x >> 6) as int == x as int / 64 {}
  lemma Shift7(x: Byte) ensures (x >> 7) as int == x as int / 128 {}

  /** Bit 3 is set exactly when the value's eights digit is odd. */
  lemma Bit3(x: Byte) ensures (x & 8 != 0) <==> x as int / 8 % 2 == 1 {}

  /** The top three bits are 100: a value from 0x80 to 0x9F. */
  lemma Top3Is4(x: Byte) ensures (x & 0xE0 == 0x80) <==> 0x80 <= x as int < 0xA0 {}

  /** The high nibble of the value. */
  lemma HighNibble(x: Byte) ensures (x & 0xF0) as int == x as int / 16 * 16 {}

  /** A value in 0..15 as a byte, by cases on its literal. */
  function Nibble(n: int): (b: Byte)
    requires 0 <= n < 16
    ensures b as int == n
  {
    if n < 8 then
      if n < 4 then (if n == 0 then 0 else if n == 1 then 1 else if n == 2 then 2 else 3)
      else (if n == 4 then 4 else if n == 5 then 5 else if n == 6 then 6 else 7)
    else if n < 12 then (if n == 8 then 8 else if n == 9 then 9 else if n == 10 then 10 else 11)
    else (if n == 12 then 12 else if n == 13 then 13 else if n == 14 then 14 else 15)
  }

  /** Two nibbles side by side make the byte high * 16 + low. */
  lemma JoinNibbles(high: Byte, low: Byte)
    requires high < 16 && low < 16
    ensures ((high << 4) | low) as int == high as int * 16 + low as int
  {
  }

  /** A value in 0..255 as a byte, built from its two nibbles. */
  function ToByte(x: int): (b: Byte)
    requires 0 <= x < 256
    ensures b as int == x
  {
    var high, low := Nibble(x / 16), Nibble(x % 16);
    JoinNibbles(high, low);
    (high << 4) | low
  }
}
