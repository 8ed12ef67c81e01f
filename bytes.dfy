/** Machine integers of the SDK and the two byte orders it uses. */
module Bytes {

  newtype u8 = x: int | 0 <= x < 0x100
  newtype u16 = x: int | 0 <= x < 0x1_0000
  newtype u32 = x: int | 0 <= x < 0x1_0000_0000

  /** `(w >> 8) as u8`: the byte sent first for a big-endian word. */
  function High(w: u16): u8
  {
    (w / 0x100) as u8
  }

  /** `w as u8`: truncation to the low byte. */
  function Low(w: u16): u8
  {
    (w % 0x100) as u8
  }

  /** `u16::from_be_bytes([hi, lo])`. */
  function FromBigEndian(hi: u8, lo: u8): u16
  {
    (hi as int * 0x100 + lo as int) as u16
  }

  /** `u16::from_le_bytes([lo, hi])`. */
  function FromLittleEndian(lo: u8, hi: u8): u16
  {
    (lo as int + hi as int * 0x100) as u16
  }

  /** `n as u8` for a non-negative count: keeps the low eight bits. */
  function Truncate(n: nat): (b: u8)
    ensures n < 0x100 ==> b as int == n
  {
    (n % 0x100) as u8
  }

  /** Splitting a word into its two bytes and joining them back is the identity. */
  lemma BigEndianRoundTrip(w: u16)
    ensures FromBigEndian(High(w), Low(w)) == w
  {
  }

  /** Joining two bytes and splitting the word gives the two bytes back. */
  lemma BigEndianSplit(hi: u8, lo: u8)
    ensures High(FromBigEndian(hi, lo)) == hi && Low(FromBigEndian(hi, lo)) == lo
  {
  }
}
