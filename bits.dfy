/** Byte-level vocabulary shared by every module: a C `unsigned char` is a
    `bv8`, a possibly-NULL pointer result is an `Option`, and the bit fields
    the steganographic codecs read and write are named here once. */
module Bits {

  /** The result of a C call that returns a pointer or NULL. */
  datatype Option<+T> = None | Some(value: T)

  /** An unsigned 32-bit value (`uint32_t`). */
  type u32 = x: int | 0 <= x < 0x1_0000_0000

  const U32_MAX: int := 0xFFFF_FFFF

  /** BMP_INT_SIZE_BYTES: the width of a 32-bit field, and of the length
      prefix of a hidden payload. */
  const INT_SIZE_BYTES: nat := 4

  /** `b >> n` for a shift amount below 8, spelled out one amount at a time. */
  function ShiftRight(b: bv8, n: nat): bv8
    requires n < 8
  {
    if n == 0 then b
    else if n == 1 then b >> 1
    else if n == 2 then b >> 2
    else if n == 3 then b >> 3
    else if n == 4 then b >> 4
    else if n == 5 then b >> 5
    else if n == 6 then b >> 6
    else b >> 7
  }

  /** `b << n` for a shift amount below 8, spelled out one amount at a time. */
  function ShiftLeft(b: bv8, n: nat): bv8
    requires n < 8
  {
    if n == 0 then b
    else if n == 1 then b << 1
    else if n == 2 then b << 2
    else if n == 3 then b << 3
    else if n == 4 then b << 4
    else if n == 5 then b << 5
    else if n == 6 then b << 6
    else b << 7
  }

  /** Bit `i` of `b` (0 is the least significant bit), as 0 or 1: `b >> i & 1`. */
  function Bit(b: bv8, i: nat): (r: bv8)
    requires i < 8
    ensures r <= 1
  {
    ShiftRight(b, i) & 1
  }

  /** Bit 0 of `b`. */
  function Lsb(b: bv8): (r: bv8)
    ensures r <= 1
  {
    b & 1
  }

  /** Bit 7 of `b`. */
  function Msb(b: bv8): (r: bv8)
    ensures r <= 1
  {
    (b >> 7) & 1
  }

  /** The low four bits of `b`. */
  function LowNibble(b: bv8): (r: bv8)
    ensures r <= 0x0F
  {
    b & 0x0F
  }

  /** The high four bits of `b`, shifted down. */
  function HighNibble(b: bv8): (r: bv8)
    ensures r <= 0x0F
  {
    (b >> 4) & 0x0F
  }

  /** `b & 0xFE | bit`: `b` with bit 0 replaced. */
  function WithLsb(b: bv8, bit: bv8): bv8 {
    (b & 0xFE) | bit
  }

  /** `b & 0xF0 | nibble`: `b` with its low four bits replaced. */
  function WithLowNibble(b: bv8, nibble: bv8): bv8 {
    (b & 0xF0) | nibble
  }

  /** Replacing bit 0 keeps bits 1 to 7 and stores exactly the new bit. */
  lemma WithLsbBits(b: bv8, bit: bv8)
    requires bit <= 1
    ensures Lsb(WithLsb(b, bit)) == bit
    ensures WithLsb(b, bit) & 0xFE == b & 0xFE
    ensures Msb(WithLsb(b, bit)) == Msb(b)
  {
  }

  /** Replacing the low nibble keeps the high nibble and stores exactly the new nibble. */
  lemma WithLowNibbleBits(b: bv8, nibble: bv8)
    requires nibble <= 0x0F
    ensures LowNibble(WithLowNibble(b, nibble)) == nibble
    ensures WithLowNibble(b, nibble) & 0xF0 == b & 0xF0
  {
  }

  /** A byte is the most-significant-first assembly of its eight bits. */
  lemma ByteFromBits(p: bv8)
    ensures (Bit(p, 7) << 7) | (Bit(p, 6) << 6) | (Bit(p, 5) << 5) | (Bit(p, 4) << 4)
          | (Bit(p, 3) << 3) | (Bit(p, 2) << 2) | (Bit(p, 1) << 1) | Bit(p, 0) == p
  {
  }

  /** A byte is its high nibble followed by its low nibble. */
  lemma ByteFromNibbles(p: bv8)
    ensures (HighNibble(p) << 4) | LowNibble(p) == p
  {
  }

  /** The byte whose unsigned value is `x`. */
  function ByteOfInt(x: int): (r: bv8)
    requires 0 <= x < 0x100
    ensures r as int == x
  {
    if x == 0 then 0 else ByteOfInt(x - 1) + 1
  }

  /** Two bytes with the same unsigned value are the same byte. */
  lemma BytesEq(x: bv8, y: bv8)
    requires x as int == y as int
    ensures x == y
  {
  }

  /** 256 to the power `n`: one more than the largest value `n` bytes hold. */
  function Pow256(n: nat): (r: nat)
    ensures r >= 1
  {
    if n == 0 then 1 else 0x100 * Pow256(n - 1)
  }

  /** Four bytes hold exactly the 32-bit values. */
  lemma Pow256Of4()
    ensures Pow256(4) == 0x1_0000_0000
  {
  }

  /** Shifting right by 8 three times is shifting by 16, then 24. */
  lemma ShiftsCompose(v: nat)
    ensures v / 0x100 / 0x100 == v / 0x1_0000
    ensures v / 0x100 / 0x100 / 0x100 == v / 0x100_0000
  {
  }

  /** Every NUL-free byte sequence, for C strings. */
  predicate NulFree(s: seq<bv8>) {
    forall i :: 0 <= i < |s| ==> s[i] != 0
  }

  /** Copies `bytes` into `buffer` at `offset` (a memcpy or an fread into
      the middle of a buffer); nothing else changes. */
  method Place(buffer: array<bv8>, offset: nat, bytes: seq<bv8>)
    requires offset + |bytes| <= buffer.Length
    modifies buffer
    ensures buffer[..offset] == old(buffer[..offset])
    ensures buffer[offset..offset + |bytes|] == bytes
    ensures buffer[offset + |bytes|..] == old(buffer[offset + |bytes|..])
  {
    forall k | 0 <= k < |bytes| {
      buffer[offset + k] := bytes[k];
    }
  }
}
