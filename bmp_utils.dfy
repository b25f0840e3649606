/** The little-endian header codec of src/bmp/bmp_utils.c: signed 32-bit
    and 16-bit fields stored least significant byte first, in two's
    complement. */
module BmpUtils {
  import opened Bits

  /** int32_t. */
  type i32 = x: int | -0x8000_0000 <= x < 0x8000_0000
  /** int16_t. */
  type i16 = x: int | -0x8000 <= x < 0x8000

  /** BMP_SHORT_SIZE_BYTES. */
  const SHORT_SIZE_BYTES: nat := 2

  /** The unsigned little-endian value of a byte string: the first byte is
      the least significant base-256 digit. */
  function ValueLE(s: seq<bv8>): (r: nat)
    ensures r < Pow256(|s|)
  {
    if |s| == 0 then 0 else s[0] as int + 0x100 * ValueLE(s[1..])
  }

  /** The low `width` base-256 digits of `value`, least significant first;
      byte k is `value >> 8k & 0xFF`. */
  function DigitsLE(value: nat, width: nat): (r: seq<bv8>)
    ensures |r| == width
  {
    if width == 0 then [] else [ByteOfInt(value % 0x100)] + DigitsLE(value / 0x100, width - 1)
  }

  /** Writing a value that fits in `width` bytes and reading it back gives the value. */
  lemma {:induction false} ValueOfDigitsLE(value: nat, width: nat)
    requires value < Pow256(width)
    ensures ValueLE(DigitsLE(value, width)) == value
  {
    if width > 0 {
      ValueOfDigitsLE(value / 0x100, width - 1);
      assert DigitsLE(value, width)[1..] == DigitsLE(value / 0x100, width - 1);
    }
  }

  /** Reading a byte string and writing its value back in as many bytes gives the string. */
  lemma {:induction false} DigitsOfValueLE(s: seq<bv8>)
    ensures DigitsLE(ValueLE(s), |s|) == s
  {
    if |s| > 0 {
      var v := ValueLE(s);
      DigitsOfValueLE(s[1..]);
      assert v / 0x100 == ValueLE(s[1..]);
      assert v % 0x100 == s[0] as int;
      BytesEq(ByteOfInt(v % 0x100), s[0]);
      assert s == [s[0]] + s[1..];
    }
  }

  /** The `(int32_t)` cast of an assembled unsigned 32-bit word: two's complement. */
  function ToInt32(u: nat): (r: i32)
    requires u < 0x1_0000_0000
    ensures r % 0x1_0000_0000 == u
  {
    if u >= 0x8000_0000 then u - 0x1_0000_0000 else u
  }

  /** The `(int16_t)` cast of an assembled unsigned 16-bit word: two's complement. */
  function ToInt16(u: nat): (r: i16)
    requires u < 0x1_0000
    ensures r % 0x1_0000 == u
  {
    if u >= 0x8000 then u - 0x1_0000 else u
  }

  /** Two bytes hold exactly the 16-bit values. */
  lemma Pow256Of2()
    ensures Pow256(2) == 0x1_0000
  {
  }

  /** read_int32_little_endian: bytes 0 to 3, byte 0 least significant, as a
      two's-complement int32. */
  function ReadInt32LE(s: seq<bv8>): (r: i32)
    requires |s| >= INT_SIZE_BYTES
  {
    Pow256Of4();
    ToInt32(ValueLE(s[..INT_SIZE_BYTES]))
  }

  /** read_int16_little_endian: bytes 0 and 1, byte 0 least significant, as
      a two's-complement int16. */
  function ReadInt16LE(s: seq<bv8>): (r: i16)
    requires |s| >= SHORT_SIZE_BYTES
  {
    Pow256Of2();
    ToInt16(ValueLE(s[..SHORT_SIZE_BYTES]))
  }

  /** The four bytes write_int32_little_endian stores for `value`: its
      two's-complement bit pattern, least significant byte first. */
  function Int32LE(value: i32): (r: seq<bv8>)
    ensures |r| == INT_SIZE_BYTES
  {
    DigitsLE(value % 0x1_0000_0000, INT_SIZE_BYTES)
  }

  /** The two bytes write_int16_little_endian stores for `value`. */
  function Int16LE(value: i16): (r: seq<bv8>)
    ensures |r| == SHORT_SIZE_BYTES
  {
    DigitsLE(value % 0x1_0000, SHORT_SIZE_BYTES)
  }

  /** Reading back what write_int32_little_endian stored gives the value, negative ones included. */
  lemma ReadInt32LEOfWrite(value: i32)
    ensures ReadInt32LE(Int32LE(value)) == value
  {
    Pow256Of4();
    var u := value % 0x1_0000_0000;
    if value < 0 {
      assert u == value + 0x1_0000_0000;
    } else {
      assert u == value;
    }
    ValueOfDigitsLE(u, INT_SIZE_BYTES);
    assert Int32LE(value)[..INT_SIZE_BYTES] == Int32LE(value);
    assert ToInt32(u) == value;
  }

  /** Reading back what write_int16_little_endian stored gives the value. */
  lemma ReadInt16LEOfWrite(value: i16)
    ensures ReadInt16LE(Int16LE(value)) == value
  {
    Pow256Of2();
    var u := value % 0x1_0000;
    if value < 0 {
      assert u == value + 0x1_0000;
    } else {
      assert u == value;
    }
    ValueOfDigitsLE(u, SHORT_SIZE_BYTES);
    assert Int16LE(value)[..SHORT_SIZE_BYTES] == Int16LE(value);
    assert ToInt16(u) == value;
  }

  /** Any buffer whose first four bytes store `value` reads back as `value`. */
  lemma ReadInt32LEOfStored(s: seq<bv8>, value: i32)
    requires |s| >= INT_SIZE_BYTES && s[..INT_SIZE_BYTES] == Int32LE(value)
    ensures ReadInt32LE(s) == value
  {
    ReadInt32LEOfWrite(value);
    assert Int32LE(value)[..INT_SIZE_BYTES] == Int32LE(value);
  }

  /** Any buffer whose first two bytes store `value` reads back as `value`. */
  lemma ReadInt16LEOfStored(s: seq<bv8>, value: i16)
    requires |s| >= SHORT_SIZE_BYTES && s[..SHORT_SIZE_BYTES] == Int16LE(value)
    ensures ReadInt16LE(s) == value
  {
    ReadInt16LEOfWrite(value);
    assert Int16LE(value)[..SHORT_SIZE_BYTES] == Int16LE(value);
  }

  /** Writing back the value read gives the same four bytes: the codec is a bijection. */
  lemma WriteOfReadInt32LE(s: seq<bv8>)
    requires |s| >= INT_SIZE_BYTES
    ensures Int32LE(ReadInt32LE(s)) == s[..INT_SIZE_BYTES]
  {
    DigitsOfValueLE(s[..INT_SIZE_BYTES]);
  }

  /** Writing back the value read gives the same two bytes. */
  lemma WriteOfReadInt16LE(s: seq<bv8>)
    requires |s| >= SHORT_SIZE_BYTES
    ensures Int16LE(ReadInt16LE(s)) == s[..SHORT_SIZE_BYTES]
  {
    DigitsOfValueLE(s[..SHORT_SIZE_BYTES]);
  }

  /** The value read is b0 + b1 * 2^8 + b2 * 2^16 + b3 * 2^24, less 2^32 when
      bit 7 of b3 (the sign bit) is set. */
  lemma ReadInt32LEDigits(s: seq<bv8>)
    requires |s| >= INT_SIZE_BYTES
    ensures var u := (s[0] as int) + (s[1] as int) * 0x100 + (s[2] as int) * 0x1_0000 + (s[3] as int) * 0x100_0000;
            ReadInt32LE(s) == if s[3] as int >= 0x80 then u - 0x1_0000_0000 else u
  {
    ValueLEOfFour(s[..INT_SIZE_BYTES]);
  }

  /** The little-endian value of four bytes, digit by digit. */
  lemma ValueLEOfFour(t: seq<bv8>)
    requires |t| == 4
    ensures ValueLE(t) == (t[0] as int) + (t[1] as int) * 0x100 + (t[2] as int) * 0x1_0000 + (t[3] as int) * 0x100_0000
  {
    assert t[3..][1..] == [] && t[2..][1..] == t[3..] && t[1..][1..] == t[2..];
    assert ValueLE(t[3..]) == t[3] as int;
    assert ValueLE(t[2..]) == t[2] as int + 0x100 * ValueLE(t[3..]);
    assert ValueLE(t[1..]) == t[1] as int + 0x100 * ValueLE(t[2..]);
  }

  /** The value read is b0 + b1 * 2^8, less 2^16 when the sign bit is set. */
  lemma ReadInt16LEDigits(s: seq<bv8>)
    requires |s| >= SHORT_SIZE_BYTES
    ensures var u := (s[0] as int) + (s[1] as int) * 0x100;
            ReadInt16LE(s) == if s[1] as int >= 0x80 then u - 0x1_0000 else u
  {
    var t := s[..SHORT_SIZE_BYTES];
    assert t[1..][1..] == [];
    assert ValueLE(t[1..]) == s[1] as int;
  }

  /** The four stored bytes are `value >> 0, 8, 16, 24 & 0xFF` of the two's-complement pattern. */
  lemma Int32LEBytes(value: i32)
    ensures var u := value % 0x1_0000_0000;
            Int32LE(value) == [ByteOfInt(u % 0x100), ByteOfInt(u / 0x100 % 0x100),
                               ByteOfInt(u / 0x1_0000 % 0x100), ByteOfInt(u / 0x100_0000 % 0x100)]
  {
    var u := value % 0x1_0000_0000;
    var a := u / 0x100;
    var b := a / 0x100;
    var c := b / 0x100;
    ShiftsCompose(u);
    assert Int32LE(value) == DigitsLE(u, 4);
    assert DigitsLE(c, 1) == [ByteOfInt(c % 0x100)];
    assert DigitsLE(b, 2) == [ByteOfInt(b % 0x100)] + DigitsLE(c, 1);
    assert DigitsLE(a, 3) == [ByteOfInt(a % 0x100)] + DigitsLE(b, 2);
    assert DigitsLE(u, 4) == [ByteOfInt(u % 0x100)] + DigitsLE(a, 3);
  }

  /** The two stored bytes are `value >> 0, 8 & 0xFF` of the two's-complement pattern. */
  lemma Int16LEBytes(value: i16)
    ensures var u := value % 0x1_0000;
            Int16LE(value) == [ByteOfInt(u % 0x100), ByteOfInt(u / 0x100 % 0x100)]
  {
    var u := value % 0x1_0000;
    assert DigitsLE(u / 0x100, 1) == [ByteOfInt(u / 0x100 % 0x100)];
  }

  /** write_int32_little_endian at `buffer + offset`: stores the four bytes
      of `value` and touches nothing else. */
  method WriteInt32LE(buffer: array<bv8>, offset: nat, value: i32)
    requires offset + INT_SIZE_BYTES <= buffer.Length
    modifies buffer
    ensures buffer[offset..offset + INT_SIZE_BYTES] == Int32LE(value)
    ensures forall k :: 0 <= k < buffer.Length && !(offset <= k < offset + INT_SIZE_BYTES) ==> buffer[k] == old(buffer[k])
  {
    var u := value % 0x1_0000_0000;
    Int32LEBytes(value);
    buffer[offset] := ByteOfInt(u % 0x100);
    buffer[offset + 1] := ByteOfInt(u / 0x100 % 0x100);
    buffer[offset + 2] := ByteOfInt(u / 0x1_0000 % 0x100);
    buffer[offset + 3] := ByteOfInt(u / 0x100_0000 % 0x100);
  }

  /** write_int16_little_endian at `buffer + offset`: stores the two bytes
      of `value` and touches nothing else. */
  method WriteInt16LE(buffer: array<bv8>, offset: nat, value: i16)
    requires offset + SHORT_SIZE_BYTES <= buffer.Length
    modifies buffer
    ensures buffer[offset..offset + SHORT_SIZE_BYTES] == Int16LE(value)
    ensures forall k :: 0 <= k < buffer.Length && !(offset <= k < offset + SHORT_SIZE_BYTES) ==> buffer[k] == old(buffer[k])
  {
    var u := value % 0x1_0000;
    Int16LEBytes(value);
    buffer[offset] := ByteOfInt(u % 0x100);
    buffer[offset + 1] := ByteOfInt(u / 0x100 % 0x100);
  }
}
