/** What the three carrier codecs do to the pixel bytes, stated once as
    functions on sequences, with the properties the codecs promise:
    which bits each one writes, that everything else is kept, and how the
    hidden bytes are read back. Every copy of lsb1_hide, lsb4_hide and
    lsbI_hide and the lsb1_retrieve loop are proved against these. */
module LsbSpec {
  import opened Bits
  import opened StegoUtils

  /** STEGOBMP_LSB1_BYTES_PER_PAYLOAD: carrier bytes per payload byte. */
  const LSB1_BYTES_PER_PAYLOAD: nat := 8
  /** STEGOBMP_LSB1_MOST_SIGNIFICANT_BIT: bits are written from bit 7 down. */
  const LSB1_MOST_SIGNIFICANT_BIT: nat := 7
  /** STEGOBMP_LSB1_MASK: keeps bits 1 to 7 of a carrier byte. */
  const LSB1_MASK: bv8 := 0xFE
  /** STEGOBMP_LSB1_BIT_MASK_1. */
  const LSB1_BIT_MASK_1: bv8 := 0x01
  /** STEGOBMP_LSB4_BYTES_PER_PAYLOAD. */
  const LSB4_BYTES_PER_PAYLOAD: nat := 2
  /** STEGOBMP_LSB4_NIBBLE_SIZE_BITS. */
  const LSB4_NIBBLE_SIZE_BITS: nat := 4
  /** STEGOBMP_LSB4_MASK: keeps the high nibble of a carrier byte. */
  const LSB4_MASK: bv8 := 0xF0
  /** STEGOBMP_LSB4_BIT_MASK_4. */
  const LSB4_BIT_MASK_4: bv8 := 0x0F
  /** STEGOBMP_LSBI_BYTES_PER_PAYLOAD. */
  const LSBI_BYTES_PER_PAYLOAD: nat := 8
  /** STEGOBMP_LSBI_MOST_SIGNIFICANT_BIT. */
  const LSBI_MOST_SIGNIFICANT_BIT: nat := 7
  /** STEGOBMP_LSBI_MASK: keeps bits 1 to 7 of a carrier byte. */
  const LSBI_MASK: bv8 := 0xFE
  /** STEGOBMP_LSBI_BIT_MASK_1. */
  const LSBI_BIT_MASK_1: bv8 := 0x01
  /** STEGOBMP_LSBI_CONTROL_BYTES: carrier bytes holding the control nibble. */
  const LSBI_CONTROL_BYTES: nat := 4
  /** STEGOBMP_LSBI_CONTROL_PATTERN, written most significant bit first. */
  const LSBI_CONTROL_PATTERN: bv8 := 0xA

  /** The eight bits of `b`, most significant first. */
  function ByteBits(b: bv8): (r: seq<bv8>)
    ensures |r| == 8
    ensures forall i :: 0 <= i < 8 ==> r[i] <= 1
  {
    seq(8, i requires 0 <= i < 8 => Bit(b, 7 - i))
  }

  /** The payload as the bit stream the hides write: each byte most
      significant bit first, bytes in order. */
  function BitStream(payload: seq<bv8>): (r: seq<bv8>)
    ensures |r| == LSB1_BYTES_PER_PAYLOAD * |payload|
    ensures forall k :: 0 <= k < |r| ==> r[k] <= 1
  {
    if |payload| == 0 then []
    else
      var head, tail := ByteBits(payload[0]), BitStream(payload[1..]);
      assert forall k :: 0 <= k < |head| + |tail| ==> (head + tail)[k] == if k < 8 then head[k] else tail[k - 8];
      head + tail
  }

  /** Bit 8j + i of the stream is bit (7 - i) of payload byte j. */
  lemma {:induction false} BitStreamAt(payload: seq<bv8>, j: nat, i: nat)
    requires j < |payload| && i < 8
    ensures 8 * j + i < |BitStream(payload)|
    ensures BitStream(payload)[8 * j + i] == Bit(payload[j], 7 - i)
  {
    if j > 0 {
      BitStreamAt(payload[1..], j - 1, i);
      assert BitStream(payload)[8 * j + i] == BitStream(payload[1..])[8 * (j - 1) + i];
    }
  }

  /** The bit lsb1_hide writes while `bit_index` counts down through payload
      byte j, `payload[j] >> bit_index & 1`, is stream bit 8j + (7 - bit_index). */
  lemma Lsb1BitAt(payload: seq<bv8>, j: nat, bitIndex: nat)
    requires j < |payload| && bitIndex < 8
    ensures LSB1_BYTES_PER_PAYLOAD * j + (7 - bitIndex) < |BitStream(payload)|
    ensures BitStream(payload)[LSB1_BYTES_PER_PAYLOAD * j + (7 - bitIndex)] == ShiftRight(payload[j], bitIndex) & LSB1_BIT_MASK_1
  {
    BitStreamAt(payload, j, 7 - bitIndex);
    assert 7 - (7 - bitIndex) == bitIndex;
  }

  // ---------------------------------------------------------------------
  // The carrier after each hide

  /** The carrier with bit 0 of byte k replaced by `bits[k]` (`data[k] & 0xFE | bit`)
      for every k below |bits|; every later byte is as before. */
  function EmbedBits(data: seq<bv8>, bits: seq<bv8>): (r: seq<bv8>)
    requires |bits| <= |data|
    ensures |r| == |data|
  {
    seq(|data|, k requires 0 <= k < |data| => if k < |bits| then WithLsb(data[k], bits[k]) else data[k])
  }

  /** Embedding a bit sequence stores bit k in bit 0 of byte k, keeps bits
      1 to 7 of those bytes and leaves every later byte alone. */
  lemma EmbedBitsProps(data: seq<bv8>, bits: seq<bv8>)
    requires |bits| <= |data|
    requires forall k :: 0 <= k < |bits| ==> bits[k] <= 1
    ensures forall k :: 0 <= k < |bits| ==>
              Lsb(EmbedBits(data, bits)[k]) == bits[k] && EmbedBits(data, bits)[k] & LSB1_MASK == data[k] & LSB1_MASK
    ensures forall k :: |bits| <= k < |data| ==> EmbedBits(data, bits)[k] == data[k]
  {
    var r := EmbedBits(data, bits);
    forall k | 0 <= k < |bits|
      ensures Lsb(r[k]) == bits[k] && r[k] & LSB1_MASK == data[k] & LSB1_MASK
    {
      WithLsbBits(data[k], bits[k]);
    }
  }

  /** The carrier after lsb1_hide: the payload's bit stream embedded from
      byte 0. Lsb1EmbedBits states what this means. */
  function Lsb1Embed(data: seq<bv8>, payload: seq<bv8>): (r: seq<bv8>)
    requires LSB1_BYTES_PER_PAYLOAD * |payload| <= |data|
    ensures |r| == |data|
  {
    EmbedBits(data, BitStream(payload))
  }

  /** lsb1_hide stores payload bit k in bit 0 of byte k, keeps bits 1 to 7
      of those bytes and leaves every later byte alone. */
  lemma Lsb1EmbedBits(data: seq<bv8>, payload: seq<bv8>)
    requires LSB1_BYTES_PER_PAYLOAD * |payload| <= |data|
    ensures forall k :: 0 <= k < LSB1_BYTES_PER_PAYLOAD * |payload| ==>
              Lsb(Lsb1Embed(data, payload)[k]) == BitStream(payload)[k]
              && Lsb1Embed(data, payload)[k] & LSB1_MASK == data[k] & LSB1_MASK
    ensures forall k :: LSB1_BYTES_PER_PAYLOAD * |payload| <= k < |data| ==> Lsb1Embed(data, payload)[k] == data[k]
  {
    EmbedBitsProps(data, BitStream(payload));
  }

  /** The payload as the nibble stream lsb4_hide writes: each byte's high
      nibble, then its low nibble, bytes in order. */
  function NibbleStream(payload: seq<bv8>): (r: seq<bv8>)
    ensures |r| == LSB4_BYTES_PER_PAYLOAD * |payload|
    ensures forall k :: 0 <= k < |r| ==> r[k] <= LSB4_BIT_MASK_4
  {
    if |payload| == 0 then []
    else
      var head, tail := [HighNibble(payload[0]), LowNibble(payload[0])], NibbleStream(payload[1..]);
      assert forall k :: 0 <= k < |head| + |tail| ==> (head + tail)[k] == if k < 2 then head[k] else tail[k - 2];
      head + tail
  }

  /** Nibbles 2i and 2i + 1 of the stream are the two halves of payload byte i. */
  lemma {:induction false} NibbleStreamAt(payload: seq<bv8>, i: nat)
    requires i < |payload|
    ensures 2 * i + 1 < |NibbleStream(payload)|
    ensures NibbleStream(payload)[2 * i] == HighNibble(payload[i])
    ensures NibbleStream(payload)[2 * i + 1] == LowNibble(payload[i])
  {
    if i > 0 {
      NibbleStreamAt(payload[1..], i - 1);
      assert NibbleStream(payload)[2 * i] == NibbleStream(payload[1..])[2 * (i - 1)];
      assert NibbleStream(payload)[2 * i + 1] == NibbleStream(payload[1..])[2 * (i - 1) + 1];
    }
  }

  /** The nibble lsb4_hide writes for payload byte j: the high nibble
      `payload[j] >> 4 & 0x0F` into byte 2j, the low nibble `payload[j] & 0x0F`
      into byte 2j + 1. */
  lemma Lsb4NibblesAt(payload: seq<bv8>, j: nat)
    requires j < |payload|
    ensures LSB4_BYTES_PER_PAYLOAD * j + 1 < |NibbleStream(payload)|
    ensures NibbleStream(payload)[LSB4_BYTES_PER_PAYLOAD * j]
            == ShiftRight(payload[j], LSB4_NIBBLE_SIZE_BITS) & LSB4_BIT_MASK_4
    ensures NibbleStream(payload)[LSB4_BYTES_PER_PAYLOAD * j + 1] == payload[j] & LSB4_BIT_MASK_4
  {
    NibbleStreamAt(payload, j);
  }

  /** The carrier with the low nibble of byte k replaced by `nibbles[k]`
      (`data[k] & 0xF0 | nibble`) for every k below |nibbles|; every later
      byte is as before. */
  function EmbedNibbles(data: seq<bv8>, nibbles: seq<bv8>): (r: seq<bv8>)
    requires |nibbles| <= |data|
    ensures |r| == |data|
  {
    seq(|data|, k requires 0 <= k < |data| => if k < |nibbles| then WithLowNibble(data[k], nibbles[k]) else data[k])
  }

  /** The carrier after lsb4_hide: the payload's nibble stream embedded from
      byte 0. Lsb4EmbedNibbles and Lsb4EmbedKeeps state what this means. */
  function Lsb4Embed(data: seq<bv8>, payload: seq<bv8>): (r: seq<bv8>)
    requires LSB4_BYTES_PER_PAYLOAD * |payload| <= |data|
    ensures |r| == |data|
  {
    EmbedNibbles(data, NibbleStream(payload))
  }

  /** lsb4_hide stores the high nibble of payload byte i in the low nibble
      of byte 2i and its low nibble in the low nibble of byte 2i + 1. */
  lemma Lsb4EmbedNibbles(data: seq<bv8>, payload: seq<bv8>)
    requires LSB4_BYTES_PER_PAYLOAD * |payload| <= |data|
    ensures forall i :: 0 <= i < |payload| ==>
              LowNibble(Lsb4Embed(data, payload)[2 * i]) == HighNibble(payload[i])
              && LowNibble(Lsb4Embed(data, payload)[2 * i + 1]) == LowNibble(payload[i])
  {
    var r := Lsb4Embed(data, payload);
    var nibbles := NibbleStream(payload);
    forall i | 0 <= i < |payload|
      ensures LowNibble(r[2 * i]) == HighNibble(payload[i]) && LowNibble(r[2 * i + 1]) == LowNibble(payload[i])
    {
      NibbleStreamAt(payload, i);
      WithLowNibbleBits(data[2 * i], nibbles[2 * i]);
      WithLowNibbleBits(data[2 * i + 1], nibbles[2 * i + 1]);
    }
  }

  /** lsb4_hide keeps the high nibble of every byte and leaves every byte
      after the payload alone. */
  lemma Lsb4EmbedKeeps(data: seq<bv8>, payload: seq<bv8>)
    requires LSB4_BYTES_PER_PAYLOAD * |payload| <= |data|
    ensures forall k :: 0 <= k < |data| ==> Lsb4Embed(data, payload)[k] & LSB4_MASK == data[k] & LSB4_MASK
    ensures forall k :: LSB4_BYTES_PER_PAYLOAD * |payload| <= k < |data| ==> Lsb4Embed(data, payload)[k] == data[k]
  {
    var r := Lsb4Embed(data, payload);
    var nibbles := NibbleStream(payload);
    forall k | 0 <= k < LSB4_BYTES_PER_PAYLOAD * |payload|
      ensures r[k] & LSB4_MASK == data[k] & LSB4_MASK
    {
      WithLowNibbleBits(data[k], nibbles[k]);
    }
  }

  /** Control bit i (0 to 3) of lsbI_hide: bit (3 - i) of 0xA. */
  function ControlBit(i: nat): (r: bv8)
    requires i < LSBI_CONTROL_BYTES
    ensures r <= 1
  {
    Bit(LSBI_CONTROL_PATTERN, 3 - i)
  }

  /** The control bits are 1, 0, 1, 0. */
  lemma ControlBits()
    ensures ControlBit(0) == 1 && ControlBit(1) == 0 && ControlBit(2) == 1 && ControlBit(3) == 0
  {
  }

  /** The bits lsbI_hide writes into bit 0 of carrier bytes 0, 1, 2, ...:
      the four control bits, then payload bit k XOR bit 7 of carrier byte 4 + k. */
  function LsbIBits(data: seq<bv8>, payload: seq<bv8>): (r: seq<bv8>)
    requires LSBI_BYTES_PER_PAYLOAD * |payload| + LSBI_CONTROL_BYTES <= |data|
    ensures |r| == LSBI_CONTROL_BYTES + LSBI_BYTES_PER_PAYLOAD * |payload|
    ensures forall k :: 0 <= k < |r| ==> r[k] <= 1
  {
    var bits := BitStream(payload);
    seq(LSBI_CONTROL_BYTES + LSBI_BYTES_PER_PAYLOAD * |payload|, k requires 0 <= k < LSBI_CONTROL_BYTES + |bits| =>
      if k < LSBI_CONTROL_BYTES then ControlBit(k) else XorBit(bits[k - LSBI_CONTROL_BYTES], Msb(data[k])))
  }

  /** The XOR of two bits, itself a bit. */
  function XorBit(x: bv8, y: bv8): (r: bv8)
    requires x <= 1 && y <= 1
    ensures r <= 1
  {
    x ^ y
  }

  /** The carrier after lsbI_hide: its bit sequence embedded from byte 0.
      LsbIEmbedBits states what this means. */
  function LsbIEmbed(data: seq<bv8>, payload: seq<bv8>): (r: seq<bv8>)
    requires LSBI_BYTES_PER_PAYLOAD * |payload| + LSBI_CONTROL_BYTES <= |data|
    ensures |r| == |data|
  {
    EmbedBits(data, LsbIBits(data, payload))
  }

  /** The control bit lsbI_hide writes into byte 3 - i is `0xA >> i & 1`. */
  lemma ControlBitAt(i: nat)
    requires i < LSBI_CONTROL_BYTES
    ensures ControlBit(3 - i) == ShiftRight(LSBI_CONTROL_PATTERN, i) & LSBI_BIT_MASK_1
  {
  }

  /** The bit lsbI_hide writes while `bit_index` counts down through payload
      byte j: bit `bit_index` of that byte XOR bit 7 of carrier byte
      4 + 8j + (7 - bit_index). */
  lemma LsbIBitsAt(data: seq<bv8>, payload: seq<bv8>, j: nat, bitIndex: nat)
    requires LSBI_BYTES_PER_PAYLOAD * |payload| + LSBI_CONTROL_BYTES <= |data|
    requires j < |payload| && bitIndex < 8
    ensures LsbIBits(data, payload)[LSBI_CONTROL_BYTES + LSBI_BYTES_PER_PAYLOAD * j + (7 - bitIndex)]
            == (ShiftRight(payload[j], bitIndex) & LSBI_BIT_MASK_1)
               ^ Msb(data[LSBI_CONTROL_BYTES + LSBI_BYTES_PER_PAYLOAD * j + (7 - bitIndex)])
  {
    BitStreamAt(payload, j, 7 - bitIndex);
    assert 7 - (7 - bitIndex) == bitIndex;
  }

  /** lsbI_hide stores the control bits 1, 0, 1, 0 in bit 0 of bytes 0 to 3. */
  lemma LsbIEmbedControl(data: seq<bv8>, payload: seq<bv8>)
    requires LSBI_BYTES_PER_PAYLOAD * |payload| + LSBI_CONTROL_BYTES <= |data|
    ensures forall k :: 0 <= k < LSBI_CONTROL_BYTES ==> Lsb(LsbIEmbed(data, payload)[k]) == ControlBit(k)
  {
    EmbedBitsProps(data, LsbIBits(data, payload));
  }

  /** lsbI_hide stores payload bit k XOR the byte's own bit 7 in bit 0 of byte 4 + k. */
  lemma LsbIEmbedPayload(data: seq<bv8>, payload: seq<bv8>)
    requires LSBI_BYTES_PER_PAYLOAD * |payload| + LSBI_CONTROL_BYTES <= |data|
    ensures forall k :: LSBI_CONTROL_BYTES <= k < LSBI_CONTROL_BYTES + LSBI_BYTES_PER_PAYLOAD * |payload| ==>
              Lsb(LsbIEmbed(data, payload)[k]) == BitStream(payload)[k - LSBI_CONTROL_BYTES] ^ Msb(data[k])
  {
    EmbedBitsProps(data, LsbIBits(data, payload));
  }

  /** lsbI_hide keeps bits 1 to 7 of every byte and leaves every byte after
      the payload alone. */
  lemma LsbIEmbedKeeps(data: seq<bv8>, payload: seq<bv8>)
    requires LSBI_BYTES_PER_PAYLOAD * |payload| + LSBI_CONTROL_BYTES <= |data|
    ensures forall k :: 0 <= k < |data| ==> LsbIEmbed(data, payload)[k] & LSB1_MASK == data[k] & LSB1_MASK
    ensures forall k :: LSBI_CONTROL_BYTES + LSBI_BYTES_PER_PAYLOAD * |payload| <= k < |data| ==>
              LsbIEmbed(data, payload)[k] == data[k]
  {
    EmbedBitsProps(data, LsbIBits(data, payload));
  }

  /** The bytes a hide has settled so far: the first `n` bytes of `current`
      are those of `target` and the rest are still those of `original`. */
  predicate WrittenUpTo(original: seq<bv8>, current: seq<bv8>, target: seq<bv8>, n: nat) {
    && |current| == |original| == |target|
    && n <= |current|
    && (forall k :: 0 <= k < n ==> current[k] == target[k])
    && (forall k :: n <= k < |current| ==> current[k] == original[k])
  }

  /** Once every byte the target changes is written, the carrier is the target. */
  lemma WrittenAll(original: seq<bv8>, current: seq<bv8>, target: seq<bv8>, n: nat)
    requires WrittenUpTo(original, current, target, n)
    requires forall k :: n <= k < |target| ==> target[k] == original[k]
    ensures current == target
  {
  }

  // ---------------------------------------------------------------------
  // Reading LSB1 back

  /** The byte lsb1_retrieve's inner loop assembles from data[start, start+n):
      the bit 0 of data[start+i] lands in bit (7 - i), as `extracted |= lsb << bit_index`. */
  function AssembleLsbs(data: seq<bv8>, start: nat, n: nat): bv8
    requires n <= 8 && start + n <= |data|
  {
    if n == 0 then 0 else AssembleLsbs(data, start, n - 1) | ShiftLeft(Lsb(data[start + n - 1]), 8 - n)
  }

  /** Eight bits packed into a byte, the first one most significant. */
  function PackBits(b7: bv8, b6: bv8, b5: bv8, b4: bv8, b3: bv8, b2: bv8, b1: bv8, b0: bv8): bv8 {
    (b7 << 7) | (b6 << 6) | (b5 << 5) | (b4 << 4) | (b3 << 3) | (b2 << 2) | (b1 << 1) | b0
  }

  /** The payload byte lsb1_retrieve decodes from data[start, start+8):
      bit 0 of data[start+i] becomes bit (7 - i). */
  function DecodeLsb1Byte(data: seq<bv8>, start: nat): bv8
    requires start + LSB1_BYTES_PER_PAYLOAD <= |data|
  {
    PackBits(Lsb(data[start]), Lsb(data[start + 1]), Lsb(data[start + 2]), Lsb(data[start + 3]),
             Lsb(data[start + 4]), Lsb(data[start + 5]), Lsb(data[start + 6]), Lsb(data[start + 7]))
  }

  /** The source's inner loop, run to the end, assembles exactly that byte. */
  lemma AssembleLsbsComplete(data: seq<bv8>, start: nat)
    requires start + LSB1_BYTES_PER_PAYLOAD <= |data|
    ensures AssembleLsbs(data, start, 8) == DecodeLsb1Byte(data, start)
  {
    var d := data;
    assert AssembleLsbs(d, start, 1) == Lsb(d[start]) << 7;
    assert AssembleLsbs(d, start, 2) == (Lsb(d[start]) << 7) | (Lsb(d[start + 1]) << 6);
    assert AssembleLsbs(d, start, 3) == (Lsb(d[start]) << 7) | (Lsb(d[start + 1]) << 6) | (Lsb(d[start + 2]) << 5);
    assert AssembleLsbs(d, start, 4) == (Lsb(d[start]) << 7) | (Lsb(d[start + 1]) << 6) | (Lsb(d[start + 2]) << 5)
                                     | (Lsb(d[start + 3]) << 4);
    assert AssembleLsbs(d, start, 5) == (Lsb(d[start]) << 7) | (Lsb(d[start + 1]) << 6) | (Lsb(d[start + 2]) << 5)
                                     | (Lsb(d[start + 3]) << 4) | (Lsb(d[start + 4]) << 3);
    assert AssembleLsbs(d, start, 6) == (Lsb(d[start]) << 7) | (Lsb(d[start + 1]) << 6) | (Lsb(d[start + 2]) << 5)
                                     | (Lsb(d[start + 3]) << 4) | (Lsb(d[start + 4]) << 3) | (Lsb(d[start + 5]) << 2);
    assert AssembleLsbs(d, start, 7) == (Lsb(d[start]) << 7) | (Lsb(d[start + 1]) << 6) | (Lsb(d[start + 2]) << 5)
                                     | (Lsb(d[start + 3]) << 4) | (Lsb(d[start + 4]) << 3) | (Lsb(d[start + 5]) << 2)
                                     | (Lsb(d[start + 6]) << 1);
  }

  /** Eight bytes whose bits 0 spell out `b` most significant first decode to `b`. */
  lemma DecodeLsb1ByteOf(data: seq<bv8>, start: nat, b: bv8)
    requires start + LSB1_BYTES_PER_PAYLOAD <= |data|
    requires forall k :: start <= k < start + 8 ==> Lsb(data[k]) == Bit(b, 7 - (k - start))
    ensures DecodeLsb1Byte(data, start) == b
  {
    assert Lsb(data[start]) == Bit(b, 7) && Lsb(data[start + 1]) == Bit(b, 6);
    assert Lsb(data[start + 2]) == Bit(b, 5) && Lsb(data[start + 3]) == Bit(b, 4);
    assert Lsb(data[start + 4]) == Bit(b, 3) && Lsb(data[start + 5]) == Bit(b, 2);
    assert Lsb(data[start + 6]) == Bit(b, 1) && Lsb(data[start + 7]) == Bit(b, 0);
    ByteFromBits(b);
  }

  /** The first n bytes lsb1_retrieve decodes, byte j from data[8j, 8j+8). */
  function Lsb1Stream(data: seq<bv8>, n: nat): (r: seq<bv8>)
    requires LSB1_BYTES_PER_PAYLOAD * n <= |data|
    ensures |r| == n
  {
    seq(n, j requires 0 <= j < n => DecodeLsb1Byte(data, LSB1_BYTES_PER_PAYLOAD * j))
  }

  /** The length of `s` cut right after its first NUL at index `from` or
      later, or all of `s` when there is none. */
  function CutAfterNul(s: seq<bv8>, from: nat): (r: nat)
    ensures r <= |s|
    ensures (forall i :: from <= i < |s| ==> s[i] != NUL) ==> r == |s|
    ensures (exists i :: from <= i < |s| && s[i] == NUL) ==>
              from < r && s[r - 1] == NUL && forall i :: from <= i < r - 1 ==> s[i] != NUL
    decreases |s| - from
  {
    if from >= |s| then |s|
    else if s[from] == NUL then from + 1
    else CutAfterNul(s, from + 1)
  }

  /** Where the first NUL at or after `from` is, the cut is right after it. */
  lemma CutAfterNulAt(s: seq<bv8>, from: nat, i: nat)
    requires from <= i < |s| && s[i] == NUL
    requires forall j :: from <= j < i ==> s[j] != NUL
    ensures CutAfterNul(s, from) == i + 1
  {
  }

  /** lsb1_retrieve as a function of the carrier bytes: None when the
      carrier is shorter than 32 bytes, otherwise what the declared length
      decoded from its first 32 bytes leads to. */
  function Lsb1Extract(data: seq<bv8>): Option<seq<bv8>>
  {
    if |data| < INT_SIZE_BYTES * LSB1_BYTES_PER_PAYLOAD then None
    else Lsb1ExtractSized(data, ReadU32BE(Lsb1Stream(data, INT_SIZE_BYTES)))
  }

  /** The rest of lsb1_retrieve once the declared length is decoded: None
      when it is 0 or above |data|/8 - 4, or when (4 + length + 1) * 8
      exceeds the carrier; otherwise the decoded stream, stopped right
      after the first NUL at index 4 + length or later, or all |data|/8
      bytes when there is none. */
  function Lsb1ExtractSized(data: seq<bv8>, fileSize: u32): Option<seq<bv8>>
    requires |data| >= INT_SIZE_BYTES * LSB1_BYTES_PER_PAYLOAD
  {
    if fileSize == 0 || fileSize > |data| / LSB1_BYTES_PER_PAYLOAD - INT_SIZE_BYTES then None
    else if (INT_SIZE_BYTES + fileSize + NUL_SIZE) * LSB1_BYTES_PER_PAYLOAD > |data| then None
    else
      var stream := Lsb1Stream(data, |data| / LSB1_BYTES_PER_PAYLOAD);
      Some(stream[..CutAfterNul(stream, INT_SIZE_BYTES + fileSize)])
  }

  /** A declared length that passes both checks yields the decoded stream cut after its NUL. */
  lemma Lsb1ExtractSizedFound(data: seq<bv8>, fileSize: u32)
    requires |data| >= INT_SIZE_BYTES * LSB1_BYTES_PER_PAYLOAD
    requires 0 < fileSize <= |data| / LSB1_BYTES_PER_PAYLOAD - INT_SIZE_BYTES
    requires (INT_SIZE_BYTES + fileSize + NUL_SIZE) * LSB1_BYTES_PER_PAYLOAD <= |data|
    ensures var stream := Lsb1Stream(data, |data| / LSB1_BYTES_PER_PAYLOAD);
            Lsb1ExtractSized(data, fileSize) == Some(stream[..CutAfterNul(stream, INT_SIZE_BYTES + fileSize)])
  {
  }

  // ---------------------------------------------------------------------
  // Round trips

  /** Decoding the bytes lsb1_hide wrote gives back the payload. */
  lemma {:induction false} Lsb1StreamOfEmbed(data: seq<bv8>, payload: seq<bv8>)
    requires LSB1_BYTES_PER_PAYLOAD * |payload| <= |data|
    ensures Lsb1Stream(Lsb1Embed(data, payload), |payload|) == payload
  {
    var r := Lsb1Embed(data, payload);
    Lsb1EmbedBits(data, payload);
    forall j | 0 <= j < |payload|
      ensures DecodeLsb1Byte(r, 8 * j) == payload[j]
    {
      forall k | 8 * j <= k < 8 * j + 8
        ensures Lsb(r[k]) == Bit(payload[j], 7 - (k - 8 * j))
      {
        BitStreamAt(payload, j, k - 8 * j);
      }
      DecodeLsb1ByteOf(r, 8 * j, payload[j]);
    }
  }

  /** A longer decoded stream starts with the shorter one. */
  lemma Lsb1StreamPrefix(data: seq<bv8>, m: nat, n: nat)
    requires m <= n && LSB1_BYTES_PER_PAYLOAD * n <= |data|
    ensures Lsb1Stream(data, n)[..m] == Lsb1Stream(data, m)
  {
  }

  /** The length field of a frame reads back as the file length. */
  lemma FrameHeader(header: seq<bv8>, file: seq<bv8>, ext: seq<bv8>)
    requires |file| <= U32_MAX
    requires header == Frame(file, ext)[..INT_SIZE_BYTES]
    ensures |header| == INT_SIZE_BYTES && ReadU32BE(header) == |file|
  {
    assert header[..INT_SIZE_BYTES] == header;
  }

  /** In any stream that starts with the frame of a file and a NUL-free
      extension, the first NUL after the file contents ends the frame. */
  lemma FrameCut(stream: seq<bv8>, file: seq<bv8>, ext: seq<bv8>)
    requires |file| <= U32_MAX && NulFree(ext)
    requires |Frame(file, ext)| <= |stream| && stream[..|Frame(file, ext)|] == Frame(file, ext)
    ensures CutAfterNul(stream, INT_SIZE_BYTES + |file|) == |Frame(file, ext)|
  {
    var frame := Frame(file, ext);
    var end := INT_SIZE_BYTES + |file| + |ext|;
    forall j | INT_SIZE_BYTES + |file| <= j < end
      ensures stream[j] != NUL
    {
      assert stream[j] == frame[j] == ext[j - INT_SIZE_BYTES - |file|];
    }
    assert stream[end] == frame[end] == NUL;
    CutAfterNulAt(stream, INT_SIZE_BYTES + |file|, end);
  }

  /** LSB1 round trip: retrieving from a carrier that lsb1_hide filled with
      the frame of a non-empty file and a NUL-free extension gives back
      exactly that frame. */
  lemma Lsb1RoundTrip(data: seq<bv8>, file: seq<bv8>, ext: seq<bv8>)
    requires 0 < |file| <= U32_MAX && NulFree(ext)
    requires LSB1_BYTES_PER_PAYLOAD * |Frame(file, ext)| <= |data|
    ensures Lsb1Extract(Lsb1Embed(data, Frame(file, ext))) == Some(Frame(file, ext))
  {
    var frame := Frame(file, ext);
    var r := Lsb1Embed(data, frame);
    var stream := Lsb1Stream(r, |r| / LSB1_BYTES_PER_PAYLOAD);
    Lsb1StreamOfEmbed(data, frame);
    Lsb1StreamPrefix(r, |frame|, |r| / LSB1_BYTES_PER_PAYLOAD);
    Lsb1StreamPrefix(r, INT_SIZE_BYTES, |frame|);
    FrameHeader(Lsb1Stream(r, INT_SIZE_BYTES), file, ext);
    FrameCut(stream, file, ext);
  }

  /** LSB4 recovery: the low nibbles of carrier bytes 2i and 2i+1 after
      lsb4_hide, high one first, give back payload byte i. */
  lemma Lsb4Recovery(data: seq<bv8>, payload: seq<bv8>, i: nat)
    requires LSB4_BYTES_PER_PAYLOAD * |payload| <= |data| && i < |payload|
    ensures (LowNibble(Lsb4Embed(data, payload)[2 * i]) << 4) | LowNibble(Lsb4Embed(data, payload)[2 * i + 1]) == payload[i]
  {
    Lsb4EmbedNibbles(data, payload);
    ByteFromNibbles(payload[i]);
  }

  /** The bit lsbI_hide leaves readable in a carrier byte: bit 0 XOR bit 7. */
  function LsbIBit(b: bv8): (r: bv8)
    ensures r <= 1
  {
    Lsb(b) ^ Msb(b)
  }

  /** Payload byte j read back from an lsbI_hide carrier: the bits
      bit0 XOR bit7 of bytes 4+8j to 4+8j+7, most significant first. */
  function LsbIDecodeByte(data: seq<bv8>, j: nat): bv8
    requires LSBI_CONTROL_BYTES + LSBI_BYTES_PER_PAYLOAD * (j + 1) <= |data|
  {
    var k := LSBI_CONTROL_BYTES + LSBI_BYTES_PER_PAYLOAD * j;
    (LsbIBit(data[k]) << 7) | (LsbIBit(data[k + 1]) << 6) | (LsbIBit(data[k + 2]) << 5) | (LsbIBit(data[k + 3]) << 4)
    | (LsbIBit(data[k + 4]) << 3) | (LsbIBit(data[k + 5]) << 2) | (LsbIBit(data[k + 6]) << 1) | LsbIBit(data[k + 7])
  }

  /** The control nibble of an lsbI_hide carrier reads 0xA. */
  lemma LsbIControlNibble(data: seq<bv8>, payload: seq<bv8>)
    requires LSBI_BYTES_PER_PAYLOAD * |payload| + LSBI_CONTROL_BYTES <= |data|
    ensures var r := LsbIEmbed(data, payload);
            (Lsb(r[0]) << 3) | (Lsb(r[1]) << 2) | (Lsb(r[2]) << 1) | Lsb(r[3]) == LSBI_CONTROL_PATTERN
  {
    LsbIEmbedControl(data, payload);
    ControlBits();
  }

  /** Bit 7 is never changed, so bit0 XOR bit7 of carrier byte 4 + k after
      lsbI_hide is payload bit k. */
  lemma LsbIBitAt(data: seq<bv8>, payload: seq<bv8>, k: nat)
    requires LSBI_BYTES_PER_PAYLOAD * |payload| + LSBI_CONTROL_BYTES <= |data|
    requires LSBI_CONTROL_BYTES <= k < LSBI_CONTROL_BYTES + LSBI_BYTES_PER_PAYLOAD * |payload|
    ensures LsbIBit(LsbIEmbed(data, payload)[k]) == BitStream(payload)[k - LSBI_CONTROL_BYTES]
  {
    var r := LsbIEmbed(data, payload);
    LsbIEmbedPayload(data, payload);
    LsbIEmbedKeeps(data, payload);
    assert Msb(r[k]) == Msb(data[k]) by {
      MaskKeepsMsb(r[k], data[k]);
    }
    XorCancels(BitStream(payload)[k - LSBI_CONTROL_BYTES], Msb(data[k]));
  }

  /** Two bytes that agree on bits 1 to 7 have the same bit 7. */
  lemma MaskKeepsMsb(x: bv8, y: bv8)
    requires x & LSB1_MASK == y & LSB1_MASK
    ensures Msb(x) == Msb(y)
  {
  }

  /** Payload byte j is read back from an lsbI_hide carrier by LsbIDecodeByte. */
  lemma LsbIRecoverByte(data: seq<bv8>, payload: seq<bv8>, j: nat)
    requires LSBI_BYTES_PER_PAYLOAD * |payload| + LSBI_CONTROL_BYTES <= |data| && j < |payload|
    ensures LsbIDecodeByte(LsbIEmbed(data, payload), j) == payload[j]
  {
    var r := LsbIEmbed(data, payload);
    var k := LSBI_CONTROL_BYTES + LSBI_BYTES_PER_PAYLOAD * j;
    forall m | k <= m < k + 8
      ensures LsbIBit(r[m]) == Bit(payload[j], 7 - (m - k))
    {
      LsbIBitAt(data, payload, m);
      BitStreamAt(payload, j, m - k);
    }
    ByteFromBits(payload[j]);
  }

  /** LSBI recovery: the control nibble reads 0xA and every payload byte is
      read back by LsbIDecodeByte. */
  lemma LsbIRecovery(data: seq<bv8>, payload: seq<bv8>)
    requires LSBI_BYTES_PER_PAYLOAD * |payload| + LSBI_CONTROL_BYTES <= |data|
    ensures var r := LsbIEmbed(data, payload);
            (Lsb(r[0]) << 3) | (Lsb(r[1]) << 2) | (Lsb(r[2]) << 1) | Lsb(r[3]) == LSBI_CONTROL_PATTERN
    ensures forall j :: 0 <= j < |payload| ==> LsbIDecodeByte(LsbIEmbed(data, payload), j) == payload[j]
  {
    LsbIControlNibble(data, payload);
    forall j | 0 <= j < |payload|
      ensures LsbIDecodeByte(LsbIEmbed(data, payload), j) == payload[j]
    {
      LsbIRecoverByte(data, payload, j);
    }
  }

  /** (x ^ m) ^ m == x. */
  lemma XorCancels(x: bv8, m: bv8)
    ensures (x ^ m) ^ m == x
  {
  }
}
