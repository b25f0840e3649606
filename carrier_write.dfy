/** The statements every hide repeats for each carrier byte it touches,
    `bmp->data[i] = bmp->data[i] & MASK | value`, with what they do to the
    carrier: the byte at the cursor becomes the byte the specification
    prescribes, so the settled prefix grows by one. The two loops of
    lsbI_hide, shared by its three copies, are here as well. */
module CarrierWrite {
  import opened Bits
  import opened LsbSpec

  /** `data[k] = data[k] & 0xFE | bit`, writing bit k of an LSB embedding. */
  method WriteLsb(data: array<bv8>, k: nat, bit: bv8, ghost original: seq<bv8>, ghost bits: seq<bv8>)
    requires |bits| <= |original| == data.Length && k < |bits| && bit == bits[k]
    requires WrittenUpTo(original, data[..], EmbedBits(original, bits), k)
    modifies data
    ensures WrittenUpTo(original, data[..], EmbedBits(original, bits), k + 1)
  {
    data[k] := (data[k] & LSB1_MASK) | bit;
  }

  /** `data[k] = data[k] & 0xF0 | nibble`, writing nibble k of an LSB4 embedding. */
  method WriteLowNibble(data: array<bv8>, k: nat, nibble: bv8, ghost original: seq<bv8>, ghost nibbles: seq<bv8>)
    requires |nibbles| <= |original| == data.Length && k < |nibbles| && nibble == nibbles[k]
    requires WrittenUpTo(original, data[..], EmbedNibbles(original, nibbles), k)
    modifies data
    ensures WrittenUpTo(original, data[..], EmbedNibbles(original, nibbles), k + 1)
  {
    data[k] := (data[k] & LSB4_MASK) | nibble;
  }

  /** The control loop of lsbI_hide: `i` counts down from 3 and bit 0 of
      carrier byte 3 - i becomes `0xA >> i & 1`. */
  method WriteLsbIControl(data: array<bv8>, ghost original: seq<bv8>, ghost payload: seq<bv8>)
    requires |original| == data.Length && LSBI_BYTES_PER_PAYLOAD * |payload| + LSBI_CONTROL_BYTES <= |original|
    requires WrittenUpTo(original, data[..], LsbIEmbed(original, payload), 0)
    modifies data
    ensures WrittenUpTo(original, data[..], LsbIEmbed(original, payload), LSBI_CONTROL_BYTES)
  {
    ghost var bits := LsbIBits(original, payload);
    var bmpByteIndex := 0;
    var i: int := 3;
    while i >= 0
      invariant -1 <= i <= 3
      invariant bmpByteIndex == 3 - i
      invariant WrittenUpTo(original, data[..], EmbedBits(original, bits), bmpByteIndex)
    {
      var controlBit := ShiftRight(LSBI_CONTROL_PATTERN, i) & LSB1_BIT_MASK_1;
      ControlBitAt(i);
      WriteLsb(data, bmpByteIndex, controlBit, original, bits);
      bmpByteIndex := bmpByteIndex + 1;
      i := i - 1;
    }
  }

  /** The inner loop of lsbI_hide for payload byte j: `bit_index` counts
      down from 7 and bit 0 of the carrier byte at the cursor becomes bit
      `bit_index` of the payload byte XOR bit 7 of that carrier byte. */
  method WriteLsbIByte(data: array<bv8>, j: nat, payloadByte: bv8, ghost original: seq<bv8>, ghost payload: seq<bv8>)
    requires |original| == data.Length && LSBI_BYTES_PER_PAYLOAD * |payload| + LSBI_CONTROL_BYTES <= |original|
    requires j < |payload| && payloadByte == payload[j]
    requires WrittenUpTo(original, data[..], LsbIEmbed(original, payload), LSBI_CONTROL_BYTES + LSBI_BYTES_PER_PAYLOAD * j)
    modifies data
    ensures WrittenUpTo(original, data[..], LsbIEmbed(original, payload), LSBI_CONTROL_BYTES + LSBI_BYTES_PER_PAYLOAD * (j + 1))
  {
    ghost var bits := LsbIBits(original, payload);
    var bmpByteIndex := LSBI_CONTROL_BYTES + LSBI_BYTES_PER_PAYLOAD * j;
    var bitIndex: int := LSBI_MOST_SIGNIFICANT_BIT;
    while bitIndex >= 0
      invariant -1 <= bitIndex <= 7
      invariant bmpByteIndex == LSBI_CONTROL_BYTES + LSBI_BYTES_PER_PAYLOAD * j + (7 - bitIndex)
      invariant WrittenUpTo(original, data[..], EmbedBits(original, bits), bmpByteIndex)
    {
      var bit := ShiftRight(payloadByte, bitIndex) & LSBI_BIT_MASK_1;
      var bmpMsb := Msb(data[bmpByteIndex]);
      var bitToHide := bit ^ bmpMsb;
      LsbIBitsAt(original, payload, j, bitIndex);
      WriteLsb(data, bmpByteIndex, bitToHide, original, bits);
      bmpByteIndex := bmpByteIndex + 1;
      bitIndex := bitIndex - 1;
    }
  }
}
