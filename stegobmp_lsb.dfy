/** The carrier codecs of src/stegobmp/stegobmp_lsb.c. The carrier is the
    pixel buffer `bmp->data`, an array whose length is `bmp->data_size`;
    each hide rewrites it in place through a `bmp_byte_index` cursor and is
    proved to leave exactly the carrier its specification in LsbSpec
    describes. */
module StegoLsb {
  import opened Bits
  import opened StegoUtils
  import opened LsbSpec
  import opened CarrierWrite

  /** lsb1_hide: 1 with the carrier untouched when 8 carrier bytes per payload
      byte do not fit, otherwise 0 with the payload bits written into bit 0. */
  method Lsb1Hide(data: array<bv8>, payload: seq<bv8>) returns (status: int)
    modifies data
    ensures status == 0 || status == 1
    ensures status == 1 <==> LSB1_BYTES_PER_PAYLOAD * |payload| > data.Length
    ensures status == 1 ==> data[..] == old(data[..])
    ensures status == 0 ==> data[..] == Lsb1Embed(old(data[..]), payload)
  {
    var maxAmountBytes := data.Length;
    var requiredAmountBytes := |payload| * LSB1_BYTES_PER_PAYLOAD;
    if requiredAmountBytes > maxAmountBytes {
      return 1;
    }
    ghost var original := data[..];
    ghost var bits := BitStream(payload);
    var bmpByteIndex := 0;
    var payloadIndex := 0;
    while payloadIndex < |payload|
      invariant 0 <= payloadIndex <= |payload|
      invariant bmpByteIndex == LSB1_BYTES_PER_PAYLOAD * payloadIndex
      invariant WrittenUpTo(original, data[..], EmbedBits(original, bits), bmpByteIndex)
    {
      var bitIndex: int := LSB1_MOST_SIGNIFICANT_BIT;
      while bitIndex >= 0
        invariant -1 <= bitIndex <= 7
        invariant bmpByteIndex == LSB1_BYTES_PER_PAYLOAD * payloadIndex + (7 - bitIndex)
        invariant WrittenUpTo(original, data[..], EmbedBits(original, bits), bmpByteIndex)
      {
        var bit := ShiftRight(payload[payloadIndex], bitIndex) & LSB1_BIT_MASK_1;
        Lsb1BitAt(payload, payloadIndex, bitIndex);
        WriteLsb(data, bmpByteIndex, bit, original, bits);
        bmpByteIndex := bmpByteIndex + 1;
        bitIndex := bitIndex - 1;
      }
      payloadIndex := payloadIndex + 1;
    }
    WrittenAll(original, data[..], EmbedBits(original, bits), bmpByteIndex);
    return 0;
  }

  /** lsb4_hide: 1 with the carrier untouched when 2 carrier bytes per payload
      byte do not fit, otherwise 0 with each payload nibble written into the
      low nibble of one carrier byte, high nibble first. */
  method Lsb4Hide(data: array<bv8>, payload: seq<bv8>) returns (status: int)
    modifies data
    ensures status == 0 || status == 1
    ensures status == 1 <==> LSB4_BYTES_PER_PAYLOAD * |payload| > data.Length
    ensures status == 1 ==> data[..] == old(data[..])
    ensures status == 0 ==> data[..] == Lsb4Embed(old(data[..]), payload)
  {
    var maxAmountBytes := data.Length;
    var requiredAmountBytes := |payload| * LSB4_BYTES_PER_PAYLOAD;
    if requiredAmountBytes > maxAmountBytes {
      return 1;
    }
    ghost var original := data[..];
    ghost var nibbles := NibbleStream(payload);
    var bmpByteIndex := 0;
    var payloadIndex := 0;
    while payloadIndex < |payload|
      invariant 0 <= payloadIndex <= |payload|
      invariant bmpByteIndex == LSB4_BYTES_PER_PAYLOAD * payloadIndex
      invariant WrittenUpTo(original, data[..], EmbedNibbles(original, nibbles), bmpByteIndex)
    {
      var payloadHighNibble := ShiftRight(payload[payloadIndex], LSB4_NIBBLE_SIZE_BITS) & LSB4_BIT_MASK_4;
      var payloadLowNibble := payload[payloadIndex] & LSB4_BIT_MASK_4;
      Lsb4NibblesAt(payload, payloadIndex);

      WriteLowNibble(data, bmpByteIndex, payloadHighNibble, original, nibbles);
      bmpByteIndex := bmpByteIndex + 1;

      WriteLowNibble(data, bmpByteIndex, payloadLowNibble, original, nibbles);
      bmpByteIndex := bmpByteIndex + 1;

      payloadIndex := payloadIndex + 1;
    }
    WrittenAll(original, data[..], EmbedNibbles(original, nibbles), bmpByteIndex);
    return 0;
  }

  /** lsbI_hide: 1 with the carrier untouched when the 4 control bytes and 8
      carrier bytes per payload byte do not fit; otherwise 0, with the control
      bits 1, 0, 1, 0 in bit 0 of bytes 0 to 3, then each payload bit XOR the
      carrier byte's bit 7 in bit 0 of the following bytes. */
  method LsbIHide(data: array<bv8>, payload: seq<bv8>) returns (status: int)
    modifies data
    ensures status == 0 || status == 1
    ensures status == 1 <==> LSBI_BYTES_PER_PAYLOAD * |payload| + LSBI_CONTROL_BYTES > data.Length
    ensures status == 1 ==> data[..] == old(data[..])
    ensures status == 0 ==> data[..] == LsbIEmbed(old(data[..]), payload)
  {
    var maxAmountBytes := data.Length;
    var requiredAmountBytes := |payload| * LSBI_BYTES_PER_PAYLOAD + LSBI_CONTROL_BYTES;
    if requiredAmountBytes > maxAmountBytes {
      return 1;
    }
    ghost var original := data[..];
    WriteLsbIControl(data, original, payload);

    var payloadIndex := 0;
    while payloadIndex < |payload|
      invariant 0 <= payloadIndex <= |payload|
      invariant WrittenUpTo(original, data[..], LsbIEmbed(original, payload), LSBI_CONTROL_BYTES + LSBI_BYTES_PER_PAYLOAD * payloadIndex)
    {
      WriteLsbIByte(data, payloadIndex, payload[payloadIndex], original, payload);
      payloadIndex := payloadIndex + 1;
    }
    WrittenAll(original, data[..], LsbIEmbed(original, payload), LSBI_CONTROL_BYTES + LSBI_BYTES_PER_PAYLOAD * |payload|);
    return 0;
  }

  /** The inner loop of lsb1_retrieve, run at carrier byte `start`: ORs the
      bit 0 of the next eight carrier bytes into one byte, most significant
      first, and returns it with the advanced cursor. The carrier is only
      read (`const BMP *`), so it is a value here. */
  method ExtractByte(data: seq<bv8>, start: nat) returns (extractedByte: bv8, next: nat)
    requires start + LSB1_BYTES_PER_PAYLOAD <= |data|
    ensures next == start + LSB1_BYTES_PER_PAYLOAD
    ensures extractedByte == DecodeLsb1Byte(data, start)
  {
    extractedByte := 0;
    var bmpByteIndex := start;
    var bitIndex: int := LSB1_MOST_SIGNIFICANT_BIT;
    while bitIndex >= 0
      invariant -1 <= bitIndex <= 7
      invariant bmpByteIndex == start + (7 - bitIndex)
      invariant extractedByte == AssembleLsbs(data, start, 7 - bitIndex)
    {
      var lsb := data[bmpByteIndex] & LSB1_BIT_MASK_1;
      extractedByte := extractedByte | ShiftLeft(lsb, bitIndex);
      bmpByteIndex := bmpByteIndex + 1;
      bitIndex := bitIndex - 1;
    }
    AssembleLsbsComplete(data, start);
    next := bmpByteIndex;
  }

  /** The store `payload_buffer[i] = extracted_byte` of lsb1_retrieve's
      outer loop, which extends the decoded prefix by one byte. */
  method StoreDecoded(buffer: array<bv8>, i: nat, b: bv8, ghost stream: seq<bv8>)
    requires i < buffer.Length && i < |stream| && b == stream[i]
    requires buffer[..i] == stream[..i]
    modifies buffer
    ensures buffer[i] == b
    ensures buffer[..i + 1] == stream[..i + 1]
    ensures buffer[i + 1..] == old(buffer[i + 1..])
  {
    buffer[i] := b;
    assert buffer[..i + 1] == buffer[..i] + [b];
  }

  /** lsb1_retrieve: the payload it returns (with its length) or NULL, as
      Lsb1Extract describes. */
  method Lsb1Retrieve(data: seq<bv8>) returns (r: Option<seq<bv8>>)
    ensures r == Lsb1Extract(data)
  {
    var bmpDataSize := |data|;
    var bmpByteIndex := 0;
    var sizeBuffer := new bv8[INT_SIZE_BYTES];

    if bmpDataSize < INT_SIZE_BYTES * LSB1_BYTES_PER_PAYLOAD {
      return None;
    }

    var i := 0;
    while i < INT_SIZE_BYTES
      invariant 0 <= i <= INT_SIZE_BYTES
      invariant bmpByteIndex == LSB1_BYTES_PER_PAYLOAD * i
      invariant forall j :: 0 <= j < i ==> sizeBuffer[j] == DecodeLsb1Byte(data, LSB1_BYTES_PER_PAYLOAD * j)
    {
      var extractedByte;
      extractedByte, bmpByteIndex := ExtractByte(data, bmpByteIndex);
      sizeBuffer[i] := extractedByte;
      i := i + 1;
    }
    assert sizeBuffer[..] == Lsb1Stream(data, INT_SIZE_BYTES);

    var fileSize := ReadU32BE(sizeBuffer[..]);
    assert Lsb1Extract(data) == Lsb1ExtractSized(data, fileSize);
    if fileSize == 0 || fileSize > bmpDataSize / LSB1_BYTES_PER_PAYLOAD - INT_SIZE_BYTES {
      assert Lsb1ExtractSized(data, fileSize) == None;
      return None;
    }

    var minPayloadSize := INT_SIZE_BYTES + fileSize + NUL_SIZE;
    var requiredBmpBytes := minPayloadSize * LSB1_BYTES_PER_PAYLOAD;
    if requiredBmpBytes > bmpDataSize {
      assert Lsb1ExtractSized(data, fileSize) == None;
      return None;
    }

    var maxPayloadBytes := bmpDataSize / LSB1_BYTES_PER_PAYLOAD;
    var payloadBuffer := new bv8[maxPayloadBytes];
    forall j | 0 <= j < INT_SIZE_BYTES {
      payloadBuffer[j] := sizeBuffer[j];
    }
    Lsb1StreamPrefix(data, INT_SIZE_BYTES, maxPayloadBytes);

    var payloadByteIndex := ExtractUntilNul(data, fileSize, payloadBuffer);
    Lsb1ExtractSizedFound(data, fileSize);
    return Some(payloadBuffer[..payloadByteIndex]);
  }

  /** The outer loop of lsb1_retrieve after the length prefix: decodes one
      payload byte per eight carrier bytes into payload_buffer from index 4
      on, and stops right after the first NUL at index 4 + fileSize or
      later, or when the carrier runs out. Returns the payload length. */
  method ExtractUntilNul(data: seq<bv8>, fileSize: nat, payloadBuffer: array<bv8>)
      returns (payloadByteIndex: nat)
    requires payloadBuffer.Length == |data| / LSB1_BYTES_PER_PAYLOAD >= INT_SIZE_BYTES
    requires payloadBuffer[..INT_SIZE_BYTES] == Lsb1Stream(data, payloadBuffer.Length)[..INT_SIZE_BYTES]
    modifies payloadBuffer
    ensures payloadByteIndex == CutAfterNul(Lsb1Stream(data, payloadBuffer.Length), INT_SIZE_BYTES + fileSize)
    ensures payloadBuffer[..payloadByteIndex] == Lsb1Stream(data, payloadBuffer.Length)[..payloadByteIndex]
    ensures forall k :: payloadByteIndex <= k < payloadBuffer.Length ==> payloadBuffer[k] == old(payloadBuffer[k])
  {
    var bmpDataSize := |data|;
    var maxPayloadBytes := payloadBuffer.Length;
    ghost var stream := Lsb1Stream(data, maxPayloadBytes);
    var bmpByteIndex := INT_SIZE_BYTES * LSB1_BYTES_PER_PAYLOAD;
    payloadByteIndex := INT_SIZE_BYTES;
    while bmpByteIndex < bmpDataSize && payloadByteIndex < maxPayloadBytes
      invariant INT_SIZE_BYTES <= payloadByteIndex <= maxPayloadBytes
      invariant bmpByteIndex == LSB1_BYTES_PER_PAYLOAD * payloadByteIndex
      invariant payloadBuffer[..payloadByteIndex] == stream[..payloadByteIndex]
      invariant forall j :: INT_SIZE_BYTES + fileSize <= j < payloadByteIndex ==> stream[j] != NUL
      invariant forall k :: payloadByteIndex <= k < maxPayloadBytes ==> payloadBuffer[k] == old(payloadBuffer[k])
    {
      var extractedByte;
      extractedByte, bmpByteIndex := ExtractByte(data, bmpByteIndex);
      assert extractedByte == stream[payloadByteIndex];
      StoreDecoded(payloadBuffer, payloadByteIndex, extractedByte, stream);

      if payloadByteIndex >= INT_SIZE_BYTES + fileSize && payloadBuffer[payloadByteIndex] == NUL {
        CutAfterNulAt(stream, INT_SIZE_BYTES + fileSize, payloadByteIndex);
        payloadByteIndex := payloadByteIndex + 1;
        break;
      }

      payloadByteIndex := payloadByteIndex + 1;
    }
    // Without a break the carrier ran out (index maxPayloadBytes): there is
    // no NUL after the declared length, and CutAfterNul is the whole stream.
  }
}
