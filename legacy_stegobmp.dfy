/** src/stegobmp.c, the older single-file version of the embedder: its own
    static copies of lsb1_hide, lsb4_hide and lsbI_hide (the LSB1 copy spells
    its most significant bit as the literal 7), and a hide_file_in_bmp with
    the same if-chain as src/stegobmp/stegobmp.c. Its static
    build_payload_buffer and write_uint32_big_endian are statement for
    statement those of src/stegobmp/stegobmp_utils.c, so StegoUtils models
    both. */
module LegacyStego {
  import opened Bits
  import opened StegoUtils
  import opened LsbSpec
  import opened CarrierWrite
  import opened Stego

  /** hide_file_in_bmp of the older version: the outcome HideFile describes,
      reached through this file's own hide copies. */
  method HideFileInBmp(inputFileName: seq<bv8>, inputFile: Option<seq<bv8>>, data: array<bv8>,
                       outputBmpFileName: string, steganographyMethod: string,
                       encryptionMethod: string, encryptionMode: string, password: string)
      returns (status: int)
    requires NulFree(inputFileName)
    modifies data
    ensures status == HideFile(inputFileName, inputFile, steganographyMethod, old(data[..])).status
    ensures data[..] == HideFile(inputFileName, inputFile, steganographyMethod, old(data[..])).carrier
  {
    var payload := BuildPayloadBuffer(inputFileName, inputFile);
    if payload.None? {
      return 1;
    }
    var payloadBuffer := payload.value.buffer;

    if steganographyMethod == LSB1_METHOD {
      var failed := Lsb1Hide(data, payloadBuffer);
      if failed != 0 {
        return 1;
      }
    } else if steganographyMethod == LSB4_METHOD {
      var failed := Lsb4Hide(data, payloadBuffer);
      if failed != 0 {
        return 1;
      }
    } else if steganographyMethod == LSBI_METHOD {
      var failed := LsbIHide(data, payloadBuffer);
      if failed != 0 {
        return 1;
      }
    }
    return 0;
  }

  /** lsb1_hide: 1 with the carrier untouched when 8 carrier bytes per payload
      byte do not fit, otherwise 0 with the payload bits written into bit 0. */
  method Lsb1Hide(data: array<bv8>, payload: seq<bv8>) returns (status: int)
    modifies data
    ensures status == 0 || status == 1
    ensures status == 1 <==> LSB1_BYTES_PER_PAYLOAD * |payload| > data.Length
    ensures status == 1 ==> data[..] == old(data[..])
    ensures status == 0 ==> data[..] == Lsb1Embed(old(data[..]), payload)
  {
    var maxAmountBytes := data.Length;
    var requiredAmountBytes := |payload| * LSB1_BYTES_PER_PAYLOAD;
    if requiredAmountBytes > maxAmountBytes {
      return 1;
    }
    ghost var original := data[..];
    ghost var bits := BitStream(payload);
    var bmpByteIndex := 0;
    var payloadIndex := 0;
    while payloadIndex < |payload|
      invariant 0 <= payloadIndex <= |payload|
      invariant bmpByteIndex == LSB1_BYTES_PER_PAYLOAD * payloadIndex
      invariant WrittenUpTo(original, data[..], EmbedBits(original, bits), bmpByteIndex)
    {
      var bitIndex: int := 7;
      while bitIndex >= 0
        invariant -1 <= bitIndex <= 7
        invariant bmpByteIndex == LSB1_BYTES_PER_PAYLOAD * payloadIndex + (7 - bitIndex)
        invariant WrittenUpTo(original, data[..], EmbedBits(original, bits), bmpByteIndex)
      {
        var bit := ShiftRight(payload[payloadIndex], bitIndex) & LSB1_BIT_MASK_1;
        Lsb1BitAt(payload, payloadIndex, bitIndex);
        WriteLsb(data, bmpByteIndex, bit, original, bits);
        bmpByteIndex := bmpByteIndex + 1;
        bitIndex := bitIndex - 1;
      }
      payloadIndex := payloadIndex + 1;
    }
    WrittenAll(original, data[..], EmbedBits(original, bits), bmpByteIndex);
    return 0;
  }

  /** lsb4_hide: 1 with the carrier untouched when 2 carrier bytes per payload
      byte do not fit, otherwise 0 with each payload nibble written into the
      low nibble of one carrier byte, high nibble first. */
  method Lsb4Hide(data: array<bv8>, payload: seq<bv8>) returns (status: int)
    modifies data
    ensures status == 0 || status == 1
    ensures status == 1 <==> LSB4_BYTES_PER_PAYLOAD * |payload| > data.Length
    ensures status == 1 ==> data[..] == old(data[..])
    ensures status == 0 ==> data[..] == Lsb4Embed(old(data[..]), payload)
  {
    var maxAmountBytes := data.Length;
    var requiredAmountBytes := |payload| * LSB4_BYTES_PER_PAYLOAD;
    if requiredAmountBytes > maxAmountBytes {
      return 1;
    }
    ghost var original := data[..];
    ghost var nibbles := NibbleStream(payload);
    var bmpByteIndex := 0;
    var payloadIndex := 0;
    while payloadIndex < |payload|
      invariant 0 <= payloadIndex <= |payload|
      invariant bmpByteIndex == LSB4_BYTES_PER_PAYLOAD * payloadIndex
      invariant WrittenUpTo(original, data[..], EmbedNibbles(original, nibbles), bmpByteIndex)
    {
      var payloadHighNibble := ShiftRight(payload[payloadIndex], LSB4_NIBBLE_SIZE_BITS) & LSB4_BIT_MASK_4;
      var payloadLowNibble := payload[payloadIndex] & LSB4_BIT_MASK_4;
      Lsb4NibblesAt(payload, payloadIndex);

      WriteLowNibble(data, bmpByteIndex, payloadHighNibble, original, nibbles);
      bmpByteIndex := bmpByteIndex + 1;

      WriteLowNibble(data, bmpByteIndex, payloadLowNibble, original, nibbles);
      bmpByteIndex := bmpByteIndex + 1;

      payloadIndex := payloadIndex + 1;
    }
    WrittenAll(original, data[..], EmbedNibbles(original, nibbles), bmpByteIndex);
    return 0;
  }

  /** lsbI_hide: 1 with the carrier untouched when the 4 control bytes and 8
      carrier bytes per payload byte do not fit; otherwise 0, with the control
      bits 1, 0, 1, 0 in bit 0 of bytes 0 to 3, then each payload bit XOR the
      carrier byte's bit 7 in bit 0 of the following bytes. */
  method LsbIHide(data: array<bv8>, payload: seq<bv8>) returns (status: int)
    modifies data
    ensures status == 0 || status == 1
    ensures status == 1 <==> LSBI_BYTES_PER_PAYLOAD * |payload| + LSBI_CONTROL_BYTES > data.Length
    ensures status == 1 ==> data[..] == old(data[..])
    ensures status == 0 ==> data[..] == LsbIEmbed(old(data[..]), payload)
  {
    var maxAmountBytes := data.Length;
    var requiredAmountBytes := |payload| * LSBI_BYTES_PER_PAYLOAD + LSBI_CONTROL_BYTES;
    if requiredAmountBytes > maxAmountBytes {
      return 1;
    }
    ghost var original := data[..];
    WriteLsbIControl(data, original, payload);

    var payloadIndex := 0;
    while payloadIndex < |payload|
      invariant 0 <= payloadIndex <= |payload|
      invariant WrittenUpTo(original, data[..], LsbIEmbed(original, payload), LSBI_CONTROL_BYTES + LSBI_BYTES_PER_PAYLOAD * payloadIndex)
    {
      WriteLsbIByte(data, payloadIndex, payload[payloadIndex], original, payload);
      payloadIndex := payloadIndex + 1;
    }
    WrittenAll(original, data[..], LsbIEmbed(original, payload), LSBI_CONTROL_BYTES + LSBI_BYTES_PER_PAYLOAD * |payload|);
    return 0;
  }
}
