/** hide_file_in_bmp of src/stegobmp/stegobmp.c: frames the input file and
    hands the framed buffer to the hide routine the method name selects.
    The outcome is specified once, as HideFile, for this dispatcher and for
    the older copy in src/stegobmp.c. */
module Stego {
  import opened Bits
  import opened StegoUtils
  import opened LsbSpec
  import StegoHide

  /** The method names compared with strcmp. */
  const LSB1_METHOD: string := "LSB1"
  const LSB4_METHOD: string := "LSB4"
  const LSBI_METHOD: string := "LSBI"

  /** A return code and the carrier bytes the call leaves behind. */
  datatype HideOutcome = HideOutcome(status: int, carrier: seq<bv8>)

  /** The carrier of `capacity` bytes is too small for `n` payload bytes
      under the named method: the checks of lsb1_hide, lsb4_hide and
      lsbI_hide. Any other name has no check. */
  predicate ExceedsCapacity(steganographyMethod: string, capacity: nat, n: nat) {
    || (steganographyMethod == LSB1_METHOD && LSB1_BYTES_PER_PAYLOAD * n > capacity)
    || (steganographyMethod == LSB4_METHOD && LSB4_BYTES_PER_PAYLOAD * n > capacity)
    || (steganographyMethod == LSBI_METHOD && LSBI_BYTES_PER_PAYLOAD * n + LSBI_CONTROL_BYTES > capacity)
  }

  /** build_payload_buffer succeeds: the file was read, its length fits in
      the 32-bit prefix, and its name has a '.'. */
  predicate Framable(inputFileName: seq<bv8>, inputFile: Option<seq<bv8>>) {
    inputFile.Some? && |inputFile.value| <= U32_MAX && EXTENSION_DOT in inputFileName
  }

  /** The hide step: the method name is compared exactly (strcmp, so case
      matters) with the three names; the routine it selects reports 1 and
      leaves the carrier untouched iff the payload does not fit, and leaves
      its own embedding otherwise; any other name does nothing and reports
      success. */
  function HideWith(steganographyMethod: string, data: seq<bv8>, payload: seq<bv8>): (r: HideOutcome)
    ensures |r.carrier| == |data|
    ensures r.status == 0 || r.status == 1
    ensures r.status == 1 <==> ExceedsCapacity(steganographyMethod, |data|, |payload|)
    ensures r.status == 1 ==> r.carrier == data
    ensures r.status == 0 && steganographyMethod == LSB1_METHOD ==> r.carrier == Lsb1Embed(data, payload)
    ensures r.status == 0 && steganographyMethod == LSB4_METHOD ==> r.carrier == Lsb4Embed(data, payload)
    ensures r.status == 0 && steganographyMethod == LSBI_METHOD ==> r.carrier == LsbIEmbed(data, payload)
    ensures steganographyMethod !in {LSB1_METHOD, LSB4_METHOD, LSBI_METHOD} ==> r == HideOutcome(0, data)
  {
    if steganographyMethod == LSB1_METHOD then
      if LSB1_BYTES_PER_PAYLOAD * |payload| > |data| then HideOutcome(1, data)
      else HideOutcome(0, Lsb1Embed(data, payload))
    else if steganographyMethod == LSB4_METHOD then
      if LSB4_BYTES_PER_PAYLOAD * |payload| > |data| then HideOutcome(1, data)
      else HideOutcome(0, Lsb4Embed(data, payload))
    else if steganographyMethod == LSBI_METHOD then
      if LSBI_BYTES_PER_PAYLOAD * |payload| + LSBI_CONTROL_BYTES > |data| then HideOutcome(1, data)
      else HideOutcome(0, LsbIEmbed(data, payload))
    else HideOutcome(0, data)
  }

  /** The names are compared case-sensitively: "lsb1" selects no routine,
      so the carrier is left as it was and the call reports success. */
  lemma MethodNameIsCaseSensitive(data: seq<bv8>, payload: seq<bv8>)
    ensures HideWith("lsb1", data, payload) == HideOutcome(0, data)
  {
    assert "lsb1"[0] != LSB1_METHOD[0];
  }

  /** The whole of hide_file_in_bmp: 1 with the carrier untouched iff the
      payload cannot be framed (no file, a file above UINT32_MAX bytes, a
      name without '.') or the frame does not fit under the named method;
      on success the carrier holds that method's embedding of the frame. */
  function HideFile(inputFileName: seq<bv8>, inputFile: Option<seq<bv8>>, steganographyMethod: string,
                    data: seq<bv8>): (r: HideOutcome)
    ensures |r.carrier| == |data|
    ensures r.status == 0 || r.status == 1
    ensures r.status == 1 <==> !Framable(inputFileName, inputFile)
                               || ExceedsCapacity(steganographyMethod, |data|,
                                                  |Frame(inputFile.value, ExtensionOf(inputFileName).value)|)
    // a failing call leaves no partial write behind
    ensures r.status == 1 ==> r.carrier == data
    ensures r.status == 0 ==>
      && Framable(inputFileName, inputFile)
      && var frame := Frame(inputFile.value, ExtensionOf(inputFileName).value);
      && (steganographyMethod == LSB1_METHOD ==> r.carrier == Lsb1Embed(data, frame))
      && (steganographyMethod == LSB4_METHOD ==> r.carrier == Lsb4Embed(data, frame))
      && (steganographyMethod == LSBI_METHOD ==> r.carrier == LsbIEmbed(data, frame))
    // an unrecognised method name changes nothing and succeeds once the payload is framed
    ensures steganographyMethod != LSB1_METHOD && steganographyMethod != LSB4_METHOD
            && steganographyMethod != LSBI_METHOD
            ==> r.carrier == data
                && (r.status == 0 <==> inputFile.Some? && |inputFile.value| <= U32_MAX && EXTENSION_DOT in inputFileName)
  {
    if inputFile.None? || |inputFile.value| > U32_MAX || ExtensionOf(inputFileName).None? then
      HideOutcome(1, data)
    else
      HideWith(steganographyMethod, data, Frame(inputFile.value, ExtensionOf(inputFileName).value))
  }

  /** A successful LSB1 hide followed by lsb1_retrieve gives back the framed
      file, when the file is not empty and its name has no NUL. */
  lemma Lsb1HideThenRetrieve(inputFileName: seq<bv8>, file: seq<bv8>, data: seq<bv8>)
    requires 0 < |file| && NulFree(inputFileName)
    requires HideFile(inputFileName, Some(file), LSB1_METHOD, data).status == 0
    ensures Lsb1Extract(HideFile(inputFileName, Some(file), LSB1_METHOD, data).carrier)
            == Some(Frame(file, ExtensionOf(inputFileName).value))
  {
    ExtensionNulFree(inputFileName);
    Lsb1RoundTrip(data, file, ExtensionOf(inputFileName).value);
  }

  /** A successful LSB4 hide stores every framed byte as the low nibbles of
      two consecutive carrier bytes. */
  lemma Lsb4HideRecoverable(inputFileName: seq<bv8>, file: seq<bv8>, data: seq<bv8>, i: nat)
    requires HideFile(inputFileName, Some(file), LSB4_METHOD, data).status == 0
    requires i < |Frame(file, ExtensionOf(inputFileName).value)|
    ensures var r := HideFile(inputFileName, Some(file), LSB4_METHOD, data).carrier;
            (LowNibble(r[2 * i]) << 4) | LowNibble(r[2 * i + 1]) == Frame(file, ExtensionOf(inputFileName).value)[i]
  {
    Lsb4Recovery(data, Frame(file, ExtensionOf(inputFileName).value), i);
  }

  /** A successful LSBI hide carries the control nibble 0xA in bytes 0 to 3
      and every framed byte in bit 0 XOR bit 7 of the eight bytes after. */
  lemma LsbIHideRecoverable(inputFileName: seq<bv8>, file: seq<bv8>, data: seq<bv8>)
    requires HideFile(inputFileName, Some(file), LSBI_METHOD, data).status == 0
    ensures var r := HideFile(inputFileName, Some(file), LSBI_METHOD, data).carrier;
            (Lsb(r[0]) << 3) | (Lsb(r[1]) << 2) | (Lsb(r[2]) << 1) | Lsb(r[3]) == LSBI_CONTROL_PATTERN
    ensures var r := HideFile(inputFileName, Some(file), LSBI_METHOD, data).carrier;
            var frame := Frame(file, ExtensionOf(inputFileName).value);
            forall j :: 0 <= j < |frame| ==> LsbIDecodeByte(r, j) == frame[j]
  {
    LsbIRecovery(data, Frame(file, ExtensionOf(inputFileName).value));
  }

  /** hide_file_in_bmp. The input file's contents are a parameter (None when
      it cannot be read); the output file name and the three encryption
      arguments are accepted and never read, as in the source. */
  method HideFileInBmp(inputFileName: seq<bv8>, inputFile: Option<seq<bv8>>, data: array<bv8>,
                       outputBmpFileName: string, steganographyMethod: string,
                       encryptionMethod: string, encryptionMode: string, password: string)
      returns (status: int)
    requires NulFree(inputFileName)
    modifies data
    ensures status == HideFile(inputFileName, inputFile, steganographyMethod, old(data[..])).status
    ensures data[..] == HideFile(inputFileName, inputFile, steganographyMethod, old(data[..])).carrier
  {
    var payload := BuildPayloadBuffer(inputFileName, inputFile);
    if payload.None? {
      return 1;
    }
    var payloadBuffer := payload.value.buffer;

    if steganographyMethod == LSB1_METHOD {
      var failed := StegoHide.Lsb1Hide(data, payloadBuffer);
      if failed != 0 {
        return 1;
      }
    } else if steganographyMethod == LSB4_METHOD {
      var failed := StegoHide.Lsb4Hide(data, payloadBuffer);
      if failed != 0 {
        return 1;
      }
    } else if steganographyMethod == LSBI_METHOD {
      var failed := StegoHide.LsbIHide(data, payloadBuffer);
      if failed != 0 {
        return 1;
      }
    }
    return 0;
  }
}
