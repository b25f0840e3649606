/** The payload framing shared by hiding, extraction and analysis:
    the hidden stream is
      [file length, 4 bytes big-endian][file bytes][extension from the last '.'][NUL]
    together with the big-endian 32-bit codec, the extension grammar check
    and the checks made before an extracted file is written out. */
module StegoUtils {
  import opened Bits

  /** STEGOBMP_EXTENSION_DOT, the byte '.'. */
  const EXTENSION_DOT: bv8 := 0x2E
  /** STEGOBMP_NULL_CHARACTER. */
  const NUL: bv8 := 0
  /** STEGOBMP_NULL_CHARACTER_SIZE. */
  const NUL_SIZE: nat := 1

  // ---------------------------------------------------------------------
  // Big-endian 32-bit codec

  /** The unsigned big-endian value of a byte string: the first byte is the
      most significant base-256 digit. */
  function ValueBE(s: seq<bv8>): (r: nat)
    ensures r < Pow256(|s|)
  {
    if |s| == 0 then 0 else ValueBE(s[..|s| - 1]) * 0x100 + s[|s| - 1] as int
  }

  /** The low `width` base-256 digits of `value`, most significant first;
      the k-th byte from the right is `value >> 8k & 0xFF`. */
  function DigitsBE(value: nat, width: nat): (r: seq<bv8>)
    ensures |r| == width
  {
    if width == 0 then [] else DigitsBE(value / 0x100, width - 1) + [ByteOfInt(value % 0x100)]
  }

  /** Writing a value that fits in `width` bytes and reading it back gives the value. */
  lemma {:induction false} ValueOfDigitsBE(value: nat, width: nat)
    requires value < Pow256(width)
    ensures ValueBE(DigitsBE(value, width)) == value
  {
    if width > 0 {
      ValueOfDigitsBE(value / 0x100, width - 1);
      assert DigitsBE(value, width)[..width - 1] == DigitsBE(value / 0x100, width - 1);
    }
  }

  /** Reading a byte string and writing its value back in as many bytes gives the string. */
  lemma {:induction false} DigitsOfValueBE(s: seq<bv8>)
    ensures DigitsBE(ValueBE(s), |s|) == s
  {
    if |s| > 0 {
      var n := |s|;
      var v := ValueBE(s);
      DigitsOfValueBE(s[..n - 1]);
      assert v / 0x100 == ValueBE(s[..n - 1]);
      assert v % 0x100 == s[n - 1] as int;
      BytesEq(ByteOfInt(v % 0x100), s[n - 1]);
      assert s == s[..n - 1] + [s[n - 1]];
    }
  }

  /** read_uint32_big_endian: the first four bytes as an unsigned number,
      byte 0 most significant. */
  function ReadU32BE(s: seq<bv8>): (r: u32)
    requires |s| >= INT_SIZE_BYTES
  {
    Pow256Of4();
    ValueBE(s[..INT_SIZE_BYTES])
  }

  /** The four bytes write_uint32_big_endian stores for `value`. */
  function U32BE(value: u32): (r: seq<bv8>)
    ensures |r| == INT_SIZE_BYTES
    ensures ReadU32BE(r) == value
  {
    Pow256Of4();
    ValueOfDigitsBE(value, INT_SIZE_BYTES);
    var r := DigitsBE(value, INT_SIZE_BYTES);
    assert r[..INT_SIZE_BYTES] == r;
    r
  }

  /** The codec is a bijection on four bytes: writing back the value read gives the same bytes. */
  lemma U32BEOfRead(s: seq<bv8>)
    requires |s| >= INT_SIZE_BYTES
    ensures U32BE(ReadU32BE(s)) == s[..INT_SIZE_BYTES]
  {
    DigitsOfValueBE(s[..INT_SIZE_BYTES]);
  }

  /** Equal readings mean equal four-byte prefixes. */
  lemma ReadU32BEInjective(s: seq<bv8>, t: seq<bv8>)
    requires |s| >= INT_SIZE_BYTES && |t| >= INT_SIZE_BYTES
    requires ReadU32BE(s) == ReadU32BE(t)
    ensures s[..INT_SIZE_BYTES] == t[..INT_SIZE_BYTES]
  {
    U32BEOfRead(s);
    U32BEOfRead(t);
  }

  /** The value read is the base-256 number byte0 byte1 byte2 byte3. */
  lemma ReadU32BEDigits(s: seq<bv8>)
    requires |s| >= INT_SIZE_BYTES
    ensures ReadU32BE(s) == (s[0] as int) * 0x100_0000 + (s[1] as int) * 0x1_0000 + (s[2] as int) * 0x100 + (s[3] as int)
  {
    assert s[..1][..0] == [];
    assert s[..2][..1] == s[..1];
    assert s[..3][..2] == s[..2];
    assert s[..4][..3] == s[..3];
    assert ValueBE(s[..1]) == s[0] as int;
    assert ValueBE(s[..2]) == ValueBE(s[..1]) * 0x100 + s[1] as int;
    assert ValueBE(s[..3]) == ValueBE(s[..2]) * 0x100 + s[2] as int;
  }

  /** The source ORs the four bytes shifted into a uint32_t; that is the same number. */
  lemma ReadU32BEIsShiftOr(s: seq<bv8>)
    requires |s| >= INT_SIZE_BYTES
    ensures ReadU32BE(s) == ((((s[0] as bv32) << 24) | ((s[1] as bv32) << 16) | ((s[2] as bv32) << 8) | (s[3] as bv32)) as int)
  {
    ReadU32BEDigits(s);
  }

  /** The four bytes are `value >> 24 & 0xFF`, `value >> 16 & 0xFF`, `value >> 8 & 0xFF`, `value & 0xFF`. */
  lemma U32BEBytes(value: u32)
    ensures U32BE(value) == [ByteOfInt(value / 0x100_0000 % 0x100), ByteOfInt(value / 0x1_0000 % 0x100),
                             ByteOfInt(value / 0x100 % 0x100), ByteOfInt(value % 0x100)]
  {
    assert U32BE(value) == DigitsBE(value, 4);
    var a := value / 0x100;
    var b := a / 0x100;
    var c := b / 0x100;
    ShiftsCompose(value);
    assert DigitsBE(c, 1) == [ByteOfInt(c % 0x100)];
    assert DigitsBE(b, 2) == DigitsBE(c, 1) + [ByteOfInt(b % 0x100)];
    assert DigitsBE(a, 3) == DigitsBE(b, 2) + [ByteOfInt(a % 0x100)];
    assert DigitsBE(value, 4) == DigitsBE(a, 3) + [ByteOfInt(value % 0x100)];
  }

  /** write_uint32_big_endian: stores `value` in buffer[0..4) and touches nothing else. */
  method WriteU32BE(buffer: array<bv8>, value: u32)
    requires buffer.Length >= INT_SIZE_BYTES
    modifies buffer
    ensures buffer[..INT_SIZE_BYTES] == U32BE(value)
    ensures buffer[INT_SIZE_BYTES..] == old(buffer[INT_SIZE_BYTES..])
  {
    U32BEBytes(value);
    buffer[0] := ByteOfInt(value / 0x100_0000 % 0x100);
    buffer[1] := ByteOfInt(value / 0x1_0000 % 0x100);
    buffer[2] := ByteOfInt(value / 0x100 % 0x100);
    buffer[3] := ByteOfInt(value % 0x100);
  }

  // ---------------------------------------------------------------------
  // Building the framed payload

  /** strrchr(s, c): the index of the last occurrence of `c` in `s`. */
  function LastIndexOf(s: seq<bv8>, c: bv8): (r: Option<nat>)
    ensures r.Some? ==> r.value < |s| && s[r.value] == c && forall j :: r.value < j < |s| ==> s[j] != c
    ensures r.None? ==> forall j :: 0 <= j < |s| ==> s[j] != c
  {
    if |s| == 0 then None
    else if s[|s| - 1] == c then Some(|s| - 1)
    else LastIndexOf(s[..|s| - 1], c)
  }

  /** The extension build_payload_buffer takes from a file name: the suffix
      starting at its last '.', or None when the name has no '.'. */
  function ExtensionOf(fileName: seq<bv8>): (r: Option<seq<bv8>>)
    ensures r.Some? <==> EXTENSION_DOT in fileName
    ensures r.Some? ==> 1 <= |r.value| <= |fileName| && r.value[0] == EXTENSION_DOT
                        && EXTENSION_DOT !in r.value[1..]
                        && fileName == fileName[..|fileName| - |r.value|] + r.value
  {
    match LastIndexOf(fileName, EXTENSION_DOT)
    case None => None
    case Some(i) =>
      assert fileName == fileName[..i] + fileName[i..];
      Some(fileName[i..])
  }

  /** The extension of a C string name is itself free of NUL. */
  lemma ExtensionNulFree(fileName: seq<bv8>)
    requires NulFree(fileName) && ExtensionOf(fileName).Some?
    ensures NulFree(ExtensionOf(fileName).value)
  {
    var ext := ExtensionOf(fileName).value;
    forall i | 0 <= i < |ext|
      ensures ext[i] != 0
    {
      assert ext[i] == fileName[|fileName| - |ext| + i];
    }
  }

  /** The hidden stream for a file and its extension:
      [BE32 length][file bytes][extension][NUL]. */
  function Frame(file: seq<bv8>, ext: seq<bv8>): (r: seq<bv8>)
    requires |file| <= U32_MAX
    ensures |r| == INT_SIZE_BYTES + |file| + |ext| + NUL_SIZE
    ensures ReadU32BE(r) == |file|
    ensures r[INT_SIZE_BYTES..INT_SIZE_BYTES + |file|] == file
    ensures r[INT_SIZE_BYTES + |file|..|r| - NUL_SIZE] == ext
    ensures r[|r| - 1] == NUL
  {
    var prefix := U32BE(|file|);
    assert (prefix + file + ext + [NUL])[..INT_SIZE_BYTES] == prefix[..INT_SIZE_BYTES];
    prefix + file + ext + [NUL]
  }

  /** The filling half of build_payload_buffer: the length prefix, the bytes
      fread copies, the extension memcpy copies and the closing NUL. */
  method FillPayloadBuffer(buffer: array<bv8>, contents: seq<bv8>, extension: seq<bv8>)
    requires |contents| <= U32_MAX
    requires buffer.Length == INT_SIZE_BYTES + |contents| + |extension| + NUL_SIZE
    modifies buffer
    ensures buffer[..] == Frame(contents, extension)
  {
    var fileSize := |contents|;
    WriteU32BE(buffer, fileSize);
    // fread(buffer + 4, 1, file_size, file)
    Place(buffer, INT_SIZE_BYTES, contents);
    // memcpy(buffer + 4 + file_size, extension, extension_size)
    Place(buffer, INT_SIZE_BYTES + fileSize, extension);
    buffer[INT_SIZE_BYTES + fileSize + |extension|] := NUL;
    FrameOfParts(buffer[..], contents, extension);
  }

  /** A buffer holding the length prefix, the file bytes, the extension and
      a NUL, each in its place, is the frame. */
  lemma FrameOfParts(buffer: seq<bv8>, contents: seq<bv8>, extension: seq<bv8>)
    requires |contents| <= U32_MAX
    requires |buffer| == INT_SIZE_BYTES + |contents| + |extension| + NUL_SIZE
    requires buffer[..INT_SIZE_BYTES] == U32BE(|contents|)
    requires buffer[INT_SIZE_BYTES..INT_SIZE_BYTES + |contents|] == contents
    requires buffer[INT_SIZE_BYTES + |contents|..INT_SIZE_BYTES + |contents| + |extension|] == extension
    requires buffer[|buffer| - 1] == NUL
    ensures buffer == Frame(contents, extension)
  {
    assert buffer == buffer[..INT_SIZE_BYTES] + buffer[INT_SIZE_BYTES..INT_SIZE_BYTES + |contents|]
                     + buffer[INT_SIZE_BYTES + |contents|..INT_SIZE_BYTES + |contents| + |extension|] + [NUL];
  }

  /** What build_payload_buffer hands back: the framed buffer and the extension. */
  datatype Payload = Payload(buffer: seq<bv8>, extension: seq<bv8>)

  /** build_payload_buffer. The input file's contents are a parameter
      (None when the file cannot be opened); the name is a C string, so it
      holds no NUL. The buffer is filled in the source's order: length
      prefix, file bytes, extension, NUL. */
  method BuildPayloadBuffer(inputFileName: seq<bv8>, inputFile: Option<seq<bv8>>) returns (r: Option<Payload>)
    requires NulFree(inputFileName)
    ensures r.None? <==> inputFile.None? || |inputFile.value| > U32_MAX || ExtensionOf(inputFileName).None?
    ensures r.Some? ==> r.value.extension == ExtensionOf(inputFileName).value
                        && r.value.buffer == Frame(inputFile.value, r.value.extension)
  {
    if inputFile.None? {
      return None;
    }
    var contents := inputFile.value;
    if |contents| > U32_MAX {
      return None;
    }
    var fileSize := |contents|;
    var dot := LastIndexOf(inputFileName, EXTENSION_DOT);
    if dot.None? {
      return None;
    }
    var extension := inputFileName[dot.value..];
    assert ExtensionOf(inputFileName) == Some(extension);
    var buffer := new bv8[INT_SIZE_BYTES + fileSize + |extension| + NUL_SIZE];
    FillPayloadBuffer(buffer, contents, extension);
    return Some(Payload(buffer[..], extension));
  }

  // ---------------------------------------------------------------------
  // The extension grammar

  /** isalnum in the C locale: an ASCII digit or letter. */
  predicate IsAlnum(c: bv8) {
    (0x30 <= c <= 0x39) || (0x41 <= c <= 0x5A) || (0x61 <= c <= 0x7A)
  }

  /** A byte allowed after the leading '.' of an extension. */
  predicate IsExtensionChar(c: bv8) {
    IsAlnum(c) || c == EXTENSION_DOT
  }

  /** payload[start] is '.', it is followed by one or more extension
      characters, and payload[end] is the NUL that terminates them. */
  predicate ExtensionEndsAt(payload: seq<bv8>, start: nat, end: nat) {
    && start + 1 < end < |payload|
    && payload[start] == EXTENSION_DOT
    && payload[end] == NUL
    && forall k :: start < k < end ==> IsExtensionChar(payload[k])
  }

  /** The scan of the source's while loop, from index `i` on. */
  function ScanExtension(payload: seq<bv8>, start: nat, i: nat): (r: Option<nat>)
    requires start < i <= |payload| && payload[start] == EXTENSION_DOT
    requires forall k :: start < k < i ==> IsExtensionChar(payload[k])
    ensures r.Some? ==> ExtensionEndsAt(payload, start, start + r.value)
    ensures r.None? ==> forall end: nat :: !ExtensionEndsAt(payload, start, end)
    decreases |payload| - i
  {
    if i == |payload| || (payload[i] == NUL && i == start + 1) || (payload[i] != NUL && !IsExtensionChar(payload[i])) then
      ScanStops(payload, start, i);
      None
    else if payload[i] == NUL then Some(i - start)
    else ScanExtension(payload, start, i + 1)
  }

  /** Where the scan gives up, no terminating NUL exists. */
  lemma ScanStops(payload: seq<bv8>, start: nat, i: nat)
    requires start < i <= |payload|
    requires forall k :: start < k < i ==> IsExtensionChar(payload[k])
    requires i == |payload| || (payload[i] == NUL && i == start + 1) || (payload[i] != NUL && !IsExtensionChar(payload[i]))
    ensures forall end: nat :: !ExtensionEndsAt(payload, start, end)
  {
  }

  /** Some terminating NUL exists for the extension starting at `start`. */
  predicate HasExtension(payload: seq<bv8>, start: nat) {
    exists end: nat | end < |payload| :: ExtensionEndsAt(payload, start, end)
  }

  /** The length (dot included, NUL excluded) of the extension that must
      follow the file bytes, or None when the grammar is violated. */
  function ExtensionLength(payload: seq<bv8>, fileSize: nat): (r: Option<nat>)
    ensures r.Some? <==> HasExtension(payload, INT_SIZE_BYTES + fileSize)
    ensures r.Some? ==> ExtensionEndsAt(payload, INT_SIZE_BYTES + fileSize, INT_SIZE_BYTES + fileSize + r.value)
  {
    var start := INT_SIZE_BYTES + fileSize;
    if |payload| <= start || payload[start] != EXTENSION_DOT then None
    else ScanExtension(payload, start, start + 1)
  }

  /** The terminating NUL is the first NUL after the dot, so an extension is unique. */
  lemma ExtensionEndUnique(payload: seq<bv8>, start: nat, end1: nat, end2: nat)
    requires ExtensionEndsAt(payload, start, end1) && ExtensionEndsAt(payload, start, end2)
    ensures end1 == end2
  {
  }

  /** Where the extension was found: its offset and its length. */
  datatype ExtensionSpan = ExtensionSpan(offset: nat, length: nat)

  /** stego_payload_locate_extension: succeeds iff the byte right after the
      file bytes is '.', a NUL follows after at least one more byte, and every
      byte in between is alphanumeric or '.'; it then reports offset 4+file_size
      and the length up to (not including) that NUL. */
  method LocateExtension(payload: seq<bv8>, fileSize: nat) returns (r: Option<ExtensionSpan>)
    ensures r.Some? <==> HasExtension(payload, INT_SIZE_BYTES + fileSize)
    ensures r.Some? ==> r.value.offset == INT_SIZE_BYTES + fileSize
                        && ExtensionEndsAt(payload, r.value.offset, r.value.offset + r.value.length)
    ensures r.Some? ==> r.value.offset + r.value.length < |payload|
    ensures r == (match ExtensionLength(payload, fileSize)
                  case None => None
                  case Some(n) => Some(ExtensionSpan(INT_SIZE_BYTES + fileSize, n)))
  {
    var startIndex := INT_SIZE_BYTES + fileSize;
    if |payload| <= startIndex || payload[startIndex] != EXTENSION_DOT {
      return None;
    }
    var currentIndex := startIndex + 1;
    while currentIndex < |payload|
      invariant startIndex < currentIndex <= |payload|
      invariant forall k :: startIndex < k < currentIndex ==> IsExtensionChar(payload[k])
      invariant ExtensionLength(payload, fileSize) == ScanExtension(payload, startIndex, currentIndex)
    {
      var currentChar := payload[currentIndex];
      if currentChar == NUL {
        if currentIndex == startIndex + 1 {
          return None;
        }
        return Some(ExtensionSpan(startIndex, currentIndex - startIndex));
      }
      if !IsExtensionChar(currentChar) {
        return None;
      }
      currentIndex := currentIndex + 1;
    }
    return None;
  }

  // ---------------------------------------------------------------------
  // Writing out an extracted file

  /** The file save_extracted_file writes: its name and its bytes. */
  datatype SavedFile = SavedFile(name: seq<bv8>, contents: seq<bv8>)

  /** save_extracted_file, without the file system: the declared size must be
      non-zero and the extension must pass the grammar check; the output name
      is the given base name followed by the recovered extension, and the bytes
      written are payload[4, 4 + size). None stands for the source's return 1. */
  function SaveExtractedFile(payload: seq<bv8>, outputFileName: seq<bv8>): (r: Option<SavedFile>)
    requires |payload| >= INT_SIZE_BYTES
    ensures r.Some? <==> ReadU32BE(payload) != 0 && ExtensionLength(payload, ReadU32BE(payload)).Some?
    ensures r.Some? ==>
      var size := ReadU32BE(payload);
      var end := INT_SIZE_BYTES + size + |r.value.name| - |outputFileName|;
      && |outputFileName| < |r.value.name|
      && ExtensionEndsAt(payload, INT_SIZE_BYTES + size, end)
      && r.value.name == outputFileName + payload[INT_SIZE_BYTES + size..end]
      && r.value.contents == payload[INT_SIZE_BYTES..INT_SIZE_BYTES + size]
  {
    var fileSize := ReadU32BE(payload);
    if fileSize == 0 then None
    else
      match ExtensionLength(payload, fileSize)
      case None => None
      case Some(extensionLength) =>
        var offset := INT_SIZE_BYTES + fileSize;
        var extension := payload[offset..offset + extensionLength];
        Some(SavedFile(outputFileName + extension, payload[INT_SIZE_BYTES..offset]))
  }

  // ---------------------------------------------------------------------
  // Frames the readers accept

  /** An extension the readers' grammar accepts: '.', then one or more
      alphanumeric or '.' bytes. The hiding side takes any suffix from the
      last '.', so names such as "notes.", "./notes" or "a.tar-gz" are
      hidden with an extension no reader accepts. */
  predicate WellFormedExtension(ext: seq<bv8>) {
    |ext| >= 2 && ext[0] == EXTENSION_DOT && forall k :: 1 <= k < |ext| ==> IsExtensionChar(ext[k])
  }

  /** In a frame with a NUL-free extension, the only terminating NUL the
      grammar can find is the frame's last byte, and finding it means the
      extension is well formed. */
  lemma FrameExtensionEnd(file: seq<bv8>, ext: seq<bv8>, n: nat)
    requires |file| <= U32_MAX && NulFree(ext)
    requires ExtensionEndsAt(Frame(file, ext), INT_SIZE_BYTES + |file|, INT_SIZE_BYTES + |file| + n)
    ensures n == |ext| && WellFormedExtension(ext)
  {
    var frame := Frame(file, ext);
    var start := INT_SIZE_BYTES + |file|;
    assert frame[start..|frame| - NUL_SIZE] == ext;
    forall k | 0 <= k < |ext|
      ensures frame[start + k] == ext[k] && frame[start + k] != NUL
    {
    }
  }

  /** The grammar check on a frame whose extension is NUL-free finds that
      extension, with its own length, exactly when it is well formed. */
  lemma FrameExtension(file: seq<bv8>, ext: seq<bv8>)
    requires |file| <= U32_MAX && NulFree(ext)
    ensures ExtensionLength(Frame(file, ext), |file|) == if WellFormedExtension(ext) then Some(|ext|) else None
  {
    var frame := Frame(file, ext);
    var start := INT_SIZE_BYTES + |file|;
    var r := ExtensionLength(frame, |file|);
    if r.Some? {
      FrameExtensionEnd(file, ext, r.value);
    }
    if WellFormedExtension(ext) {
      FrameExtensionFound(file, ext);
    }
  }

  /** A well-formed extension in a frame ends at the frame's closing NUL. */
  lemma FrameExtensionFound(file: seq<bv8>, ext: seq<bv8>)
    requires |file| <= U32_MAX && WellFormedExtension(ext)
    ensures ExtensionEndsAt(Frame(file, ext), INT_SIZE_BYTES + |file|, INT_SIZE_BYTES + |file| + |ext|)
  {
    var frame := Frame(file, ext);
    var start := INT_SIZE_BYTES + |file|;
    assert frame[start..|frame| - NUL_SIZE] == ext;
    forall k | start < k < start + |ext|
      ensures IsExtensionChar(frame[k])
    {
      assert frame[k] == ext[k - start];
    }
  }

  /** Extracting a frame writes the file it carries, named after the output
      name and the hidden extension, exactly when the file is not empty and
      its extension is well formed; otherwise save_extracted_file fails. */
  lemma FrameSaves(file: seq<bv8>, ext: seq<bv8>, outputFileName: seq<bv8>)
    requires |file| <= U32_MAX && NulFree(ext)
    ensures SaveExtractedFile(Frame(file, ext), outputFileName)
            == if 0 < |file| && WellFormedExtension(ext) then Some(SavedFile(outputFileName + ext, file)) else None
  {
    var frame := Frame(file, ext);
    FrameExtension(file, ext);
    assert frame[INT_SIZE_BYTES + |file|..INT_SIZE_BYTES + |file| + |ext|] == ext;
  }
}
