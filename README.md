# stegobmp in Dafny

A model of the byte and bit layer of stegobmp. This is a C command-line tool
that hides a file inside the pixel array of a 24-bit uncompressed BMP image.
The model proves that layer against specifications.

- **Framing.** The hidden stream (`StegoUtils`) is a 4-byte big-endian file
  length, the file bytes, the file name's extension from its last '.', and a
  NUL. The model covers the big-endian codec, the extension grammar that every
  reader checks, and the checks and output name of the extracted file.
- **Carrier codecs.** Three codecs rewrite the pixel buffer in place:
  - LSB1: one payload bit per carrier byte, in bit 0;
  - LSB4: one nibble per carrier byte, in the low nibble;
  - LSBI: four control bytes carrying 1, 0, 1, 0, then each payload bit XOR
    the carrier byte's bit 7, in bit 0.

  Each is specified once, as a function on the carrier (`LsbSpec`). The
  repository has three textually equal copies of every hide routine:
  `StegoLsb`, `StegoHide` and `LegacyStego`. Each copy is a method over an
  `array<bv8>` proved to leave exactly the carrier its specification
  describes.
- **Retrieval.** LSB1 retrieval (`StegoLsb.Lsb1Retrieve`) is proved equal to
  a decoding function. That function is proved to give back every frame LSB1
  hid. LSB4 and LSBI are proved recoverable from the carrier.
- **Dispatch and analysis.** The method dispatcher (`Stego`, and its older
  copy in `LegacyStego`) selects a codec by name. Blind analysis
  (`StegoAnalysis`) takes the first candidate output, in the order LSB1,
  LSB4, LSBI, that holds a well-formed frame.
- **Supporting pieces:**
  - the little-endian header codec (`BmpUtils`);
  - the bitmap reader and writer (`Bmp`, with row padding and a pixel
    offset; `LegacyBmp`, the older unpadded variant);
  - cipher-name resolution and the no-encryption pass-through of the crypto
    wrapper (`Crypto`);
  - the command-line parser (`Parser`).

The hiding side and the reading side disagree on extensions. Hiding
takes any suffix from the last '.' of the name (src/stegobmp/stegobmp_utils.c:26-32).
Extraction and analysis accept only '.' followed by one or more
alphanumeric or '.' bytes (src/stegobmp/stegobmp_utils.c:139-168). So a
file named "notes.", "./notes" or "a.tar-gz" is hidden successfully but
never recovered: `StegoAnalysis.Lsb1HiddenIsFound` states both halves, and
`StegoAnalysis.HiddenButUnreadable` gives an instance.

The older static copies of build_payload_buffer and write_uint32_big_endian (src/stegobmp.c:54-113) and of the little-endian helpers (src/bmp.c:105-123) do the same as the newer ones. The same members model both.

Bytes are `bv8`. The C fixed-width integers are subset types of `int`
(`u32`, `i32`, `i16`), with two's-complement casts written out. Files read
and written are byte sequences. Allocation and `printf` diagnostics have no
counterpart.

## Model

| member | source | states |
|---|---|---|
| StegoUtils.ValueOfDigitsBE | src/stegobmp/stegobmp_utils.c:63-79 | a value that fits in n bytes, written big-endian and read back, is itself |
| StegoUtils.DigitsOfValueBE | src/stegobmp/stegobmp_utils.c:63-79 | reading n bytes and writing the value back gives the same bytes |
| StegoUtils.U32BE | src/stegobmp/stegobmp_utils.c:63-68 | the four stored bytes read back (read_uint32_big_endian) as the value written |
| StegoUtils.U32BEOfRead | src/stegobmp/stegobmp_utils.c:70-79 | writing back the value read reproduces the first four bytes: the codec is a bijection |
| StegoUtils.ReadU32BEInjective | src/stegobmp/stegobmp_utils.c:70-79 | equal readings come only from equal four-byte prefixes |
| StegoUtils.ReadU32BEDigits | src/stegobmp/stegobmp_utils.c:70-79 | the value read is b0·2^24 + b1·2^16 + b2·2^8 + b3, byte 0 most significant |
| StegoUtils.ReadU32BEIsShiftOr | src/stegobmp/stegobmp_utils.c:73-76 | the same value is the OR of the four bytes shifted into a 32-bit word, as the source computes it |
| StegoUtils.U32BEBytes | src/stegobmp/stegobmp_utils.c:64-67 | the stored bytes are value >> 24, 16, 8, 0, each & 0xFF |
| StegoUtils.WriteU32BE | src/stegobmp/stegobmp_utils.c:63-68 | buffer[0..4) becomes the encoding of the value; every later byte is kept |
| StegoUtils.LastIndexOf | src/stegobmp/stegobmp_utils.c:26 | strrchr: the found index holds the character and no later index does; None iff it does not occur |
| StegoUtils.ExtensionOf | src/stegobmp/stegobmp_utils.c:26-32 | the extension exists iff the name has a '.'; it is the name's suffix starting at '.', with no further '.' |
| StegoUtils.ExtensionNulFree | src/stegobmp/stegobmp_utils.c:32-33 | the extension of a NUL-free name is NUL-free, so strlen measures all of it |
| StegoUtils.Frame | src/stegobmp/stegobmp_utils.c:35-58 | the framed buffer has length 4 + n + \|ext\| + 1; it reads back n, then holds the file bytes, the extension and a NUL |
| StegoUtils.FillPayloadBuffer | src/stegobmp/stegobmp_utils.c:45-58 | after the length prefix, the fread, the memcpy and the NUL store, the buffer is exactly the frame |
| StegoUtils.FrameOfParts | src/stegobmp/stegobmp_utils.c:45-58 | a buffer holding each of the four parts in its place is the frame |
| StegoUtils.BuildPayloadBuffer | src/stegobmp/stegobmp_utils.c:9-61 | for a C-string name: fails iff the file cannot be opened, is longer than UINT32_MAX, or the name has no '.'; otherwise returns the frame of the file with its extension |
| StegoUtils.ScanExtension | src/stegobmp/stegobmp_utils.c:146-167 | the scan finds a terminating NUL exactly when one exists after one or more alphanumeric or '.' bytes |
| StegoUtils.ScanStops | src/stegobmp/stegobmp_utils.c:149-163 | where the scan returns 0 (end of buffer, empty extension, bad byte), no terminating NUL exists |
| StegoUtils.ExtensionLength | src/stegobmp/stegobmp_utils.c:139-168 | some length iff the grammar holds at 4 + file_size; that length ends at the terminating NUL |
| StegoUtils.ExtensionEndUnique | src/stegobmp/stegobmp_utils.c:147-160 | the terminating NUL is the first NUL after the dot, so the extension found is unique |
| StegoUtils.LocateExtension | src/stegobmp/stegobmp_utils.c:139-168 | succeeds iff the byte at 4 + file_size is '.' followed by one or more alphanumeric or '.' bytes and a NUL; offset is 4 + file_size; length counts the dot but not the NUL; offset + length < payload_size |
| StegoUtils.SaveExtractedFile | src/stegobmp/stegobmp_utils.c:81-137 | rejects a zero size or a missing extension; otherwise the name is output_filename + extension and the bytes written are payload[4, 4 + size) |
| StegoUtils.FrameExtensionEnd | src/stegobmp/stegobmp_utils.c:147-160 | in a frame with a NUL-free extension, the only NUL the scan can stop at is the closing one, and stopping there means the extension is well formed |
| StegoUtils.FrameExtensionFound | src/stegobmp/stegobmp_utils.c:147-158 | a well-formed extension in a frame runs from the dot to the closing NUL |
| StegoUtils.FrameExtension | src/stegobmp/stegobmp_utils.c:139-168 | on a frame built with a NUL-free extension, the grammar check finds that extension with its own length iff it is well formed ('.' then one or more alphanumeric or '.' bytes), and fails otherwise |
| StegoUtils.FrameSaves | src/stegobmp/stegobmp_utils.c:81-137 | extracting a frame writes exactly its file under output_filename + extension when the file is non-empty and the extension well formed, and fails otherwise |
| LsbSpec.BitStreamAt | src/stegobmp/stegobmp_lsb.c:20-22 | the bit stream lists each payload byte's bits most significant first |
| LsbSpec.Lsb1BitAt | src/stegobmp/stegobmp_lsb.c:21-22 | the bit the loop writes at cursor 8j + (7 - bit_index) is payload[j] >> bit_index & 1 |
| LsbSpec.EmbedBitsProps | src/stegobmp/stegobmp_lsb.c:23 | embedding bits sets bit 0 of byte k to bit k, keeps bits 1-7, and keeps every byte past the bits |
| LsbSpec.Lsb1EmbedBits | src/stegobmp/stegobmp_lsb.c:18-26 | after lsb1_hide, bit 0 of byte k is bit (7 - k mod 8) of payload[k / 8], bits 1-7 are kept, and bytes from 8·n on are unchanged |
| LsbSpec.NibbleStreamAt | src/stegobmp/stegobmp_lsb.c:43-44 | the nibble stream holds each payload byte's high nibble, then its low nibble |
| LsbSpec.Lsb4NibblesAt | src/stegobmp/stegobmp_lsb.c:43-44 | the nibbles the loop writes are payload[j] >> 4 & 0x0F and payload[j] & 0x0F |
| LsbSpec.Lsb4EmbedNibbles | src/stegobmp/stegobmp_lsb.c:42-51 | after lsb4_hide, the low nibble of data[2i] is payload[i] >> 4 and that of data[2i + 1] is payload[i] & 0xF |
| LsbSpec.Lsb4EmbedKeeps | src/stegobmp/stegobmp_lsb.c:46-49 | lsb4_hide keeps every high nibble and every byte from 2·n on |
| LsbSpec.ControlBits | include/stegobmp/stegobmp_lsb.h:21 | the control bits from 0xA, most significant first, are 1, 0, 1, 0 |
| LsbSpec.ControlBitAt | src/stegobmp/stegobmp_lsb.c:67-68 | the control bit for byte 3 - i is 0xA >> i & 1 |
| LsbSpec.LsbIBitsAt | src/stegobmp/stegobmp_lsb.c:74-77 | the bit written at cursor 4 + 8j + (7 - bit_index) is the payload bit XOR bit 7 of that carrier byte |
| LsbSpec.LsbIEmbedControl | src/stegobmp/stegobmp_lsb.c:67-71 | after lsbI_hide, bit 0 of bytes 0-3 holds 1, 0, 1, 0 |
| LsbSpec.LsbIEmbedPayload | src/stegobmp/stegobmp_lsb.c:73-82 | after lsbI_hide, bit 0 of byte 4 + k is payload bit k XOR the original bit 7 of that byte |
| LsbSpec.LsbIEmbedKeeps | src/stegobmp/stegobmp_lsb.c:69-79 | lsbI_hide keeps bits 1-7 of every byte and every byte from 4 + 8·n on |
| LsbSpec.LsbIControlNibble | src/stegobmp/stegobmp_lsb.c:67-71 | the four control LSBs, read most significant first, give back 0xA |
| LsbSpec.LsbIBitAt | src/stegobmp/stegobmp_lsb.c:76-79 | bit 0 XOR bit 7 of carrier byte 4 + k after lsbI_hide is payload bit k |
| LsbSpec.MaskKeepsMsb | src/stegobmp/stegobmp_lsb.c:79 | masking with 0xFE and OR-ing a bit keeps bit 7 |
| LsbSpec.LsbIRecoverByte | src/stegobmp/stegobmp_lsb.c:73-82 | decoding bit0 XOR bit7 of carrier bytes 4 + 8j to 4 + 8j + 7 gives back payload[j] |
| LsbSpec.LsbIRecovery | src/stegobmp/stegobmp_lsb.c:56-85 | the whole LSBI carrier gives back the control nibble 0xA and every payload byte |
| LsbSpec.XorCancels | src/stegobmp/stegobmp_lsb.c:77 | XOR-ing the same bit twice cancels, so the receiver undoes the XOR with bit 7 |
| LsbSpec.Lsb4Recovery | src/stegobmp/stegobmp_lsb.c:42-51 | the two low nibbles of data[2i] and data[2i + 1] reassemble payload[i] |
| LsbSpec.WrittenAll | src/stegobmp/stegobmp_lsb.c:18-26 | once the cursor has passed every byte the target changes, the carrier is the target |
| LsbSpec.AssembleLsbsComplete | src/stegobmp/stegobmp_lsb.c:99-103 | the inner loop's `extracted_byte \|= lsb << bit_index` over eight bytes is the MSB-first byte of their LSBs |
| LsbSpec.DecodeLsb1ByteOf | src/stegobmp/stegobmp_lsb.c:97-105 | eight bytes whose LSBs are the bits of b, MSB first, decode to b |
| LsbSpec.CutAfterNul | src/stegobmp/stegobmp_lsb.c:133-149 | the retrieved length stops right after the first NUL at or past index 4 + length, or covers the whole stream when there is none |
| LsbSpec.CutAfterNulAt | src/stegobmp/stegobmp_lsb.c:143-146 | with the first NUL from `from` at i, the retrieved length is i + 1 |
| LsbSpec.Lsb1StreamOfEmbed | src/stegobmp/stegobmp_lsb.c:9-29 | decoding the first n bytes' worth of an LSB1 carrier gives back the n payload bytes hidden |
| LsbSpec.Lsb1StreamPrefix | src/stegobmp/stegobmp_lsb.c:133-149 | decoding fewer bytes gives a prefix of decoding more |
| LsbSpec.FrameHeader | src/stegobmp/stegobmp_lsb.c:97-107 | the first four bytes of a frame read back as the file length |
| LsbSpec.FrameCut | src/stegobmp/stegobmp_lsb.c:143-146 | for a stream that starts with a frame, the first NUL past the file bytes ends the frame |
| LsbSpec.Lsb1RoundTrip | src/stegobmp/stegobmp_lsb.c:87-153 | lsb1_retrieve after lsb1_hide of a frame (non-empty file, NUL-free extension, 8·\|frame\| <= data_size) returns exactly that frame |
| CarrierWrite.WriteLsb | src/stegobmp/stegobmp_lsb.c:23 | `data[i] = data[i] & 0xFE \| bit` settles byte i of an LSB embedding and leaves the rest as it was |
| CarrierWrite.WriteLowNibble | src/stegobmp/stegobmp_lsb.c:46-49 | `data[i] = data[i] & 0xF0 \| nibble` settles byte i of an LSB4 embedding |
| CarrierWrite.WriteLsbIControl | src/stegobmp/stegobmp_lsb.c:67-71 | the control loop settles bytes 0-3 of the LSBI carrier |
| CarrierWrite.WriteLsbIByte | src/stegobmp/stegobmp_lsb.c:74-81 | the inner loop for payload byte j settles the carrier bytes 4 + 8j to 4 + 8j + 7 |
| StegoLsb.Lsb1Hide | src/stegobmp/stegobmp_lsb.c:9-29 | returns 1 with the carrier untouched iff 8·n > data_size (0 at equality); otherwise the carrier is the LSB1 embedding of the payload |
| StegoLsb.Lsb4Hide | src/stegobmp/stegobmp_lsb.c:31-54 | returns 1 with the carrier untouched iff 2·n > data_size; otherwise the carrier is the LSB4 embedding |
| StegoLsb.LsbIHide | src/stegobmp/stegobmp_lsb.c:56-85 | returns 1 with the carrier untouched iff 8·n + 4 > data_size; otherwise the carrier is the LSBI embedding |
| StegoLsb.ExtractByte | src/stegobmp/stegobmp_lsb.c:97-105 | one pass of the bit loop consumes eight carrier bytes and yields their decoded byte |
| StegoLsb.StoreDecoded | src/stegobmp/stegobmp_lsb.c:141 | storing the decoded byte extends the matching prefix of the output buffer by one and leaves every later byte as it was |
| StegoLsb.ExtractUntilNul | src/stegobmp/stegobmp_lsb.c:131-151 | the copy loop fills the output with the decoded stream and stops right after the first NUL past the file bytes, or at data_size / 8 bytes; buffer bytes from the returned length on are left as they were |
| StegoLsb.Lsb1Retrieve | src/stegobmp/stegobmp_lsb.c:87-153 | returns NULL iff data_size < 32, the length is 0, the length exceeds data_size / 8 - 4, or (4 + length + 1)·8 > data_size; otherwise the decoded stream cut after the first NUL past the file bytes |
| StegoHide.Lsb1Hide | src/stegobmp/stegobmp_hide.c:5-25 | the same capacity check and the same LSB1 embedding as the other copies |
| StegoHide.Lsb4Hide | src/stegobmp/stegobmp_hide.c:27-50 | the same capacity check and the same LSB4 embedding |
| StegoHide.LsbIHide | src/stegobmp/stegobmp_hide.c:52-81 | the same capacity check and the same LSBI embedding |
| LegacyStego.Lsb1Hide | src/stegobmp.c:115-135 | the static copy: the same capacity check and the same LSB1 embedding |
| LegacyStego.Lsb4Hide | src/stegobmp.c:137-160 | the static copy: the same capacity check and the same LSB4 embedding |
| LegacyStego.LsbIHide | src/stegobmp.c:162-191 | the static copy: the same capacity check and the same LSBI embedding |
| Stego.HideWith | src/stegobmp/stegobmp.c:19-40 | the name is compared exactly with "LSB1", "LSB4", "LSBI"; status 1 iff the payload exceeds that method's capacity (8·n, 2·n, 8·n + 4 bytes), with the carrier untouched; on 0 the carrier is that method's embedding; any other name leaves the carrier and reports 0 |
| Stego.MethodNameIsCaseSensitive | src/stegobmp/stegobmp.c:19-40 | "lsb1" selects no routine: the carrier is left as it was and the status is 0 |
| Stego.HideFile | src/stegobmp/stegobmp.c:10-45 | status 1 iff the payload cannot be framed (no file, above UINT32_MAX bytes, no '.') or the frame exceeds the named method's capacity, and then the carrier is untouched; on 0 the carrier is the named method's embedding of the frame; an unrecognised name changes nothing |
| Stego.HideFileInBmp | src/stegobmp/stegobmp.c:10-45 | status and new carrier are those of HideFile; output name, cipher, mode and password have no influence |
| LegacyStego.HideFileInBmp | src/stegobmp.c:17-52 | the older dispatcher gives the same status and carrier as HideFile |
| Stego.Lsb1HideThenRetrieve | src/stegobmp/stegobmp.c:19-25 | a successful LSB1 hide of a named file is read back by lsb1_retrieve as the frame of that file |
| Stego.Lsb4HideRecoverable | src/stegobmp/stegobmp.c:26-32 | after a successful LSB4 hide every frame byte is reassembled from two low nibbles |
| Stego.LsbIHideRecoverable | src/stegobmp/stegobmp.c:33-39 | after a successful LSBI hide the control nibble reads 0xA and every frame byte is recovered via bit0 XOR bit7 |
| StegoAnalysis.MethodToString | src/analysis/stego_analysis.c:97-108 | LSB1, LSB4, LSBI map to "LSB1", "LSB4", "LSBI" and only UNKNOWN maps to "UNKNOWN" |
| StegoAnalysis.ValidatePayloadBuffer | src/analysis/stego_analysis.c:54-76 | accepts iff the buffer exists, has 5 bytes or more, and the extension grammar holds after its declared size; reports that size |
| StegoAnalysis.RequiredSizeFits | src/analysis/stego_analysis.c:63-70 | once the extension is located, the required-size check cannot fail |
| StegoAnalysis.FirstValid | src/analysis/stego_analysis.c:123-143 | the index chosen validates and no earlier candidate does; None iff none validates |
| StegoAnalysis.CandidateOutputs | src/analysis/stego_analysis.c:117-125 | one output per candidate, in the order LSB1, LSB4, LSBI |
| StegoAnalysis.ResultInit | src/analysis/stego_analysis.c:78-87 | the result is in the empty state: no payload, UNKNOWN, sizes 0, no buffer |
| StegoAnalysis.ResultFree | src/analysis/stego_analysis.c:89-95 | the result is back in the empty state, so freeing twice is freeing once |
| StegoAnalysis.Run | src/analysis/stego_analysis.c:110-146 | 1 for a missing bitmap or result; otherwise the first validating candidate is recorded with status 0, or the result stays empty with status 1 |
| StegoAnalysis.TryCandidates | src/analysis/stego_analysis.c:123-145 | the selection loop records the first validating candidate (method, declared size, sizes, payload) and tries no later one |
| StegoAnalysis.FrameValidates | src/analysis/stego_analysis.c:54-76 | validate_payload_buffer accepts a frame with a NUL-free extension iff the extension is well formed, and then reports the file's length |
| StegoAnalysis.Lsb1HiddenIsFound | src/analysis/stego_analysis.c:110-146 | after a successful LSB1 hide of a non-empty file, the LSB1 candidate is the frame; the run picks LSB1 first with the file's length iff the extension is well formed, and extraction then writes the file under output name + extension, failing otherwise |
| StegoAnalysis.TarGzExtension | src/stegobmp/stegobmp_utils.c:26-32 | the name "a.tar-gz" yields the extension ".tar-gz", which is not well formed |
| StegoAnalysis.HiddenButUnreadable | src/stegobmp/stegobmp_utils.c:139-168 | a one-byte file named "a.tar-gz" is hidden with LSB1 successfully and retrieved as its frame, yet the analysis and extraction both reject that frame |
| BmpUtils.ValueOfDigitsLE | src/bmp/bmp_utils.c:3-27 | a value that fits in n bytes, written little-endian and read back, is itself |
| BmpUtils.DigitsOfValueLE | src/bmp/bmp_utils.c:3-27 | reading n bytes and writing the value back gives the same bytes |
| BmpUtils.ToInt32 | src/bmp/bmp_utils.c:8 | the (int32_t) cast is congruent to the word modulo 2^32 |
| BmpUtils.ToInt16 | src/bmp/bmp_utils.c:14 | the (int16_t) cast is congruent to the word modulo 2^16 |
| BmpUtils.ReadInt32LEOfWrite | src/bmp/bmp_utils.c:3-22 | read_int32_little_endian(write_int32_little_endian(v)) == v for every int32, negative ones included |
| BmpUtils.ReadInt16LEOfWrite | src/bmp/bmp_utils.c:11-27 | read_int16_little_endian(write_int16_little_endian(v)) == v for every int16 |
| BmpUtils.ReadInt32LEOfStored | src/bmp/bmp_utils.c:3-22 | any buffer whose first four bytes store v reads back v |
| BmpUtils.ReadInt16LEOfStored | src/bmp/bmp_utils.c:11-27 | any buffer whose first two bytes store v reads back v |
| BmpUtils.WriteOfReadInt32LE | src/bmp/bmp_utils.c:3-22 | writing back the value read reproduces the four bytes |
| BmpUtils.WriteOfReadInt16LE | src/bmp/bmp_utils.c:11-27 | writing back the value read reproduces the two bytes |
| BmpUtils.ReadInt32LEDigits | src/bmp/bmp_utils.c:3-9 | the value read is b0 + b1·2^8 + b2·2^16 + b3·2^24, less 2^32 when bit 7 of b3 is set |
| BmpUtils.ValueLEOfFour | src/bmp/bmp_utils.c:8 | the little-endian value of four bytes, digit by digit |
| BmpUtils.ReadInt16LEDigits | src/bmp/bmp_utils.c:11-15 | the value read is b0 + b1·2^8, less 2^16 when bit 7 of b1 is set |
| BmpUtils.Int32LEBytes | src/bmp/bmp_utils.c:17-22 | the stored bytes are value >> 0, 8, 16, 24, each & 0xFF |
| BmpUtils.Int16LEBytes | src/bmp/bmp_utils.c:24-27 | the stored bytes are value >> 0, 8, each & 0xFF |
| BmpUtils.WriteInt32LE | src/bmp/bmp_utils.c:17-22 | stores the four bytes of the value at the offset and touches nothing else |
| BmpUtils.WriteInt16LE | src/bmp/bmp_utils.c:24-27 | stores the two bytes of the value at the offset and touches nothing else |
| Bmp.RowBytes | src/bmp/bmp.c:47 | (3·width + 3) & ~3 is a multiple of 4, at least 3·width and less than 3·width + 4 |
| Bmp.RowBytesSmallest | src/bmp/bmp.c:47 | no smaller multiple of 4 holds a row |
| Bmp.RowBytesPositive | src/bmp/bmp.c:47-54 | row_bytes <= 0, and so rejection, happens exactly when width <= 0 |
| Bmp.DataSize | src/bmp/bmp.c:56 | the size_t product lies below 2^64 |
| Bmp.DataSizeOfRows | src/bmp/bmp.c:56 | for a positive width and a non-negative height, data_size is row_bytes · height: the row padding is part of the carrier |
| Bmp.HeaderAgrees | src/bmp/bmp.c:32-36 | the five decoded fields depend only on the first 54 bytes |
| Bmp.CopyHeader | src/bmp/bmp.c:24-30 | the header buffer becomes the file's first 54 bytes |
| Bmp.LoadHeader | src/bmp/bmp.c:24-36 | the header is copied and offset 10, width 18, height 22, bits per pixel 28 (16-bit) and compression 30 are decoded little-endian |
| Bmp.LoadPixels | src/bmp/bmp.c:57-81 | the pixel buffer is the data_size bytes at the pixel offset (empty when data_size is 0, wherever the offset points), completing the load |
| Bmp.BmpRead | src/bmp/bmp.c:7-85 | NULL iff the file is missing, shorter than the header, not 24 bpp or compressed, has row_bytes <= 0, a negative pixel offset, or a non-zero data_size with fewer than data_size bytes from the offset on (a zero-size pixel array is accepted even when the offset lies past the end of the file); otherwise a fresh struct loaded from the file |
| Bmp.Padding | src/bmp/bmp.c:114-122 | the pad is pixel_data_offset - 54 zero bytes when the offset is larger, else empty |
| Bmp.ZeroPadding | src/bmp/bmp.c:115-122 | the loop writes exactly that many zero bytes |
| Bmp.StoreFields | src/bmp/bmp.c:102-105 | re-decoding the header gives the struct's width, height, bpp and compression; every other header byte is kept |
| Bmp.FieldsStored | src/bmp/bmp.c:102-105 | a header storing the four encodings at their offsets decodes to those values |
| Bmp.HeaderUnchangedByWrite | src/bmp/bmp.c:102-105 | when the fields already match the header, the rewrite leaves the header byte for byte as it was |
| Bmp.BmpWrite | src/bmp/bmp.c:87-133 | 1 for a NULL struct or name, with the header untouched; otherwise the fields are stored back and the bytes written are header, zero padding up to the pixel offset, and the pixel array |
| Bmp.ReadOfWritten | src/bmp/bmp.c:87-133 | for a file bmp_read accepted (pixel offset not inside the header), the bytes written are accepted again with the same header and pixel array |
| LegacyBmp.LegacyDataSizeOfPixels | src/bmp.c:44 | when width·height·3 fits in an int, data_size is three bytes per pixel, with no row padding |
| LegacyBmp.LegacyLoadHeader | src/bmp.c:25-35 | the header is copied and width, height, bpp and compression are decoded at 18, 22, 28, 30 |
| LegacyBmp.LegacyLoadPixels | src/bmp.c:45-58 | the pixel buffer is the data_size bytes right after the header |
| LegacyBmp.LegacyBmpRead | src/bmp.c:11-62 | NULL iff the file is missing, shorter than the header, not 24 bpp or compressed, or lacks data_size bytes after the header; otherwise a fresh loaded struct |
| LegacyBmp.LegacyBmpWrite | src/bmp.c:64-95 | 1 for a NULL struct or name, with the header untouched; otherwise the four fields are stored back and the bytes written are header then pixels |
| LegacyBmp.LegacyReadOfWritten | src/bmp.c:64-95 | the bytes written for an accepted file are accepted again with the same header and pixels |
| Crypto.EvpCipher | src/crypto/crypto.c:36-55 | "cfb" selects 128-bit CFB for AES and 64-bit CFB for 3DES; the other modes map one to one |
| Crypto.ResolveMode | src/crypto/crypto.c:37-40 | a mode resolves iff it equals ecb, cbc, cfb or ofb ignoring case, to that mode's cipher |
| Crypto.ResolveCipher | src/crypto/crypto.c:26-59 | NULL for a null or empty method or mode; otherwise exactly the 16 pairs {aes128, aes192, aes256, 3des} × {ecb, cbc, cfb, ofb}, ignoring case, resolve |
| Crypto.AlgorithmNamesDistinct | src/crypto/crypto.c:31-34 | at most one algorithm name matches a string, so the if-chain is unambiguous |
| Crypto.ModeNamesDistinct | src/crypto/crypto.c:37-40 | at most one mode name matches a string |
| Crypto.ResolveCipherIgnoresCase | src/crypto/crypto.c:26-59 | strings equal up to case resolve alike |
| Crypto.ResolveCipherOfNames | src/crypto/crypto.c:26-59 | every algorithm and mode name resolves to its own cipher |
| Crypto.ResolveCipherExamples | src/crypto/crypto.c:36-54 | "AES128"/"CFB" gives AES-128-CFB128, "3DES"/"Cfb" gives DES-EDE3-CFB64, "aes"/"cbc" is NULL |
| Crypto.GetIvLength | src/crypto/crypto.c:165-171 | -1 iff the pair does not resolve; otherwise the cipher's IV length |
| Crypto.GetBlockSize | src/crypto/crypto.c:173-179 | -1 iff the pair does not resolve; otherwise the cipher's block size |
| Crypto.EvpOutcome | src/crypto/crypto.c:145-157 | the status is the length of the update and final outputs together, or -1 iff a step fails |
| Crypto.Crypt | src/crypto/crypto.c:87-163 | -1 for a NULL buffer or negative length; a copy of the input when method, mode or password is null or empty; -1 for an unresolved pair or a missing IV; every other call is exactly the EVP outcome (its output and length, or -1 when a step fails) |
| Crypto.PassthroughRoundTrip | src/crypto/crypto.c:102-104 | with no encryption requested, decrypting what encryption produced gives the input back |
| Crypto.PassthroughCopy | src/crypto/crypto.c:13-24 | -1 for a NULL buffer or negative length; otherwise the first length bytes are copied, the rest are kept, and length is returned |
| Crypto.RunEvp | src/crypto/crypto.c:145-157 | the buffer starts with the EVP output and the status is its length, or -1 |
| Crypto.CryptoEncrypt | src/crypto/crypto.c:87-163 | status and output prefix are those of Crypt; the rest of the output buffer is kept |
| Crypto.CryptoDecrypt | src/crypto/crypto.c:181-257 | the same decision tree as encryption, with the decrypting EVP steps |
| Parser.Assign | src/parser/parser.c:20-75 | a value flag sets its own field and no other |
| Parser.Validate | src/parser/parser.c:79-105 | the post-scan checks return 0 or 1 |
| Parser.ValidateAccepts | src/parser/parser.c:79-105 | acceptance needs -p, -out, a supported -steg, an action, and -in when embedding |
| Parser.ValidateActions | src/parser/parser.c:90-103 | with -embed, acceptance is decided by -in whatever -extract says; otherwise it is decided by -extract |
| Parser.ScanKeeps | src/parser/parser.c:15-77 | a field whose flag does not occur keeps its value |
| Parser.LastValueWins | src/parser/parser.c:15-77 | a repeated flag keeps the value after its last occurrence |
| Parser.NextToken | src/parser/parser.c:15-77 | after the token at i the loop moves on by one, or by two past a value flag that has an argument, never beyond argc |
| Parser.LastFlagWins | src/parser/parser.c:15-77 | the loop from index 1 ends with the argument of the last occurrence of a value flag that it reads as a flag |
| Parser.ArgumentIsNotAFlag | src/parser/parser.c:28-35 | in "prog -p -in x" the loop takes "-in" as the argument of -p and never reads it as a flag |
| Parser.FlagAtEndMissing | src/parser/parser.c:20-27 | a value flag as the last token reports a missing argument |
| Parser.FlagValueIsConsumed | src/parser/parser.c:28-35 | the token after a value flag is taken as its value even when it is itself a flag |
| Parser.StoreValue | src/parser/parser.c:22-23 | storing a value changes exactly the flag's field |
| Parser.ScanTokens | src/parser/parser.c:15-77 | the loop leaves the fields the token scan prescribes and reports a missing argument exactly when it does |
| Parser.ParseArguments | src/parser/parser.c:7-106 | argc < 8 gives 1 with the struct untouched; otherwise the fields are the scan's and the status is 1 for a missing argument, else the validation result |
| Bits.Place | src/stegobmp/stegobmp_utils.c:57 | memcpy at an offset: the bytes land there and every other byte is kept |

## Left out

- File-system I/O (fopen, fseek, ftell, fread, fwrite, fclose). Files read are `Option<seq<bv8>>` parameters, with None for a file that cannot be opened. Files written are returned byte sequences. A failing fwrite is not modelled.
- malloc and strdup failures, free, and `bmp_free`: allocation always succeeds in the model.
- All `printf` diagnostics.
- The stdout redirection of `call_retrieve_quiet`. The candidates' outputs are a parameter sequence, as if each retriever were called directly.
- LSB4 and LSBI retrieval. `lsb_4_retrieve` and `lsb_i_retrieve` are referenced by the analysis but not defined anywhere in the repository, so their outputs are parameters of `StegoAnalysis.Run`. The LSB1 entry of the analysis table (src/analysis/stego_analysis.c:118) names `lsb_1_retrieve`, which is likewise only declared (include/stegobmp/stegobmp_lsb.h:27); the model binds it to `lsb1_retrieve` (src/stegobmp/stegobmp_lsb.c:87), the LSB1 retriever the repository does define. Recoverability of LSB4 and LSBI is proved on the carrier instead (`LsbSpec.Lsb4Recovery`, `LsbSpec.LsbIRecovery`).
- main.c and the extraction dispatcher it calls, which is not in the repository.
- OpenSSL. Key derivation (`derive_key` with EVP_BytesToKey), context allocation, the init, update and final calls, and the ciphers' IV lengths and block sizes are function parameters: `evp`, `evpIvLength`, `evpBlockSize`. No claim is made about ciphertext length or padding.
- Crypto.CryptoEncrypt: the salt is accepted but reaches only key derivation, which is a parameter.
- Crypto.PassthroughCopy: the source is a value, so the memmove case where source and destination alias is not modelled.
- Crypto.CryptoEncrypt and Crypto.CryptoDecrypt require the output buffer to hold whatever the EVP steps write. The source leaves that to its caller.
- isalnum and the case folding of strcasecmp are the ASCII (C locale) ones.
- The 64-bit `size_t` wrap of `payload_size * 8` in the hide routines. Payload sizes are unbounded naturals.
- LegacyBmp.LegacyDataSize: the `int` product width·height·3 can overflow, which C leaves undefined. The model takes the two's-complement result, then the size_t conversion.
- BmpUtils.ReadInt32LE: the older `read_int_little_endian` shifts a byte into the sign bit of an `int`. The model takes the two's-complement result, as for the newer reader.
- Bmp.ReadOfWritten: bmp_write does not rewrite the pixel offset field. Re-reading is therefore proved only for files whose pixel offset does not point inside the 54-byte header.
- Bmp.BmpWrite and LegacyBmp.LegacyBmpWrite: the output is the byte sequence that would be written, so a failing fwrite does not show.
- The parser's `embed` and `extract` flags are booleans. The source stores 1 in an `int`.
- The struct and argument pointers are never NULL in `Parser.ParseArguments`, `StegoUtils.FillPayloadBuffer` and the hide methods. The source dereferences them without a check.
- StegoUtils.BuildPayloadBuffer, Stego.HideFileInBmp and LegacyStego.HideFileInBmp take the input file name as a C string, so it holds no NUL byte.
