/** The 24-bit uncompressed bitmap container of src/bmp/bmp.c: the 54-byte
    header (BITMAPFILEHEADER and BITMAPINFOHEADER), the fields decoded from
    it, and the pixel array read with its row padding, which is the carrier
    the codecs write into. The file read and the file written are byte
    sequences. */
module Bmp {
  import opened Bits
  import opened BmpUtils

  const HEADER_SIZE: nat := 54
  const BITS_PER_PIXEL: int := 24
  const BYTES_PER_PIXEL: int := 3
  const NO_COMPRESSION: int := 0

  /** Offsets of the decoded fields: bfOffBits, biWidth, biHeight, biBitCount, biCompression. */
  const HEADER_PIXEL_DATA_OFFSET: nat := 10
  const HEADER_WIDTH_OFFSET: nat := 18
  const HEADER_HEIGHT_OFFSET: nat := 22
  const HEADER_BITS_PER_PIXEL_OFFSET: nat := 28
  const HEADER_COMPRESSION_OFFSET: nat := 30

  function PixelDataOffset(header: seq<bv8>): i32
    requires |header| >= HEADER_SIZE
  {
    ReadInt32LE(header[HEADER_PIXEL_DATA_OFFSET..])
  }

  function Width(header: seq<bv8>): i32
    requires |header| >= HEADER_SIZE
  {
    ReadInt32LE(header[HEADER_WIDTH_OFFSET..])
  }

  function Height(header: seq<bv8>): i32
    requires |header| >= HEADER_SIZE
  {
    ReadInt32LE(header[HEADER_HEIGHT_OFFSET..])
  }

  function BitsPerPixel(header: seq<bv8>): i16
    requires |header| >= HEADER_SIZE
  {
    ReadInt16LE(header[HEADER_BITS_PER_PIXEL_OFFSET..])
  }

  function Compression(header: seq<bv8>): i32
    requires |header| >= HEADER_SIZE
  {
    ReadInt32LE(header[HEADER_COMPRESSION_OFFSET..])
  }

  /** `((int64_t) width * 3 + 3) & ~3`: clearing the two low bits of a
      two's-complement number rounds it down to a multiple of 4. The result
      is the smallest multiple of 4 not below 3 * width. */
  function RowBytes(width: int): (r: int)
    ensures r % 4 == 0 && BYTES_PER_PIXEL * width <= r < BYTES_PER_PIXEL * width + 4
  {
    var x := width * BYTES_PER_PIXEL + 3;
    x - x % 4
  }

  /** data_size: `(size_t) row_bytes * (size_t) height`. Both factors are
      taken modulo 2^64 and so is the product: a negative height wraps to
      a size no file holds, and a non-negative one gives the plain number
      of padded bytes (see DataSizeOfRows). */
  function DataSize(width: i32, height: i32): (r: nat)
    ensures r < SIZE_T_MODULUS
  {
    (RowBytes(width) * height) % SIZE_T_MODULUS
  }

  /** 2^64, one more than SIZE_MAX. */
  const SIZE_T_MODULUS: nat := 0x1_0000_0000_0000_0000

  /** For a positive width and a non-negative height nothing wraps: the
      pixel array is height rows of row_bytes bytes. */
  lemma DataSizeOfRows(width: i32, height: i32)
    requires width > 0 && height >= 0
    ensures DataSize(width, height) == RowBytes(width) * height
  {
    var rowBytes := RowBytes(width);
    assert 0 < rowBytes < 0x2_0000_0000;
    ProductBound(rowBytes, height);
  }

  /** A 33-bit factor times a 31-bit factor fits in 64 bits. */
  lemma ProductBound(a: int, b: int)
    requires 0 <= a < 0x2_0000_0000 && 0 <= b < 0x8000_0000
    ensures 0 <= a * b < SIZE_T_MODULUS
  {
    MulLeft(a, b, 0x8000_0000);
    assert a * 0x8000_0000 < 0x2_0000_0000 * 0x8000_0000;
  }

  /** Multiplying by the same natural number keeps the order. */
  lemma {:induction false} MulLeft(a: nat, b: nat, c: nat)
    requires b <= c
    ensures a * b <= a * c
  {
    if a > 0 {
      MulLeft(a - 1, b, c);
    }
  }

  /** No multiple of 4 that holds a row is smaller than RowBytes. */
  lemma RowBytesSmallest(width: int, m: int)
    requires m % 4 == 0 && m >= BYTES_PER_PIXEL * width
    ensures RowBytes(width) <= m
  {
  }

  /** The row size is rejected (<= 0) exactly when the width is not positive. */
  lemma RowBytesPositive(width: int)
    ensures RowBytes(width) <= 0 <==> width <= 0
  {
  }

  /** The `(int32_t)` cast of an int64: its low 32 bits in two's complement. */
  function WrapInt32(x: int): i32 {
    ToInt32(x % 0x1_0000_0000)
  }

  /** The pixel read of bmp_read succeeds: fseek accepts any offset that is
      not negative (also one past the end of the file), and the fread of
      `size` bytes from there returns all of them. A read of zero bytes
      returns zero wherever the file position is. */
  predicate PixelsPresent(file: seq<bv8>, offset: int, size: nat)
  {
    0 <= offset && (size == 0 || offset + size <= |file|)
  }

  /** The bytes that read fills the pixel buffer with. */
  function PixelBytes(file: seq<bv8>, offset: int, size: nat): (r: seq<bv8>)
    requires PixelsPresent(file, offset, size)
    ensures |r| == size
    ensures forall k :: 0 <= k < size ==> r[k] == file[offset + k]
  {
    if size == 0 then [] else file[offset..offset + size]
  }

  /** Every check bmp_read makes on a file's bytes passes: a full header,
      24 bits per pixel, no compression, a positive row size, a pixel offset
      fseek accepts, and the whole padded pixel array present. */
  predicate ReadAccepts(file: seq<bv8>)
  {
    && |file| >= HEADER_SIZE
    && BitsPerPixel(file) == BITS_PER_PIXEL
    && Compression(file) == NO_COMPRESSION
    && RowBytes(Width(file)) > 0
    && PixelsPresent(file, PixelDataOffset(file), DataSize(Width(file), Height(file)))
  }

  /** The BMP struct of src/bmp/bmp.c. */
  class Bitmap {
    var header: array<bv8>
    var data: array<bv8>
    var dataSize: nat
    var width: i32
    var height: i32
    var bitsPerPixel: i16
    var compression: i32
    var pixelDataOffset: i32
    var rowBytes: i32

    /** The header buffer is 54 bytes, the pixel buffer holds data_size bytes. */
    predicate Valid()
      reads this
    {
      header.Length == HEADER_SIZE && data.Length == dataSize && header != data
    }

    /** The struct as bmp_read leaves it for the file bytes `f`: the header is
        the first 54 bytes, the fields are decoded from it, the row size is
        padded to 4 bytes, and the pixel buffer is the row_bytes * height
        bytes at the pixel offset, padding included (none at all when
        data_size is 0, wherever the offset points). */
    predicate Loaded(f: seq<bv8>)
      reads this, header, data
    {
      && Valid()
      && |f| >= HEADER_SIZE
      && header[..] == f[..HEADER_SIZE]
      && width == Width(f) && height == Height(f)
      && bitsPerPixel == BitsPerPixel(f) && compression == Compression(f)
      && pixelDataOffset == PixelDataOffset(f)
      && rowBytes == WrapInt32(RowBytes(Width(f)))
      && dataSize == DataSize(Width(f), Height(f))
      && PixelsPresent(f, pixelDataOffset, dataSize)
      && data[..] == PixelBytes(f, pixelDataOffset, dataSize)
    }

    /** A freshly allocated struct before bmp_read fills it. */
    constructor ()
      ensures Valid() && fresh(header) && fresh(data) && dataSize == 0
    {
      header := new bv8[HEADER_SIZE];
      data := new bv8[0];
      dataSize := 0;
      width := 0;
      height := 0;
      bitsPerPixel := 0;
      compression := 0;
      pixelDataOffset := 0;
      rowBytes := 0;
    }
  }

  /** bmp_read on the bytes of a file (None when it cannot be opened): NULL
      exactly when one of its checks fails; otherwise a new struct loaded
      from the file. */
  method BmpRead(file: Option<seq<bv8>>) returns (bmp: Bitmap?)
    ensures bmp == null <==> file.None? || !ReadAccepts(file.value)
    ensures bmp != null ==> fresh(bmp) && fresh(bmp.header) && fresh(bmp.data) && bmp.Loaded(file.value)
  {
    if file.None? {
      return null;
    }
    var f := file.value;
    bmp := new Bitmap();
    if |f| < HEADER_SIZE {
      return null;
    }
    LoadHeader(bmp, f);

    if bmp.bitsPerPixel != BITS_PER_PIXEL || bmp.compression != NO_COMPRESSION {
      assert !ReadAccepts(f);
      return null;
    }

    var width, height, pixelDataOffset := bmp.width, bmp.height, bmp.pixelDataOffset;
    var rowBytes := RowBytes(width);
    if rowBytes <= 0 {
      assert !ReadAccepts(f);
      return null;
    }
    var dataSize := DataSize(width, height);
    bmp.rowBytes := WrapInt32(rowBytes);
    bmp.dataSize := dataSize;

    // fseek to a negative offset fails; fread fails when the file holds
    // fewer than data_size bytes from the offset on (never when it is 0)
    if pixelDataOffset < 0 || (dataSize != 0 && pixelDataOffset + dataSize > |f|) {
      assert !ReadAccepts(f);
      return null;
    }
    assert ReadAccepts(f);
    LoadPixels(bmp, f);
  }

  /** The header part of bmp_read: the first 54 bytes are copied into the
      header buffer and the five fields are decoded from it. */
  method LoadHeader(bmp: Bitmap, f: seq<bv8>)
    requires bmp.Valid() && |f| >= HEADER_SIZE
    modifies bmp, bmp.header
    ensures bmp.Valid() && bmp.header == old(bmp.header) && bmp.data == old(bmp.data)
    ensures bmp.dataSize == old(bmp.dataSize) && bmp.rowBytes == old(bmp.rowBytes)
    ensures bmp.header[..] == f[..HEADER_SIZE]
    ensures bmp.width == Width(f) && bmp.height == Height(f)
    ensures bmp.bitsPerPixel == BitsPerPixel(f) && bmp.compression == Compression(f)
    ensures bmp.pixelDataOffset == PixelDataOffset(f)
  {
    CopyHeader(bmp.header, f);
    var header := bmp.header[..];
    HeaderAgrees(f[..HEADER_SIZE], f);

    bmp.width := ReadInt32LE(header[HEADER_WIDTH_OFFSET..]);
    bmp.height := ReadInt32LE(header[HEADER_HEIGHT_OFFSET..]);
    bmp.bitsPerPixel := ReadInt16LE(header[HEADER_BITS_PER_PIXEL_OFFSET..]);
    bmp.compression := ReadInt32LE(header[HEADER_COMPRESSION_OFFSET..]);
    bmp.pixelDataOffset := ReadInt32LE(header[HEADER_PIXEL_DATA_OFFSET..]);
  }

  /** The fread of the 54 header bytes into the header buffer. */
  method CopyHeader(header: array<bv8>, f: seq<bv8>)
    requires header.Length == HEADER_SIZE && |f| >= HEADER_SIZE
    modifies header
    ensures header[..] == f[..HEADER_SIZE]
  {
    forall k | 0 <= k < HEADER_SIZE {
      header[k] := f[k];
    }
  }

  /** The pixel part of bmp_read: a buffer of data_size bytes filled from the
      pixel offset on, which completes the load. */
  method LoadPixels(bmp: Bitmap, f: seq<bv8>)
    requires |f| >= HEADER_SIZE
    requires bmp.header.Length == HEADER_SIZE && bmp.header[..] == f[..HEADER_SIZE]
    requires bmp.width == Width(f) && bmp.height == Height(f)
    requires bmp.bitsPerPixel == BitsPerPixel(f) && bmp.compression == Compression(f)
    requires bmp.pixelDataOffset == PixelDataOffset(f)
    requires bmp.rowBytes == WrapInt32(RowBytes(Width(f)))
    requires bmp.dataSize == DataSize(Width(f), Height(f))
    requires PixelsPresent(f, bmp.pixelDataOffset, bmp.dataSize)
    modifies bmp
    ensures fresh(bmp.data) && bmp.header == old(bmp.header) && bmp.Loaded(f)
  {
    var data := new bv8[bmp.dataSize];
    forall k | 0 <= k < bmp.dataSize {
      data[k] := f[bmp.pixelDataOffset + k];
    }
    bmp.data := data;
    assert bmp.data[..] == PixelBytes(f, bmp.pixelDataOffset, bmp.dataSize);
  }

  /** Two byte strings that share their first 54 bytes decode to the same fields. */
  lemma HeaderAgrees(a: seq<bv8>, b: seq<bv8>)
    requires |a| >= HEADER_SIZE && |b| >= HEADER_SIZE && a[..HEADER_SIZE] == b[..HEADER_SIZE]
    ensures Width(a) == Width(b) && Height(a) == Height(b)
    ensures BitsPerPixel(a) == BitsPerPixel(b) && Compression(a) == Compression(b)
    ensures PixelDataOffset(a) == PixelDataOffset(b)
  {
    assert a[HEADER_WIDTH_OFFSET..][..INT_SIZE_BYTES] == b[HEADER_WIDTH_OFFSET..][..INT_SIZE_BYTES];
    assert a[HEADER_HEIGHT_OFFSET..][..INT_SIZE_BYTES] == b[HEADER_HEIGHT_OFFSET..][..INT_SIZE_BYTES];
    assert a[HEADER_BITS_PER_PIXEL_OFFSET..][..SHORT_SIZE_BYTES] == b[HEADER_BITS_PER_PIXEL_OFFSET..][..SHORT_SIZE_BYTES];
    assert a[HEADER_COMPRESSION_OFFSET..][..INT_SIZE_BYTES] == b[HEADER_COMPRESSION_OFFSET..][..INT_SIZE_BYTES];
    assert a[HEADER_PIXEL_DATA_OFFSET..][..INT_SIZE_BYTES] == b[HEADER_PIXEL_DATA_OFFSET..][..INT_SIZE_BYTES];
  }

  /** `n` zero bytes. */
  function Zeros(n: nat): (r: seq<bv8>)
    ensures |r| == n && forall k :: 0 <= k < n ==> r[k] == 0
  {
    seq(n, _ => 0)
  }

  /** The zero bytes bmp_write puts between the header and the pixel array:
      as many as the pixel offset lies beyond the 54 header bytes, if any. */
  function Padding(pixelDataOffset: int): (r: seq<bv8>)
    ensures |r| == if pixelDataOffset > HEADER_SIZE then pixelDataOffset - HEADER_SIZE else 0
    ensures forall k :: 0 <= k < |r| ==> r[k] == 0
  {
    if pixelDataOffset > HEADER_SIZE then Zeros(pixelDataOffset - HEADER_SIZE) else []
  }

  /** bmp_write: 1 for a NULL struct or file name. Otherwise the four
      decoded fields are stored back into the header at their offsets (the
      rest of the header is kept), and the bytes written are the header,
      the zero padding up to the pixel offset and the pixel array. */
  method BmpWrite(bmp: Bitmap?, outputFileName: Option<string>) returns (status: int, written: seq<bv8>)
    requires bmp != null ==> bmp.Valid()
    modifies if bmp != null then {bmp.header} else {}
    ensures bmp == null || outputFileName.None? ==> status == 1 && written == []
    // a missing file name returns before the header is touched
    ensures bmp != null && outputFileName.None? ==> unchanged(bmp.header)
    ensures bmp != null && outputFileName.Some? ==>
      && status == 0
      && Width(bmp.header[..]) == bmp.width && Height(bmp.header[..]) == bmp.height
      && BitsPerPixel(bmp.header[..]) == bmp.bitsPerPixel && Compression(bmp.header[..]) == bmp.compression
      && (forall k :: OutsideStoredFields(k) ==> bmp.header[k] == old(bmp.header[k]))
      && written == bmp.header[..] + Padding(bmp.pixelDataOffset) + bmp.data[..]
  {
    if outputFileName.None? || bmp == null {
      return 1, [];
    }
    StoreFields(bmp.header, bmp.width, bmp.height, bmp.bitsPerPixel, bmp.compression);

    // ftell after the header is 54; zeros up to the pixel offset
    var current := HEADER_SIZE;
    var padding := [];
    if current < bmp.pixelDataOffset {
      padding := ZeroPadding(bmp.pixelDataOffset - current);
    }
    written := bmp.header[..] + padding + bmp.data[..];
    status := 0;
  }

  /** The four write_int*_little_endian calls of bmp_write: the header then
      decodes to the four values and keeps every other byte. */
  method StoreFields(header: array<bv8>, width: i32, height: i32, bitsPerPixel: i16, compression: i32)
    requires header.Length == HEADER_SIZE
    modifies header
    ensures Width(header[..]) == width && Height(header[..]) == height
    ensures BitsPerPixel(header[..]) == bitsPerPixel && Compression(header[..]) == compression
    ensures forall k :: OutsideStoredFields(k) ==> header[k] == old(header[k])
  {
    WriteInt32LE(header, HEADER_WIDTH_OFFSET, width);
    WriteInt32LE(header, HEADER_HEIGHT_OFFSET, height);
    WriteInt16LE(header, HEADER_BITS_PER_PIXEL_OFFSET, bitsPerPixel);
    WriteInt32LE(header, HEADER_COMPRESSION_OFFSET, compression);
    FieldsStored(header[..], width, height, bitsPerPixel, compression);
  }

  /** The loop of bmp_write that writes `pad` zero bytes one at a time. */
  method ZeroPadding(pad: nat) returns (written: seq<bv8>)
    ensures written == Zeros(pad)
  {
    written := [];
    var i := 0;
    while i < pad
      invariant 0 <= i <= pad
      invariant written == Zeros(i)
    {
      written := written + [0];
      i := i + 1;
    }
  }

  /** A header whose field slices hold the encodings of the four values decodes to them. */
  lemma FieldsStored(header: seq<bv8>, width: i32, height: i32, bitsPerPixel: i16, compression: i32)
    requires |header| == HEADER_SIZE
    requires header[HEADER_WIDTH_OFFSET..HEADER_WIDTH_OFFSET + INT_SIZE_BYTES] == Int32LE(width)
    requires header[HEADER_HEIGHT_OFFSET..HEADER_HEIGHT_OFFSET + INT_SIZE_BYTES] == Int32LE(height)
    requires header[HEADER_BITS_PER_PIXEL_OFFSET..HEADER_BITS_PER_PIXEL_OFFSET + SHORT_SIZE_BYTES] == Int16LE(bitsPerPixel)
    requires header[HEADER_COMPRESSION_OFFSET..HEADER_COMPRESSION_OFFSET + INT_SIZE_BYTES] == Int32LE(compression)
    ensures Width(header) == width && Height(header) == height
    ensures BitsPerPixel(header) == bitsPerPixel && Compression(header) == compression
  {
    assert header[HEADER_WIDTH_OFFSET..][..INT_SIZE_BYTES] == Int32LE(width);
    ReadInt32LEOfStored(header[HEADER_WIDTH_OFFSET..], width);
    assert header[HEADER_HEIGHT_OFFSET..][..INT_SIZE_BYTES] == Int32LE(height);
    ReadInt32LEOfStored(header[HEADER_HEIGHT_OFFSET..], height);
    assert header[HEADER_BITS_PER_PIXEL_OFFSET..][..SHORT_SIZE_BYTES] == Int16LE(bitsPerPixel);
    ReadInt16LEOfStored(header[HEADER_BITS_PER_PIXEL_OFFSET..], bitsPerPixel);
    assert header[HEADER_COMPRESSION_OFFSET..][..INT_SIZE_BYTES] == Int32LE(compression);
    ReadInt32LEOfStored(header[HEADER_COMPRESSION_OFFSET..], compression);
  }

  /** A header byte outside the four fields bmp_write stores. */
  predicate OutsideStoredFields(k: int) {
    || 0 <= k < HEADER_WIDTH_OFFSET
    || HEADER_HEIGHT_OFFSET + INT_SIZE_BYTES <= k < HEADER_BITS_PER_PIXEL_OFFSET
    || HEADER_COMPRESSION_OFFSET + INT_SIZE_BYTES <= k < HEADER_SIZE
  }

  /** Storing the fields a header decodes to changes none of its bytes: the
      header bmp_write emits for a struct bmp_read produced is the header
      that was read. */
  lemma HeaderUnchangedByWrite(before: seq<bv8>, after: seq<bv8>)
    requires |before| == HEADER_SIZE && |after| == HEADER_SIZE
    requires Width(after) == Width(before) && Height(after) == Height(before)
    requires BitsPerPixel(after) == BitsPerPixel(before) && Compression(after) == Compression(before)
    requires forall k :: OutsideStoredFields(k) ==> after[k] == before[k]
    ensures after == before
  {
    SliceAgrees(before, after, HEADER_WIDTH_OFFSET);
    SliceAgrees(before, after, HEADER_HEIGHT_OFFSET);
    SliceAgrees(before, after, HEADER_COMPRESSION_OFFSET);
    WriteOfReadInt16LE(before[HEADER_BITS_PER_PIXEL_OFFSET..]);
    WriteOfReadInt16LE(after[HEADER_BITS_PER_PIXEL_OFFSET..]);
    assert before[HEADER_BITS_PER_PIXEL_OFFSET..][..SHORT_SIZE_BYTES] == after[HEADER_BITS_PER_PIXEL_OFFSET..][..SHORT_SIZE_BYTES];
    forall k | 0 <= k < HEADER_SIZE
      ensures after[k] == before[k]
    {
      if HEADER_WIDTH_OFFSET <= k < HEADER_WIDTH_OFFSET + INT_SIZE_BYTES {
        assert after[k] == after[HEADER_WIDTH_OFFSET..][..INT_SIZE_BYTES][k - HEADER_WIDTH_OFFSET];
      } else if HEADER_HEIGHT_OFFSET <= k < HEADER_HEIGHT_OFFSET + INT_SIZE_BYTES {
        assert after[k] == after[HEADER_HEIGHT_OFFSET..][..INT_SIZE_BYTES][k - HEADER_HEIGHT_OFFSET];
      } else if HEADER_BITS_PER_PIXEL_OFFSET <= k < HEADER_BITS_PER_PIXEL_OFFSET + SHORT_SIZE_BYTES {
        assert after[k] == after[HEADER_BITS_PER_PIXEL_OFFSET..][..SHORT_SIZE_BYTES][k - HEADER_BITS_PER_PIXEL_OFFSET];
      } else if HEADER_COMPRESSION_OFFSET <= k < HEADER_COMPRESSION_OFFSET + INT_SIZE_BYTES {
        assert after[k] == after[HEADER_COMPRESSION_OFFSET..][..INT_SIZE_BYTES][k - HEADER_COMPRESSION_OFFSET];
      }
    }
  }

  /** Two byte strings whose int32 at `offset` reads the same hold the same four bytes there. */
  lemma SliceAgrees(a: seq<bv8>, b: seq<bv8>, offset: nat)
    requires offset + INT_SIZE_BYTES <= |a| && offset + INT_SIZE_BYTES <= |b|
    requires ReadInt32LE(a[offset..]) == ReadInt32LE(b[offset..])
    ensures a[offset..][..INT_SIZE_BYTES] == b[offset..][..INT_SIZE_BYTES]
  {
    WriteOfReadInt32LE(a[offset..]);
    WriteOfReadInt32LE(b[offset..]);
  }

  /** The bytes bmp_write emits for a file bmp_read accepted, when the pixel
      offset does not point into the header, are accepted again and decode
      to the same header and the same pixel array. */
  lemma ReadOfWritten(f: seq<bv8>)
    requires ReadAccepts(f) && PixelDataOffset(f) >= HEADER_SIZE
    ensures var offset := PixelDataOffset(f);
            var size := DataSize(Width(f), Height(f));
            var written := f[..HEADER_SIZE] + Padding(offset) + PixelBytes(f, offset, size);
            && written[..HEADER_SIZE] == f[..HEADER_SIZE]
            && Width(written) == Width(f) && Height(written) == Height(f)
            && PixelDataOffset(written) == offset
            && ReadAccepts(written)
            && PixelBytes(written, offset, size) == PixelBytes(f, offset, size)
  {
    var offset := PixelDataOffset(f);
    var size := DataSize(Width(f), Height(f));
    var pixels := PixelBytes(f, offset, size);
    var written := f[..HEADER_SIZE] + Padding(offset) + pixels;
    assert written[..HEADER_SIZE] == f[..HEADER_SIZE];
    HeaderAgrees(written, f);
    assert |written| == offset + size;
    assert written[offset..] == pixels;
  }
}
