/** The older bitmap container of src/bmp.c: the same 54-byte header and
    little-endian fields as src/bmp/bmp.c, but without row padding, without
    the pixel offset (the pixels are the bytes right after the header) and
    with no padding on write. Its private little-endian helpers store and
    read the same bytes as BmpUtils' codec, which this module uses. */
module LegacyBmp {
  import opened Bits
  import opened BmpUtils
  import opened Bmp

  /** data_size: `width * height * BMP_BYTES_PER_PIXEL`, with no row
      padding, computed in `int` and stored in a size_t. The `int` product
      is taken in two's complement and a negative result converts to a
      size no file holds (see LegacyDataSizeOfPixels). */
  function LegacyDataSize(width: i32, height: i32): (r: nat)
    ensures r < SIZE_T_MODULUS
  {
    WrapInt32(width * height * BYTES_PER_PIXEL) % SIZE_T_MODULUS
  }

  /** When the product fits in an `int` and is not negative, data_size is
      three bytes per pixel. */
  lemma LegacyDataSizeOfPixels(width: i32, height: i32)
    requires 0 <= width * height * BYTES_PER_PIXEL < 0x8000_0000
    ensures LegacyDataSize(width, height) == width * height * BYTES_PER_PIXEL
  {
    var n := width * height * BYTES_PER_PIXEL;
    assert n % 0x1_0000_0000 == n;
  }

  /** Every check this bmp_read makes passes: a full header, 24 bits per
      pixel, no compression, and data_size bytes after the header. */
  predicate LegacyReadAccepts(file: seq<bv8>) {
    && |file| >= HEADER_SIZE
    && BitsPerPixel(file) == BITS_PER_PIXEL
    && Compression(file) == NO_COMPRESSION
    && HEADER_SIZE + LegacyDataSize(Width(file), Height(file)) <= |file|
  }

  /** The BMP struct of include/bmp.h. */
  class LegacyBitmap {
    var header: array<bv8>
    var data: array<bv8>
    var dataSize: nat
    var width: i32
    var height: i32
    var bitsPerPixel: i16
    var compression: i32

    predicate Valid()
      reads this
    {
      header.Length == HEADER_SIZE && data.Length == dataSize && header != data
    }

    /** The struct as this bmp_read leaves it for the file bytes `f`: the
        header is the first 54 bytes, the fields are decoded from it, and
        the pixel buffer is the width * height * 3 bytes that follow it. */
    predicate Loaded(f: seq<bv8>)
      reads this, header, data
    {
      && Valid()
      && |f| >= HEADER_SIZE
      && header[..] == f[..HEADER_SIZE]
      && width == Width(f) && height == Height(f)
      && bitsPerPixel == BitsPerPixel(f) && compression == Compression(f)
      && dataSize == LegacyDataSize(Width(f), Height(f))
      && HEADER_SIZE + dataSize <= |f|
      && data[..] == f[HEADER_SIZE..HEADER_SIZE + dataSize]
    }

    constructor ()
      ensures Valid() && fresh(header) && fresh(data) && dataSize == 0
    {
      header := new bv8[HEADER_SIZE];
      data := new bv8[0];
      dataSize := 0;
      width := 0;
      height := 0;
      bitsPerPixel := 0;
      compression := 0;
    }
  }

  /** bmp_read of src/bmp.c on the bytes of a file (None when it cannot be
      opened): NULL exactly when one of its checks fails; otherwise a new
      struct loaded from the file. */
  method LegacyBmpRead(file: Option<seq<bv8>>) returns (bmp: LegacyBitmap?)
    ensures bmp == null <==> file.None? || !LegacyReadAccepts(file.value)
    ensures bmp != null ==> fresh(bmp) && fresh(bmp.header) && fresh(bmp.data) && bmp.Loaded(file.value)
  {
    if file.None? {
      return null;
    }
    var f := file.value;
    bmp := new LegacyBitmap();
    if |f| < HEADER_SIZE {
      return null;
    }
    LegacyLoadHeader(bmp, f);

    if bmp.bitsPerPixel != BITS_PER_PIXEL || bmp.compression != NO_COMPRESSION {
      assert !LegacyReadAccepts(f);
      return null;
    }

    var dataSize := LegacyDataSize(bmp.width, bmp.height);
    bmp.dataSize := dataSize;
    // the file position is just past the header
    if HEADER_SIZE + dataSize > |f| {
      assert !LegacyReadAccepts(f);
      return null;
    }
    assert LegacyReadAccepts(f);
    LegacyLoadPixels(bmp, f);
  }

  /** The header part of this bmp_read: the first 54 bytes are copied into
      the header buffer and the four fields are decoded from it. */
  method LegacyLoadHeader(bmp: LegacyBitmap, f: seq<bv8>)
    requires bmp.Valid() && |f| >= HEADER_SIZE
    modifies bmp, bmp.header
    ensures bmp.Valid() && bmp.header == old(bmp.header) && bmp.data == old(bmp.data)
    ensures bmp.dataSize == old(bmp.dataSize)
    ensures bmp.header[..] == f[..HEADER_SIZE]
    ensures bmp.width == Width(f) && bmp.height == Height(f)
    ensures bmp.bitsPerPixel == BitsPerPixel(f) && bmp.compression == Compression(f)
  {
    CopyHeader(bmp.header, f);
    var header := bmp.header[..];
    HeaderAgrees(f[..HEADER_SIZE], f);

    bmp.width := ReadInt32LE(header[HEADER_WIDTH_OFFSET..]);
    bmp.height := ReadInt32LE(header[HEADER_HEIGHT_OFFSET..]);
    bmp.bitsPerPixel := ReadInt16LE(header[HEADER_BITS_PER_PIXEL_OFFSET..]);
    bmp.compression := ReadInt32LE(header[HEADER_COMPRESSION_OFFSET..]);
  }

  /** The pixel part of this bmp_read: data_size bytes read from just past
      the header, which completes the load. */
  method LegacyLoadPixels(bmp: LegacyBitmap, f: seq<bv8>)
    requires |f| >= HEADER_SIZE
    requires bmp.header.Length == HEADER_SIZE && bmp.header[..] == f[..HEADER_SIZE]
    requires bmp.width == Width(f) && bmp.height == Height(f)
    requires bmp.bitsPerPixel == BitsPerPixel(f) && bmp.compression == Compression(f)
    requires bmp.dataSize == LegacyDataSize(Width(f), Height(f))
    requires HEADER_SIZE + bmp.dataSize <= |f|
    modifies bmp
    ensures fresh(bmp.data) && bmp.header == old(bmp.header) && bmp.Loaded(f)
  {
    var data := new bv8[bmp.dataSize];
    forall k | 0 <= k < bmp.dataSize {
      data[k] := f[HEADER_SIZE + k];
    }
    bmp.data := data;
    assert bmp.data[..] == f[HEADER_SIZE..HEADER_SIZE + bmp.dataSize];
  }

  /** bmp_write of src/bmp.c: 1 for a NULL struct or file name. Otherwise
      the four decoded fields are stored back into the header (the rest of
      it is kept), and the bytes written are the header followed by the
      pixel array. */
  method LegacyBmpWrite(bmp: LegacyBitmap?, outputFileName: Option<string>) returns (status: int, written: seq<bv8>)
    requires bmp != null ==> bmp.Valid()
    modifies if bmp != null then {bmp.header} else {}
    ensures bmp == null || outputFileName.None? ==> status == 1 && written == []
    // a missing file name returns before the header is touched
    ensures bmp != null && outputFileName.None? ==> unchanged(bmp.header)
    ensures bmp != null && outputFileName.Some? ==>
      && status == 0
      && Width(bmp.header[..]) == bmp.width && Height(bmp.header[..]) == bmp.height
      && BitsPerPixel(bmp.header[..]) == bmp.bitsPerPixel && Compression(bmp.header[..]) == bmp.compression
      && (forall k :: OutsideStoredFields(k) ==> bmp.header[k] == old(bmp.header[k]))
      && written == bmp.header[..] + bmp.data[..]
  {
    if outputFileName.None? || bmp == null {
      return 1, [];
    }
    StoreFields(bmp.header, bmp.width, bmp.height, bmp.bitsPerPixel, bmp.compression);

    written := bmp.header[..] + bmp.data[..];
    status := 0;
  }

  /** The bytes this bmp_write emits for a file this bmp_read accepted are
      the file's first 54 + data_size bytes, which are accepted again and
      hold the same header and the same pixel array. */
  lemma LegacyReadOfWritten(f: seq<bv8>)
    requires LegacyReadAccepts(f)
    ensures var size := LegacyDataSize(Width(f), Height(f));
            var written := f[..HEADER_SIZE] + f[HEADER_SIZE..HEADER_SIZE + size];
            && written == f[..HEADER_SIZE + size]
            && written[..HEADER_SIZE] == f[..HEADER_SIZE]
            && Width(written) == Width(f) && Height(written) == Height(f)
            && LegacyReadAccepts(written)
            && written[HEADER_SIZE..HEADER_SIZE + size] == f[HEADER_SIZE..HEADER_SIZE + size]
  {
    var size := LegacyDataSize(Width(f), Height(f));
    var written := f[..HEADER_SIZE] + f[HEADER_SIZE..HEADER_SIZE + size];
    assert written == f[..HEADER_SIZE + size];
    assert written[..HEADER_SIZE] == f[..HEADER_SIZE];
    HeaderAgrees(written, f);
  }
}
