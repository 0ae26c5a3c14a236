/**
  The fixed 18-byte header of a Truevision TGA 2.0 file (fields 1 to 5 of the
  format), and the acceptance checks both converters apply to it.
  tga2sms.cpp reads the header into a byte array and decodes words with
  read_word; tga2bp.c reads it into a packed struct. Both are modelled here by
  explicit little-endian decoding at the named offsets.
*/
module TgaHeader {
  import opened Wrappers
  import opened Bytes
  import opened Arith

  const HeaderSize := 18
  const TileWidth := 8
  const TileHeight := 8
  const MinRasterWidth := 128
  const MinRasterHeight := 16

  // Offsets of the header fields
  const IdLengthAt := 0x00
  const ColMapTypeAt := 0x01
  const ImageTypeAt := 0x02
  const ColMapStartAt := 0x03
  const ColMapLengthAt := 0x05
  const ColMapDepthAt := 0x07
  const XOffsetAt := 0x08
  const YOffsetAt := 0x0A
  const WidthAt := 0x0C
  const HeightAt := 0x0E
  const PixelDepthAt := 0x10
  const ImageDescrAt := 0x11

  /**
    read_word: the byte at `at` ORed with the next byte shifted left by 8.
    The two fields do not overlap, so the OR is a sum (ReadWordIsBitwise).
  */
  function ReadWord(bytes: seq<Byte>, at: nat): (w: Word)
    requires at + 2 <= |bytes|
    ensures w % 0x100 == bytes[at] && w / 0x100 == bytes[at + 1]
  {
    bytes[at] as int + bytes[at + 1] as int * 0x100
  }

  /** The arithmetic ReadWord is the source's bitwise expression on BYTE and WORD. */
  lemma ReadWordIsBitwise(lo: bv8, hi: bv8)
    ensures ReadWord([lo as int, hi as int], 0) == ((lo as bv16) | ((hi as bv16) << 8)) as int
  {
  }

  /** The two bytes of a word, low byte first: the inverse of ReadWord. */
  function WordBytes(w: Word): (b: seq<Byte>)
    ensures |b| == 2 && ReadWord(b, 0) == w
  {
    [w % 0x100, w / 0x100]
  }

  lemma WordBytesOfRead(bytes: seq<Byte>, at: nat)
    requires at + 2 <= |bytes|
    ensures WordBytes(ReadWord(bytes, at)) == bytes[at..at + 2]
  {
  }

  datatype Header = Header(
    idLength: Byte,
    colorMapType: Byte,
    imageType: Byte,
    colorMapStart: Word,
    colorMapLength: Word,
    colorMapDepth: Byte,
    xOffset: Word,
    yOffset: Word,
    width: Word,
    height: Word,
    pixelDepth: Byte,
    imageDescriptor: Byte)

  /** Field-by-field decoding of the 18 header bytes. */
  function Decode(bytes: seq<Byte>): (h: Header)
    requires |bytes| == HeaderSize
  {
    Header(
      bytes[IdLengthAt], bytes[ColMapTypeAt], bytes[ImageTypeAt],
      ReadWord(bytes, ColMapStartAt), ReadWord(bytes, ColMapLengthAt),
      bytes[ColMapDepthAt],
      ReadWord(bytes, XOffsetAt), ReadWord(bytes, YOffsetAt),
      ReadWord(bytes, WidthAt), ReadWord(bytes, HeightAt),
      bytes[PixelDepthAt], bytes[ImageDescrAt])
  }

  /** The header laid out as the 18 bytes a TGA file starts with. */
  function Encode(h: Header): (bytes: seq<Byte>)
    ensures |bytes| == HeaderSize
  {
    [h.idLength, h.colorMapType, h.imageType]
    + WordBytes(h.colorMapStart) + WordBytes(h.colorMapLength)
    + [h.colorMapDepth]
    + WordBytes(h.xOffset) + WordBytes(h.yOffset)
    + WordBytes(h.width) + WordBytes(h.height)
    + [h.pixelDepth, h.imageDescriptor]
  }

  /** A word laid out at `at` reads back as that word. */
  lemma ReadWordOfBytes(bytes: seq<Byte>, at: nat, w: Word)
    requires at + 2 <= |bytes| && bytes[at..at + 2] == WordBytes(w)
    ensures ReadWord(bytes, at) == w
  {
    assert bytes[at] == bytes[at..at + 2][0] && bytes[at + 1] == bytes[at..at + 2][1];
  }

  lemma DecodeEncode(h: Header)
    ensures Decode(Encode(h)) == h
  {
    var b := Encode(h);
    assert b[0] == h.idLength && b[1] == h.colorMapType && b[2] == h.imageType;
    assert b[7] == h.colorMapDepth && b[16] == h.pixelDepth && b[17] == h.imageDescriptor;
    assert b[3..5] == WordBytes(h.colorMapStart);
    assert b[5..7] == WordBytes(h.colorMapLength);
    assert b[8..10] == WordBytes(h.xOffset);
    assert b[10..12] == WordBytes(h.yOffset);
    assert b[12..14] == WordBytes(h.width);
    assert b[14..16] == WordBytes(h.height);
    ReadWordOfBytes(b, ColMapStartAt, h.colorMapStart);
    ReadWordOfBytes(b, ColMapLengthAt, h.colorMapLength);
    ReadWordOfBytes(b, XOffsetAt, h.xOffset);
    ReadWordOfBytes(b, YOffsetAt, h.yOffset);
    ReadWordOfBytes(b, WidthAt, h.width);
    ReadWordOfBytes(b, HeightAt, h.height);
  }

  lemma EncodeDecode(bytes: seq<Byte>)
    requires |bytes| == HeaderSize
    ensures Encode(Decode(bytes)) == bytes
  {
    WordBytesOfRead(bytes, ColMapStartAt);
    WordBytesOfRead(bytes, ColMapLengthAt);
    WordBytesOfRead(bytes, XOffsetAt);
    WordBytesOfRead(bytes, YOffsetAt);
    WordBytesOfRead(bytes, WidthAt);
    WordBytesOfRead(bytes, HeightAt);
    var e := Encode(Decode(bytes));
    forall i | 0 <= i < HeaderSize ensures e[i] == bytes[i] {
      if 3 <= i < 5 { assert e[3..5] == bytes[3..5]; assert e[i] == e[3..5][i - 3]; }
      else if 5 <= i < 7 { assert e[5..7] == bytes[5..7]; assert e[i] == e[5..7][i - 5]; }
      else if 8 <= i < 10 { assert e[8..10] == bytes[8..10]; assert e[i] == e[8..10][i - 8]; }
      else if 10 <= i < 12 { assert e[10..12] == bytes[10..12]; assert e[i] == e[10..12][i - 10]; }
      else if 12 <= i < 14 { assert e[12..14] == bytes[12..14]; assert e[i] == e[12..14][i - 12]; }
      else if 14 <= i < 16 { assert e[14..16] == bytes[14..16]; assert e[i] == e[14..16][i - 14]; }
    }
  }

  /** One constructor per rejection, in the order the checks are made. */
  datatype HeaderError =
    | IndexedOrCompressed   // colour-map type is not 0 or image type is not 2
    | NotTileMultiple       // width or height is not a multiple of 8
    | TooSmall              // width below 128 or height below 16

  ghost predicate UncompressedTruecolor(h: Header) {
    h.colorMapType == 0 && h.imageType == 2
  }

  ghost predicate TileAligned(h: Header) {
    h.width % TileWidth == 0 && h.height % TileHeight == 0
  }

  ghost predicate LargeEnough(h: Header) {
    h.width >= MinRasterWidth && h.height >= MinRasterHeight
  }

  /** The header invariant an accepted image satisfies. */
  ghost predicate Acceptable(h: Header) {
    UncompressedTruecolor(h) && TileAligned(h) && LargeEnough(h)
  }

  /** The three checks, in order; None when the header is accepted. */
  function Check(h: Header): (e: Option<HeaderError>)
    ensures e == None <==> Acceptable(h)
    ensures e == Some(IndexedOrCompressed) <==> !UncompressedTruecolor(h)
    ensures e == Some(NotTileMultiple) <==> UncompressedTruecolor(h) && !TileAligned(h)
    ensures e == Some(TooSmall) <==> UncompressedTruecolor(h) && TileAligned(h) && !LargeEnough(h)
  {
    if h.colorMapType != 0 || h.imageType != 2 then Some(IndexedOrCompressed)
    else if h.width % TileWidth != 0 || h.height % TileHeight != 0 then Some(NotTileMultiple)
    else if h.width < MinRasterWidth || h.height < MinRasterHeight then Some(TooSmall)
    else None
  }

  /** Number of bytes (ID field and colour map) between the header and the raster. */
  function SkipLength(h: Header): nat {
    h.idLength + h.colorMapLength
  }

  /** Bytes per stored pixel, as the raster-size computation sees it. */
  function BytesPerPixel(h: Header): nat {
    h.pixelDepth / 8
  }

  /** Whether the two supported depths are used (neither program checks this). */
  ghost predicate SupportedDepth(h: Header) {
    h.pixelDepth == 24 || h.pixelDepth == 32
  }

  /**
    The raster byte count pixelDepth/8 * width * height, computed exactly.
    The programs compute it in C int arithmetic; see RasterSizeInt and
    RasterSizeDword.
  */
  function RasterSize(h: Header): nat {
    BytesPerPixel(h) * h.width * h.height
  }

  /** The first value a 32-bit signed int cannot hold. */
  const IntLimit := 0x8000_0000

  /** The first product, pixelDepth/8 * width, is at most 31 * 65535 and always fits an int. */
  lemma RowBytesFitInt(h: Header)
    ensures BytesPerPixel(h) * h.width < IntLimit
  {
    MulMono(31, BytesPerPixel(h), 0xFFFF, h.width);
  }

  /**
    The raster byte count as the C expression computes it: the BYTE quotient
    and the WORD operands are promoted to int, so the product is a signed
    32-bit int. Signed overflow is undefined in C and C++; None stands for it.
  */
  function RasterSizeInt(h: Header): (r: Option<nat>)
    ensures r.Some? <==> RasterSize(h) < IntLimit
    ensures r.Some? ==> r.value == RasterSize(h)
  {
    RowBytesFitInt(h);
    var rowBytes := BytesPerPixel(h) * h.width;
    var product := rowBytes * h.height;
    assert product == RasterSize(h);
    if product < IntLimit then Some(product) else None
  }

  /**
    Where the int product is defined, the other int products of the loops
    (width * height, width * actual_height, width * (height - 8)) are
    defined too: for depth 24 or 32 each is at most a third of the raster size.
  */
  lemma PixelCountsFitInt(h: Header, rows: nat)
    requires SupportedDepth(h) && RasterSizeInt(h).Some? && rows <= h.height
    ensures h.width * rows < IntLimit
  {
    MulLeft(h.width, rows, h.height);
    assert RasterSize(h) == BytesPerPixel(h) * (h.width * h.height);
    MulLeft(h.width * h.height, 1, BytesPerPixel(h));
  }

  /**
    The depth condition is needed: an accepted depth-0 header of 65528 x 65528
    has a defined size product of 0, while width * height exceeds an int.
  */
  lemma PixelCountsNeedDepth()
    ensures var h := Header(0, 0, 2, 0, 0, 0, 0, 0, 65528, 65528, 0, 0);
      && Check(h) == None
      && RasterSizeInt(h) == Some(0)
      && h.width * h.height >= IntLimit
  {
    var h := Header(0, 0, 2, 0, 0, 0, 0, 0, 65528, 65528, 0, 0);
    assert RasterSize(h) == 0 * 65528 * 65528;
  }

  /**
    The raster byte count as a build whose int arithmetic wraps (two's
    complement) leaves it once the product is stored in the DWORD: modulo 2^32.
  */
  function RasterSizeDword(h: Header): (n: nat)
    ensures n < 0x1_0000_0000
    ensures RasterSizeInt(h).Some? ==> n == RasterSizeInt(h).value
  {
    RasterSize(h) % 0x1_0000_0000
  }

  /** On a wrapping build the stored size is exact for every raster below 4 GiB. */
  lemma RasterSizeDwordExact(h: Header)
    requires RasterSize(h) < 0x1_0000_0000
    ensures RasterSizeDword(h) == RasterSize(h)
  {
  }

  /**
    An accepted 32-bit 32768 x 32768 header: its int product overflows, and
    a wrapping build stores 0, although the raster holds 4 GiB.
  */
  lemma RasterSizeDwordWraps()
    ensures var h := Header(0, 0, 2, 0, 0, 0, 0, 0, 32768, 32768, 32, 0);
      && Check(h) == None
      && RasterSize(h) == 0x1_0000_0000
      && RasterSizeInt(h) == None
      && RasterSizeDword(h) == 0
  {
    var h := Header(0, 0, 2, 0, 0, 0, 0, 0, 32768, 32768, 32, 0);
    assert RasterSize(h) == 4 * 32768 * 32768;
  }

  /**
    The exact raster size holds every pixel's bytes: pixel i of the
    width * height pixels occupies bytes bpp*i to bpp*i + bpp - 1.
  */
  lemma RasterSizeHoldsPixels(h: Header, i: nat)
    requires i < h.width * h.height
    ensures BytesPerPixel(h) * i + BytesPerPixel(h) <= RasterSize(h)
  {
    var b := BytesPerPixel(h);
    assert b * i + b == b * (i + 1);
    var n := h.width * h.height;
    MulLeft(b, i + 1, n);
    assert b * n == RasterSize(h);
  }

  /** An accepted header with a supported depth has a raster of at least 128 x 16 pixels. */
  lemma AcceptedRasterSize(h: Header)
    requires Acceptable(h) && SupportedDepth(h)
    ensures BytesPerPixel(h) == (if h.pixelDepth == 32 then 4 else 3)
    ensures RasterSize(h) >= BytesPerPixel(h) * MinRasterWidth * MinRasterHeight
  {
    var w: int, ht: int := h.width, h.height;
    MulMono(w, MinRasterWidth, ht, MinRasterHeight);
    MulLeft(BytesPerPixel(h), MinRasterWidth * MinRasterHeight, w * ht);
  }
}
