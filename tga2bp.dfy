/**
  tga2bp: a one-shot tool that checks a 24- or 32-bit TGA file, samples a
  16-entry palette from the first stored row, then dumps width * (height - 8)
  pixels, starting at pixel 1024, as the three bytes R, G, B (the raw.img
  file); that is the whole rest of the image only when the width is 128. Its globals
  (the packed header struct, the raster pointer and palette[16]) are the
  fields of a Converter; `main` from fopen on is Converter.Run.
*/
module Tga2Bp {
  import opened Wrappers
  import opened Bytes
  import opened Arith
  import opened TgaHeader
  import opened Pixels
  import opened Files

  /** struct pixel_t: the three colour bytes of a stored pixel, in storage order. */
  datatype Pixel = Pixel(b: Byte, g: Byte, r: Byte)

  const PaletteSize := 16

  /** 8*8*16: the pixels of the 16 palette tiles, skipped before the dump. */
  const SkippedPixels := 8 * 8 * 16

  /** Why main returned -1 after opening the file. */
  datatype Abort =
    | CannotOpen                    // fopen failed
    | Rejected(reason: HeaderError) // one of the three header checks failed
    | RasterTruncated(read: nat)    // fread delivered fewer than bytesToRead bytes

  /** How main ends: the bytes written to raw.img, or the reason it aborted. */
  datatype Status = Done(dump: seq<Byte>) | Aborted(reason: Abort)

  /** attrByteSkip: 1 for a 32-bit image, whose pixels carry an attribute byte, else 0. */
  function AttrByteSkip(h: Header): (skip: nat)
    ensures skip <= 1
    ensures h.pixelDepth == 32 <==> skip == 1
  {
    if h.pixelDepth == 32 then 1 else 0
  }

  /** The advance after each palette sample: 3 bytes read, the attribute byte, 7 more pixels. */
  function SampleAdvance(h: Header): nat {
    3 + AttrByteSkip(h) + 7 * h.pixelDepth / 8
  }

  /** For the two supported depths the advance is exactly 8 pixels. */
  lemma SampleAdvanceIsEightPixels(h: Header)
    requires SupportedDepth(h)
    ensures SampleAdvance(h) == 8 * BytesPerPixel(h) == 8 * Stride(h.pixelDepth == 32)
  {
  }

  /** At depth 16 the advance is 17 bytes, not 8 pixels of 2 bytes: the stride law needs the supported depths. */
  lemma SampleAdvanceAtDepth16(h: Header)
    requires h.pixelDepth == 16
    ensures SampleAdvance(h) == 17 && 8 * BytesPerPixel(h) == 16
  {
  }

  /** The header struct after its fread from the start of the file, which may be shorter than 18 bytes. */
  function HeaderOf(file: seq<Byte>, before: Header): Header {
    Decode(BufferAfterRead(file, Encode(before)))
  }

  /** A file of at least 18 bytes gives its own first 18 bytes, whatever the struct held before. */
  lemma HeaderOfFullFile(file: seq<Byte>, before: Header)
    requires |file| >= HeaderSize
    ensures HeaderOf(file, before) == Decode(file[..HeaderSize])
  {
    assert BufferAfterRead(file, Encode(before)) == file[..HeaderSize];
  }

  /**
    The header fread is not checked: a 16-byte file with valid fields leaves
    the zero-initialised depth and descriptor in place and passes all three
    checks, with a raster of 0 bytes.
  */
  lemma ShortFileAccepted()
    ensures var file := [0, 0, 2, 0, 0, 0, 0, 0, 0, 0, 0, 0, 0x80, 0, 0x10, 0];
      var h := HeaderOf(file, Decode(seq(HeaderSize, _ => 0)));
      && |file| == 16 && Acceptable(h) && h.pixelDepth == 0 && RasterSize(h) == 0
  {
    var file: seq<Byte> := [0, 0, 2, 0, 0, 0, 0, 0, 0, 0, 0, 0, 0x80, 0, 0x10, 0];
    var zero: seq<Byte> := seq(HeaderSize, _ => 0);
    DecodeEncode(Decode(zero));
    EncodeDecode(zero);
    var bytes := BufferAfterRead(file, zero);
    assert bytes[WidthAt] == 0x80 && bytes[WidthAt + 1] == 0;
    assert bytes[HeightAt] == 0x10 && bytes[HeightAt + 1] == 0;
    assert bytes[PixelDepthAt] == 0;
  }

  /** Where the raster fread starts: after the header bytes read and the fseek past the ID and colour map. */
  function DataStart(file: seq<Byte>, h: Header): nat {
    (if |file| < HeaderSize then |file| else HeaderSize) + SkipLength(h)
  }

  /** What main does with a file, and the error it stops with; None when it gets to the loops. */
  ghost function Outcome(contents: Option<seq<Byte>>, before: Header): (e: Option<Abort>)
    ensures e == Some(CannotOpen) <==> contents.None?
    ensures e.Some? && e.value.Rejected? <==> contents.Some? && !Acceptable(HeaderOf(contents.value, before))
    ensures e.Some? && e.value.Rejected? ==> Check(HeaderOf(contents.value, before)) == Some(e.value.reason)
    ensures e == None <==>
      && contents.Some? && Acceptable(HeaderOf(contents.value, before))
      && ReadCount(contents.value, DataStart(contents.value, HeaderOf(contents.value, before)),
                   RasterSize(HeaderOf(contents.value, before))) == RasterSize(HeaderOf(contents.value, before))
    ensures e.Some? && e.value.RasterTruncated? ==>
      e.value.read < RasterSize(HeaderOf(contents.value, before))
      && DataStart(contents.value, HeaderOf(contents.value, before)) + e.value.read >= |contents.value|
  {
    match contents
    case None => Some(CannotOpen)
    case Some(file) =>
      var h := HeaderOf(file, before);
      match Check(h)
      case Some(reason) => Some(Rejected(reason))
      case None =>
        var n := ReadCount(file, DataStart(file, h), RasterSize(h));
        if n < RasterSize(h) then Some(RasterTruncated(n)) else None
  }

  /** A raster of a supported depth holds width * height pixels of Stride bytes. */
  lemma RasterHoldsPixels(h: Header)
    requires SupportedDepth(h)
    ensures RasterSize(h) == PixelStart(h.pixelDepth == 32, h.width * h.height)
  {
    if h.pixelDepth == 24 {
      assert RasterSize(h) == 3 * (h.width * h.height);
    } else {
      assert RasterSize(h) == 4 * (h.width * h.height);
    }
  }

  /** Palette sample i: the stored pixel at column 8i of the first row. */
  function Sample(raster: seq<Byte>, skip: bool, i: nat): Pixel
    requires PixelStart(skip, 8 * i) + 3 <= |raster|
  {
    var at := PixelStart(skip, 8 * i);
    Pixel(raster[at], raster[at + 1], raster[at + 2])
  }

  /** The 16 palette samples. */
  function Samples(raster: seq<Byte>, skip: bool): (ps: seq<Pixel>)
    requires PixelStart(skip, 8 * (PaletteSize - 1)) + 3 <= |raster|
    ensures |ps| == PaletteSize
  {
    seq(PaletteSize, i requires 0 <= i < PaletteSize => Sample(raster, skip, i))
  }

  /**
    With the minimum width of 128 the last sample, column 120, ends inside the
    first stored row, so every sample is a pixel of that row.
  */
  lemma SamplesInFirstRow(h: Header)
    requires Acceptable(h) && SupportedDepth(h)
    ensures 8 * (PaletteSize - 1) < h.width
    ensures PixelStart(h.pixelDepth == 32, 8 * (PaletteSize - 1)) + 3 <= PixelStart(h.pixelDepth == 32, h.width)
    ensures PixelStart(h.pixelDepth == 32, h.width) <= RasterSize(h)
  {
    RasterHoldsPixels(h);
    MulMono(h.width, h.width, h.height, 1);
  }

  /** The three bytes fputc writes for pixel i: its stored B, G, R in the order R, G, B. */
  function Rgb(raster: seq<Byte>, skip: bool, i: nat): seq<Byte>
    requires PixelStart(skip, i) + 3 <= |raster|
  {
    var at := PixelStart(skip, i);
    [raster[at + 2], raster[at + 1], raster[at]]
  }

  /** The dump of the n pixels from pixel `first` on, three bytes each. */
  function Dump(raster: seq<Byte>, skip: bool, first: nat, n: nat): (out: seq<Byte>)
    requires PixelStart(skip, first + n) <= |raster|
    ensures |out| == 3 * n
  {
    if n == 0 then [] else Dump(raster, skip, first, n - 1) + Rgb(raster, skip, first + n - 1)
  }

  /** Bytes 3k, 3k+1 and 3k+2 of the dump are the R, G and B bytes of pixel first + k. */
  lemma {:induction false} DumpAt(raster: seq<Byte>, skip: bool, first: nat, n: nat, k: nat)
    requires PixelStart(skip, first + n) <= |raster| && k < n
    ensures PixelStart(skip, first + k) + 3 <= |raster|
    ensures var out, at := Dump(raster, skip, first, n), PixelStart(skip, first + k);
      out[3 * k] == raster[at + 2] && out[3 * k + 1] == raster[at + 1] && out[3 * k + 2] == raster[at]
  {
    if k < n - 1 {
      DumpAt(raster, skip, first, n - 1, k);
    }
  }

  /**
    Reducing a dumped triple with toBGR8 gives the colour tga2sms computes
    for the same pixel: the dump keeps every colour byte of the pixels it covers.
  */
  lemma DumpQuantised(raster: seq<Byte>, skip: bool, first: nat, n: nat, k: nat)
    requires PixelStart(skip, first + n) <= |raster| && k < n
    ensures var out := Dump(raster, skip, first, n);
      Colour.ToBgr8(out[3 * k], out[3 * k + 1], out[3 * k + 2]) == Quantised(raster, skip, first, n)[k]
  {
    DumpAt(raster, skip, first, n, k);
    QuantisedAt(raster, skip, first, n, k, PixelStart(skip, first + k));
  }

  /** The number of pixels dumped: width * (height - 8). */
  function DumpCount(h: Header): nat
    requires h.height >= TileHeight
  {
    h.width * (h.height - TileHeight)
  }

  /**
    The dump stays inside the raster exactly when the width is at least 128:
    the fixed skip of 1024 pixels is at most the 8 rows it stands for.
  */
  lemma DumpInside(h: Header)
    requires h.height >= TileHeight
    ensures SkippedPixels + DumpCount(h) <= h.width * h.height <==> h.width >= MinRasterWidth
  {
    assert h.width * h.height == h.width * (h.height - TileHeight) + 8 * h.width;
  }

  /**
    The skip of 1024 pixels is exactly the 8-row palette band only when the
    width is 128; for wider images the dump starts inside row 8.
  */
  lemma SkipIsPaletteBand(h: Header)
    ensures SkippedPixels == h.width * TileHeight <==> h.width == MinRasterWidth
  {
  }

  class Converter {
    /** The packed header struct tgaHeader. */
    var header: Header
    /** The raster fread fills; empty before the allocation. */
    var raster: array<Byte>
    /** palette[16]. */
    const palette: array<Pixel>

    predicate Valid() {
      palette.Length == PaletteSize
    }

    /** The zero-initialised globals. */
    constructor ()
      ensures Valid()
      ensures header == Decode(seq(HeaderSize, _ => 0))
      ensures raster.Length == 0
      ensures palette[..] == seq(PaletteSize, _ => Pixel(0, 0, 0))
      ensures fresh(palette)
    {
      header := Decode(seq(HeaderSize, _ => 0));
      raster := new Byte[0];
      palette := new Pixel[PaletteSize](_ => Pixel(0, 0, 0));
    }

    /** The palette loop: 16 samples, 8 pixels apart, from the start of the raster. */
    method SamplePalette(attrByteSkip: nat)
      requires Valid() && Acceptable(header) && SupportedDepth(header)
      requires attrByteSkip == AttrByteSkip(header)
      requires raster.Length == RasterSize(header)
      modifies palette
      ensures PixelStart(header.pixelDepth == 32, 8 * (PaletteSize - 1)) + 3 <= raster.Length
      ensures palette[..] == Samples(raster[..], header.pixelDepth == 32)
    {
      SamplesInFirstRow(header);
      SampleAdvanceIsEightPixels(header);
      ghost var skip := header.pixelDepth == 32;
      var offset := 0;
      for i := 0 to PaletteSize
        invariant offset == PixelStart(skip, 8 * i)
        invariant forall j :: 0 <= j < i ==> palette[j] == Sample(raster[..], skip, j)
      {
        palette[i] := Pixel(raster[offset], raster[offset + 1], raster[offset + 2]);
        offset := offset + 3;
        offset := offset + attrByteSkip;
        offset := offset + 7 * header.pixelDepth / 8;
      }
      assert palette[..] == Samples(raster[..], skip);
    }

    /** The dump loop: from pixel 1024 on, width * (height - 8) pixels written as R, G, B. */
    method Extract(attrByteSkip: nat) returns (dump: seq<Byte>)
      requires Acceptable(header) && SupportedDepth(header)
      requires attrByteSkip == AttrByteSkip(header)
      requires raster.Length == RasterSize(header)
      ensures PixelStart(header.pixelDepth == 32, SkippedPixels + DumpCount(header)) <= raster.Length
      ensures dump == Dump(raster[..], header.pixelDepth == 32, SkippedPixels, DumpCount(header))
    {
      RasterHoldsPixels(header);
      DumpInside(header);
      ghost var skip := header.pixelDepth == 32;
      var offset := 8 * 8 * 16 * (header.pixelDepth / 8);
      var n := header.width * (header.height - 8);
      dump := [];
      for i := 0 to n
        invariant offset == PixelStart(skip, SkippedPixels + i)
        invariant dump == Dump(raster[..], skip, SkippedPixels, i)
      {
        var b := raster[offset];
        var g := raster[offset + 1];
        var r := raster[offset + 2];
        offset := offset + 3;
        offset := offset + attrByteSkip;
        dump := dump + [r, g, b];
      }
    }

    /** fread of the raster: as many of raster.Length bytes as the file holds from `start` on. */
    method ReadRaster(file: seq<Byte>, start: nat) returns (bytesRead: nat)
      modifies raster
      ensures bytesRead == ReadCount(file, start, raster.Length)
      ensures raster[..bytesRead] == ReadBytes(file, start, raster.Length)
      ensures raster[bytesRead..] == old(raster[bytesRead..])
    {
      bytesRead := ReadCount(file, start, raster.Length);
      forall i | 0 <= i < bytesRead {
        raster[i] := file[start + i];
      }
    }

    /**
      The part of main that reads the file: the header fread, whose count is
      not checked, the three header checks, the fseek past the image ID and
      colour map, and the raster fread.
    */
    method Load(file: seq<Byte>) returns (abort: Option<Abort>)
      modifies this
      ensures header == HeaderOf(file, old(header))
      ensures abort == Outcome(Some(file), old(header))
      ensures Acceptable(header) ==>
        && fresh(raster) && raster.Length == RasterSize(header)
        && raster[..ReadCount(file, DataStart(file, header), RasterSize(header))]
           == ReadBytes(file, DataStart(file, header), RasterSize(header))
      ensures !Acceptable(header) ==> raster == old(raster)
    {
      header := Decode(BufferAfterRead(file, Encode(header)));
      if header.colorMapType != 0 || header.imageType != 2 {
        return Some(Rejected(IndexedOrCompressed));
      }
      if header.width % 8 != 0 || header.height % 8 != 0 {
        return Some(Rejected(NotTileMultiple));
      }
      if header.width < 128 || header.height < 16 {
        return Some(Rejected(TooSmall));
      }
      assert Check(header) == None;
      var start := (if |file| < HeaderSize then |file| else HeaderSize) + header.idLength + header.colorMapLength;
      assert start == DataStart(file, header);
      var bytesToRead := RasterSize(header);
      raster := new Byte[bytesToRead];
      var bytesRead := ReadRaster(file, start);
      assert bytesRead == ReadCount(file, DataStart(file, header), RasterSize(header));
      if bytesRead < bytesToRead {
        return Some(RasterTruncated(bytesRead));
      }
      return None;
    }

    /**
      main from fopen on: `contents` is the file, or None when it cannot be
      opened. After Load, the palette is sampled and the rest of the image
      dumped.
    */
    method Run(contents: Option<seq<Byte>>) returns (status: Status)
      requires Valid()
      requires contents.Some? && Acceptable(HeaderOf(contents.value, header)) ==>
        SupportedDepth(HeaderOf(contents.value, header))
      modifies this, palette
      ensures Valid()
      ensures status.Aborted? <==> Outcome(contents, old(header)).Some?
      ensures status.Aborted? ==> status.reason == Outcome(contents, old(header)).value
      ensures contents.Some? ==> header == HeaderOf(contents.value, old(header))
      ensures status.Aborted? ==> palette[..] == old(palette[..])
      ensures status.Done? ==>
        var file := contents.value;
        var skip := header.pixelDepth == 32;
        && Acceptable(header) && SupportedDepth(header)
        && raster[..] == ReadBytes(file, DataStart(file, header), RasterSize(header))
        && PixelStart(skip, 8 * (PaletteSize - 1)) + 3 <= raster.Length
        && palette[..] == Samples(raster[..], skip)
        && PixelStart(skip, SkippedPixels + DumpCount(header)) <= raster.Length
        && status.dump == Dump(raster[..], skip, SkippedPixels, DumpCount(header))
    {
      if contents.None? {
        return Aborted(CannotOpen);
      }
      var abort := Load(contents.value);
      if abort.Some? {
        return Aborted(abort.value);
      }
      assert raster[..] == raster[..RasterSize(header)];
      var attrByteSkip := if header.pixelDepth == 32 then 1 else 0;
      SamplePalette(attrByteSkip);
      var dump := Extract(attrByteSkip);
      return Done(dump);
    }
  }
}
