/**
  tga2sms: the TGA_File object. It holds the header bytes, the raw raster,
  four quantised planes (original, x-mirrored, y-mirrored and mirrored along
  both axes) and the 16-slot colour palette, and updates them in place.
*/
module Tga2Sms {
  import opened Wrappers
  import opened Bytes
  import opened Arith
  import opened TgaHeader
  import opened Colour
  import Palette
  import opened Planes
  import opened Pixels
  import opened Files

  /** Why loadFromFile returned false; the source reports these as message strings. */
  datatype LoadError =
    | CannotOpen                    // fopen failed
    | HeaderTruncated(read: nat)    // fewer than 18 header bytes; how many were read
    | Rejected(reason: HeaderError) // one of the three header checks failed
    | RasterTruncated(read: nat)    // fewer raster bytes than sizeOfRaster; how many were read

  /** The distinct values in a plane. */
  function Values(s: seq<Byte>): set<Byte> {
    set v | v in s
  }

  /** A set of bytes has at most 256 members. */
  lemma ByteSetBound(s: set<Byte>)
    ensures |s| <= 0x100
  {
    BytesBelowBound(s, 0x100);
    assert (set v | v in s && v < 0x100) == s;
  }

  lemma {:induction false} BytesBelowBound(s: set<Byte>, n: nat)
    requires n <= 0x100
    ensures |set v | v in s && v < n| <= n
  {
    if n > 0 {
      BytesBelowBound(s, n - 1);
      var x: Byte := n - 1;
      var a := set v | v in s && v < n - 1;
      var b := set v | v in s && v < n;
      if x in s {
        assert b == a + {x};
      } else {
        assert b == a;
      }
    }
  }

  /** The values of a prefix grow by one element at a time. */
  lemma ValuesStep(s: seq<Byte>, i: nat)
    requires i < |s|
    ensures Values(s[..i + 1]) == Values(s[..i]) + {s[i]}
  {
    assert s[..i + 1] == s[..i] + [s[i]];
  }

  /** The allocation of the three mirror planes in to8bits, filled by the mirroring loop. */
  method MirroredPlanes(p0: array<Byte>, w: nat, h: nat) returns (p1: array<Byte>, p2: array<Byte>, p3: array<Byte>)
    requires p0.Length == w * h
    ensures fresh(p1) && fresh(p2) && fresh(p3)
    ensures p1[..] == FlipH(p0[..], w, h)
    ensures p2[..] == FlipV(p0[..], w, h)
    ensures p3[..] == FlipHV(p0[..], w, h)
  {
    p1 := new Byte[w * h];
    p2 := new Byte[w * h];
    p3 := new Byte[w * h];
    MirrorPlanes(p0, p1, p2, p3, w, h);
  }

  /**
    The mirroring loop of to8bits: pixel (x, y) of p0 is written to
    (w-1-x, y) of p1, to (x, h-1-y) of p2 and to (w-1-x, h-1-y) of p3.
  */
  method MirrorPlanes(p0: array<Byte>, p1: array<Byte>, p2: array<Byte>, p3: array<Byte>, w: nat, h: nat)
    requires p0.Length == w * h && p1.Length == w * h && p2.Length == w * h && p3.Length == w * h
    requires p1 != p0 && p2 != p0 && p3 != p0 && p1 != p2 && p1 != p3 && p2 != p3
    modifies p1, p2, p3
    ensures p1[..] == FlipH(p0[..], w, h)
    ensures p2[..] == FlipV(p0[..], w, h)
    ensures p3[..] == FlipHV(p0[..], w, h)
  {
    ghost var f1, f2, f3 := FlipH(p0[..], w, h), FlipV(p0[..], w, h), FlipHV(p0[..], w, h);
    ghost var top, bottom := 0, w * h;
    for y := 0 to h
      invariant top == y * w && bottom == (h - y) * w
      invariant forall k :: 0 <= k < top ==> p1[k] == f1[k]
      invariant forall k :: bottom <= k < w * h ==> p2[k] == f2[k] && p3[k] == f3[k]
    {
      RowBounds(w, h, y);
      MirrorRow(p0, p1, p2, p3, w, h, y, top, bottom - w);
      RowMirrors(p0[..], w, h, y, top, bottom - w);
      top, bottom := top + w, bottom - w;
    }
    assert top == w * h && bottom == 0;
    assert p1[..] == f1;
    assert p2[..] == f2;
    assert p3[..] == f3;
  }

  /** Row y starts at y*w, its mirror image at (h-1-y)*w, and both rows lie inside the plane. */
  lemma RowBounds(w: nat, h: nat, y: nat)
    requires y < h
    ensures (y + 1) * w == y * w + w
    ensures (h - 1 - y) * w + w == (h - y) * w
    ensures (y + 1) * w <= w * h
  {
    MulLeft(w, y + 1, h);
  }

  /**
    One pass of the inner mirroring loop: row y of p0, which starts at top,
    into the three mirrors; its mirror image row starts at bottom.
  */
  method MirrorRow(p0: array<Byte>, p1: array<Byte>, p2: array<Byte>, p3: array<Byte>, w: nat, h: nat, y: nat,
                   ghost top: int, ghost bottom: int)
    requires p0.Length == w * h && p1.Length == w * h && p2.Length == w * h && p3.Length == w * h
    requires p1 != p0 && p2 != p0 && p3 != p0 && p1 != p2 && p1 != p3 && p2 != p3
    requires y < h && top == y * w && bottom == (h - 1 - y) * w
    requires 0 <= top && top + w <= w * h && 0 <= bottom && bottom + w <= w * h
    modifies p1, p2, p3
    ensures forall k :: 0 <= k < p1.Length && !(top <= k < top + w) ==> p1[k] == old(p1[k])
    ensures forall k :: top <= k < top + w ==> p1[k] == p0[top + (top + w - 1 - k)]
    ensures forall k :: 0 <= k < p2.Length && !(bottom <= k < bottom + w) ==> p2[k] == old(p2[k])
    ensures forall k :: bottom <= k < bottom + w ==> p2[k] == p0[top + (k - bottom)]
    ensures forall k :: 0 <= k < p3.Length && !(bottom <= k < bottom + w) ==> p3[k] == old(p3[k])
    ensures forall k :: bottom <= k < bottom + w ==> p3[k] == p0[top + (bottom + w - 1 - k)]
  {
    for x := 0 to w
      invariant forall k :: 0 <= k < p1.Length && !(top + w - x <= k < top + w) ==> p1[k] == old(p1[k])
      invariant forall k :: top + w - x <= k < top + w ==> p1[k] == p0[top + (top + w - 1 - k)]
      invariant forall k :: 0 <= k < p2.Length && !(bottom <= k < bottom + x) ==> p2[k] == old(p2[k])
      invariant forall k :: bottom <= k < bottom + x ==> p2[k] == p0[top + (k - bottom)]
      invariant forall k :: 0 <= k < p3.Length && !(bottom + w - x <= k < bottom + w) ==> p3[k] == old(p3[k])
      invariant forall k :: bottom + w - x <= k < bottom + w ==> p3[k] == p0[top + (bottom + w - 1 - k)]
    {
      var pixel := p0[y * w + x];
      p1[y * w + (w - 1 - x)] := pixel;
      p2[(h - 1 - y) * w + x] := pixel;
      p3[(h - 1 - y) * w + (w - 1 - x)] := pixel;
    }
  }

  /** What the three mirror images hold in row y (starting at top) and row h-1-y (starting at bottom). */
  lemma RowMirrors(p: seq<Byte>, w: nat, h: nat, y: nat, top: int, bottom: int)
    requires |p| == w * h && y < h && top == y * w && bottom == (h - 1 - y) * w
    requires 0 <= top && top + w <= w * h && 0 <= bottom && bottom + w <= w * h
    ensures forall k :: top <= k < top + w ==> FlipH(p, w, h)[k] == p[top + (top + w - 1 - k)]
    ensures forall k :: bottom <= k < bottom + w ==> FlipV(p, w, h)[k] == p[top + (k - bottom)]
    ensures forall k :: bottom <= k < bottom + w ==> FlipHV(p, w, h)[k] == p[top + (bottom + w - 1 - k)]
  {
    forall k | top <= k < top + w ensures FlipH(p, w, h)[k] == p[top + (top + w - 1 - k)] {
      FlipHAt(p, w, h, y, top + w - 1 - k);
    }
    forall k | bottom <= k < bottom + w ensures FlipV(p, w, h)[k] == p[top + (k - bottom)] {
      FlipVAt(p, w, h, y, k - bottom);
    }
    forall k | bottom <= k < bottom + w ensures FlipHV(p, w, h)[k] == p[top + (bottom + w - 1 - k)] {
      FlipHVAt(p, w, h, y, bottom + w - 1 - k);
    }
  }

  /** The header a file of at least 18 bytes starts with. */
  ghost function FileHeader(file: seq<Byte>): Header
    requires |file| >= HeaderSize
  {
    Decode(file[..HeaderSize])
  }

  /** loadFromFile got past the header fetch. */
  ghost predicate HeaderRead(contents: Option<seq<Byte>>) {
    contents.Some? && |contents.value| >= HeaderSize
  }

  /** loadFromFile got past the colour-map and compression check and read width and height. */
  ghost predicate DimensionsRead(contents: Option<seq<Byte>>) {
    HeaderRead(contents) && UncompressedTruecolor(FileHeader(contents.value))
  }

  /** loadFromFile passed all three header checks and allocated the raster. */
  ghost predicate RasterAllocated(contents: Option<seq<Byte>>) {
    HeaderRead(contents) && Acceptable(FileHeader(contents.value))
  }

  /** Where the raster starts: after the header, the image ID and the colour map. */
  function RasterStart(h: Header): nat {
    HeaderSize + SkipLength(h)
  }

  /** What fread delivers for the raster: the requested count, or the rest of the file. */
  function RasterBytesRead(file: seq<Byte>, h: Header): (n: nat)
    ensures n <= RasterSize(h)
    ensures n == RasterSize(h) || RasterStart(h) + n == |file| || (n == 0 && |file| <= RasterStart(h))
    ensures n > 0 ==> RasterStart(h) + n <= |file|
  {
    ReadCount(file, RasterStart(h), RasterSize(h))
  }

  /** The bytes fread delivers for the raster. */
  function RasterBytes(file: seq<Byte>, h: Header): (r: seq<Byte>)
    ensures |r| == RasterBytesRead(file, h)
    ensures forall i :: 0 <= i < |r| ==> r[i] == file[RasterStart(h) + i]
  {
    ReadBytes(file, RasterStart(h), RasterSize(h))
  }

  /** The error loadFromFile reports for a file, or None when it returns true. */
  ghost function Outcome(contents: Option<seq<Byte>>): (e: Option<LoadError>)
    ensures e == None <==>
      && RasterAllocated(contents)
      && (RasterSize(FileHeader(contents.value)) == 0
          || RasterStart(FileHeader(contents.value)) + RasterSize(FileHeader(contents.value)) <= |contents.value|)
    ensures e == Some(CannotOpen) <==> contents.None?
    ensures (e.Some? && e.value.HeaderTruncated?) <==> contents.Some? && |contents.value| < HeaderSize
    ensures e.Some? && e.value.HeaderTruncated? ==> e.value.read == |contents.value|
    ensures e.Some? && e.value.Rejected? <==> HeaderRead(contents) && !Acceptable(FileHeader(contents.value))
    ensures e.Some? && e.value.Rejected? ==> Check(FileHeader(contents.value)) == Some(e.value.reason)
    ensures e.Some? && e.value.RasterTruncated? ==> e.value.read < RasterSize(FileHeader(contents.value))
  {
    match contents
    case None => Some(CannotOpen)
    case Some(file) =>
      if |file| < HeaderSize then Some(HeaderTruncated(|file|))
      else
        var h := FileHeader(file);
        match Check(h)
        case Some(reason) => Some(Rejected(reason))
        case None =>
          var n := RasterBytesRead(file, h);
          if n < RasterSize(h) then Some(RasterTruncated(n)) else None
  }

  /** One more colour scanned: the palette after i + 1 colours is the one after i, assigned colours[i]. */
  lemma ScanStep(before: seq<Word>, colours: seq<Byte>, i: nat, c: Byte)
    requires i < |colours| && colours[i] == c
    ensures Palette.Scan(before, colours[..i + 1]) == Palette.Assign(Palette.Scan(before, colours[..i]), c).0
  {
    assert colours[..i + 1][..i] == colours[..i];
  }

  class TgaFile {
    const header: array<Byte>
    var width: Word
    var height: Word
    var actualHeight: Word        // height minus the palette row, when there is one
    var raster: array<Byte>       // the raster as read from the file
    var original: array<Byte>     // raster_6b[0]: reduced colours, palette row excluded
    var hFlip: array<Byte>        // raster_6b[1]: x-mirrored
    var vFlip: array<Byte>        // raster_6b[2]: y-mirrored
    var hvFlip: array<Byte>       // raster_6b[3]: mirrored along both axes
    var sizeOfRaster: nat
    var skipAttributes: bool      // 32 bits per pixel: skip the attribute byte
    var hasPalRow: bool           // the first row of tiles holds palette indexes
    const palette: array<Word>
    var lastError: Option<LoadError>

    /** The object invariant: a header of 18 bytes and a well-formed 16-slot palette. */
    ghost predicate Valid()
      reads palette
    {
      header.Length == HeaderSize && Palette.WellFormed(palette[..])
    }

    /** What a successful loadFromFile leaves behind, and to8bits relies on. */
    ghost predicate Loaded()
      reads this`width, this`height, this`actualHeight, this`raster, this`sizeOfRaster
      reads this`skipAttributes, this`hasPalRow, header
    {
      && header.Length == HeaderSize
      && (header[PixelDepthAt] == 24 || header[PixelDepthAt] == 32)
      && skipAttributes == (header[PixelDepthAt] == 32)
      && width >= MinRasterWidth && height >= MinRasterHeight
      && actualHeight == height - (if hasPalRow then TileHeight else 0)
      && sizeOfRaster == raster.Length == header[PixelDepthAt] / 8 * width * height
    }

    /** The first pixel of plane 0: the palette row, when present, is skipped. */
    function FirstPixel(): nat
      reads this`width, this`hasPalRow
    {
      if hasPalRow then width * TileHeight else 0
    }

    lemma LoadedGeometry()
      requires Loaded()
      ensures header[PixelDepthAt] / 8 == Stride(skipAttributes)
      ensures raster.Length == PixelStart(skipAttributes, width * height)
      ensures FirstPixel() + width * actualHeight == width * height
    {
      if hasPalRow {
        assert width * TileHeight + width * (height - TileHeight) == width * height;
      }
    }

    /** The reduced colours of every pixel, palette row included: what the palette loop scans. */
    ghost function PaletteColours(): seq<Byte>
      reads this`width, this`height, this`actualHeight, this`raster, this`sizeOfRaster
      reads this`skipAttributes, this`hasPalRow, header, raster
      requires Loaded()
    {
      LoadedGeometry();
      Quantised(raster[..], skipAttributes, 0, width * height)
    }

    /** The reduced colours of the pixels below the palette row: what plane 0 holds. */
    ghost function PlaneColours(): seq<Byte>
      reads this`width, this`height, this`actualHeight, this`raster, this`sizeOfRaster
      reads this`skipAttributes, this`hasPalRow, header, raster
      requires Loaded()
    {
      LoadedGeometry();
      Quantised(raster[..], skipAttributes, FirstPixel(), width * actualHeight)
    }

    /** The state to8bits leaves behind, starting from the palette `before`. */
    ghost predicate Converted(before: seq<Word>)
      reads this`width, this`height, this`actualHeight, this`raster, this`sizeOfRaster
      reads this`skipAttributes, this`hasPalRow, this`original, this`hFlip, this`vFlip, this`hvFlip
      reads header, raster, palette, original, hFlip, vFlip, hvFlip
      requires Loaded()
    {
      && palette[..] == Palette.Scan(before, PaletteColours())
      && original[..] == PlaneColours()
      && hFlip[..] == FlipH(original[..], width, actualHeight)
      && vFlip[..] == FlipV(original[..], width, actualHeight)
      && hvFlip[..] == FlipHV(original[..], width, actualHeight)
    }

    /** The object as declared: every field zero, empty or false, except skipAttributes. */
    constructor ()
      ensures Valid()
      ensures header[..] == seq(HeaderSize, _ => 0) && palette[..] == Palette.Empty()
      ensures width == 0 && height == 0 && actualHeight == 0 && sizeOfRaster == 0
      ensures raster.Length == 0 && original.Length == 0 && hFlip.Length == 0 && vFlip.Length == 0 && hvFlip.Length == 0
      ensures skipAttributes && !hasPalRow && lastError == None
      ensures fresh(header) && fresh(palette)
    {
      header := new Byte[HeaderSize](_ => 0);
      width, height, actualHeight := 0, 0, 0;
      raster := new Byte[0];
      original, hFlip, vFlip, hvFlip := new Byte[0], new Byte[0], new Byte[0], new Byte[0];
      sizeOfRaster := 0;
      skipAttributes := true;
      hasPalRow := false;
      palette := new Word[Palette.MaxColors](_ => 0);
      lastError := None;
      new;
      Palette.LayoutWellFormed([]);
      assert palette[..] == Palette.Empty();
    }

    /** isColorIndexed: some taken slot holds colour c. */
    method IsColorIndexed(c: Byte) returns (found: bool)
      requires Valid()
      ensures found == Palette.Indexed(palette[..], c)
    {
      for i := 0 to Palette.MaxColors
        invariant forall j :: 0 <= j < i ==> !(palette[j] != 0 && Palette.SlotColour(palette[j]) == c)
      {
        if palette[i] != 0 {
          if Palette.SlotColour(palette[i]) == c {
            return true;
          }
        }
      }
      return false;
    }

    /** assignIndex: gives colour c the lowest free slot unless it is present or the palette is full. */
    method AssignIndex(c: Byte) returns (added: bool)
      requires Valid()
      modifies palette
      ensures Valid()
      ensures (palette[..], added) == Palette.Assign(old(palette[..]), c)
    {
      Palette.AssignPreservesWellFormed(palette[..], c);
      var indexed := IsColorIndexed(c);
      if indexed {
        return false;
      }
      for i := 0 to Palette.MaxColors
        invariant forall j :: 0 <= j < i ==> palette[j] != 0
      {
        if palette[i] == 0 {
          assert Palette.FirstFree(palette[..]) == i;
          palette[i] := Palette.TakenSlot(c);
          return true;
        }
      }
      assert Palette.FirstFree(palette[..]) == Palette.MaxColors;
      return false;
    }

    /**
      sumUniqueColors: the number of distinct colours among the first
      width * height entries of plane 0, never reading past its end.
    */
    method SumUniqueColors() returns (sum: int)
      ensures var n := if width * height <= original.Length then width * height else original.Length;
        sum == |Values(original[..n])|
      ensures 0 <= sum <= 0x100
    {
      var present := new bool[0x100](_ => false);
      sum := 0;
      var n := if width * height <= original.Length then width * height else original.Length;
      ghost var seen: set<Byte> := {};
      for i := 0 to n
        invariant seen == Values(original[..i])
        invariant forall v: Byte :: present[v] <==> v in seen
        invariant sum == |seen|
      {
        ValuesStep(original[..], i);
        if !present[original[i]] {
          present[original[i]] := true;
          sum := sum + 1;
        }
        seen := seen + {original[i]};
      }
      ByteSetBound(Values(original[..n]));
    }

    /** With the palette row, the bound sumUniqueColors is given runs 8 * width entries past plane 0. */
    lemma PalRowOverrun()
      requires Loaded() && hasPalRow && original.Length == width * actualHeight
      ensures width * height == original.Length + TileHeight * width
    {
      LoadedGeometry();
    }

    /** The first loop of to8bits: every pixel's reduced colour offered to assignIndex in turn. */
    method BuildPalette()
      requires Valid() && Loaded()
      modifies palette
      ensures Valid()
      ensures palette[..] == Palette.Scan(old(palette[..]), PaletteColours())
    {
      LoadedGeometry();
      ghost var colours := PaletteColours();
      var n := width * height;
      var offset := 0;
      for i := 0 to n
        invariant offset == PixelStart(skipAttributes, i)
        invariant Valid()
        invariant palette[..] == Palette.Scan(old(palette[..]), colours[..i])
      {
        QuantisedAt(raster[..], skipAttributes, 0, n, i, offset);
        var b := raster[offset];
        var g := raster[offset + 1];
        var r := raster[offset + 2];
        offset := offset + 3 + (if skipAttributes then 1 else 0);
        ScanStep(old(palette[..]), colours, i, ToBgr8(r, g, b));
        var _ := AssignIndex(ToBgr8(r, g, b));
      }
      assert colours[..n] == colours;
    }

    /** The second loop of to8bits: plane 0 gets the reduced colours below the palette row. */
    method QuantisePlane(plane: array<Byte>)
      requires Loaded() && plane.Length == width * actualHeight && plane != raster && plane != header
      modifies plane
      ensures plane[..] == PlaneColours()
    {
      LoadedGeometry();
      ghost var colours := PlaneColours();
      var m := width * actualHeight;
      ghost var first := FirstPixel();
      var offset := if hasPalRow then width * TileHeight * (header[PixelDepthAt] / 8) else 0;
      assert offset == PixelStart(skipAttributes, first);
      for i := 0 to m
        invariant offset == PixelStart(skipAttributes, first + i)
        invariant forall k :: 0 <= k < i ==> plane[k] == colours[k]
      {
        QuantisedAt(raster[..], skipAttributes, first, m, i, offset);
        var b := raster[offset];
        var g := raster[offset + 1];
        var r := raster[offset + 2];
        offset := offset + 3 + (if skipAttributes then 1 else 0);
        plane[i] := ToBgr8(r, g, b);
      }
      assert plane[..] == colours;
    }

    /** The allocation of the four planes in to8bits, and the two loops that fill them. */
    method BuildPlanes()
      requires Loaded()
      modifies this`original, this`hFlip, this`vFlip, this`hvFlip
      ensures fresh(original) && fresh(hFlip) && fresh(vFlip) && fresh(hvFlip)
      ensures original[..] == PlaneColours()
      ensures hFlip[..] == FlipH(original[..], width, actualHeight)
      ensures vFlip[..] == FlipV(original[..], width, actualHeight)
      ensures hvFlip[..] == FlipHV(original[..], width, actualHeight)
    {
      ghost var colours := PlaneColours();
      var p0 := new Byte[width * actualHeight];
      QuantisePlane(p0);
      assert p0[..] == colours;
      var p1, p2, p3 := MirroredPlanes(p0, width, actualHeight);
      original, hFlip, vFlip, hvFlip := p0, p1, p2, p3;
    }

    /**
      to8bits: fails on an empty raster; otherwise builds the palette from all
      pixels, then plane 0 and its three mirror images.
    */
    method ToBits() returns (ok: bool)
      requires Valid() && (sizeOfRaster != 0 ==> Loaded())
      modifies this`original, this`hFlip, this`vFlip, this`hvFlip, palette
      ensures Valid()
      ensures ok <==> old(sizeOfRaster) != 0
      ensures !ok ==> palette[..] == old(palette[..])
      ensures !ok ==> original == old(original) && hFlip == old(hFlip) && vFlip == old(vFlip) && hvFlip == old(hvFlip)
      ensures ok ==> fresh(original) && fresh(hFlip) && fresh(vFlip) && fresh(hvFlip)
      ensures ok ==> Loaded() && Converted(old(palette[..]))
    {
      if sizeOfRaster == 0 {
        return false;
      }
      BuildPalette();
      ghost var palette1 := palette[..];
      BuildPlanes();
      assert palette[..] == palette1;
      return true;
    }

    /** fread of the header: up to 18 bytes of the file into the header array. */
    method ReadHeader(file: seq<Byte>) returns (got: nat)
      requires header.Length == HeaderSize
      modifies header
      ensures got == ReadCount(file, 0, HeaderSize)
      ensures header[..] == BufferAfterRead(file, old(header[..]))
    {
      got := ReadCount(file, 0, HeaderSize);
      forall i | 0 <= i < got {
        header[i] := file[i];
      }
    }

    /**
      fread of the raster: as many of raster.Length bytes as the file holds
      from offset start on.
    */
    method ReadRaster(file: seq<Byte>, start: nat) returns (bytesRead: nat)
      modifies raster
      ensures bytesRead == ReadCount(file, start, raster.Length)
      ensures raster[..bytesRead] == ReadBytes(file, start, raster.Length)
      ensures raster[bytesRead..] == old(raster[bytesRead..])
    {
      bytesRead := ReadCount(file, start, raster.Length);
      forall i | 0 <= i < bytesRead {
        raster[i] := file[start + i];
      }
    }

    /**
      The allocation and fread of the raster in loadFromFile, once header h has
      passed the three checks: sizeOfRaster bytes from just after the image ID
      and the colour map.
    */
    method AllocateRaster(file: seq<Byte>, ghost h: Header) returns (bytesRead: nat)
      requires Valid()
      requires |file| >= HeaderSize && h == FileHeader(file) && header[..] == file[..HeaderSize]
      requires Acceptable(h) && SupportedDepth(h)
      requires width == h.width && height == h.height
      requires actualHeight == h.height - (if hasPalRow then TileHeight else 0)
      modifies this`raster, this`sizeOfRaster, this`skipAttributes
      ensures bytesRead == RasterBytesRead(file, h)
      ensures fresh(raster) && sizeOfRaster == raster.Length == RasterSize(h)
      ensures skipAttributes == (h.pixelDepth == 32)
      ensures raster[..bytesRead] == RasterBytes(file, h)
      ensures Loaded() && sizeOfRaster > 0
    {
      assert header[IdLengthAt] == h.idLength && header[PixelDepthAt] == h.pixelDepth;
      assert ReadWord(header[..], ColMapLengthAt) == h.colorMapLength;
      AcceptedRasterSize(h);
      var start := HeaderSize + header[IdLengthAt] + ReadWord(header[..], ColMapLengthAt);
      assert start == RasterStart(h);
      var size := header[PixelDepthAt] / 8 * width * height;
      assert size == RasterSize(h) > 0;
      sizeOfRaster := size;
      raster := new Byte[size];
      skipAttributes := header[PixelDepthAt] == 32;
      bytesRead := ReadRaster(file, start);
    }

    /**
      The raster stage of loadFromFile: a short read is an error, otherwise
      the raster is converted with to8bits.
    */
    method LoadRaster(file: seq<Byte>, ghost h: Header) returns (ok: bool)
      requires Valid()
      requires |file| >= HeaderSize && h == FileHeader(file) && header[..] == file[..HeaderSize]
      requires Acceptable(h) && SupportedDepth(h)
      requires width == h.width && height == h.height
      requires actualHeight == h.height - (if hasPalRow then TileHeight else 0)
      modifies this`raster, this`sizeOfRaster, this`skipAttributes, this`lastError
      modifies this`original, this`hFlip, this`vFlip, this`hvFlip, palette
      ensures Valid()
      ensures ok <==> RasterBytesRead(file, h) == RasterSize(h)
      ensures lastError == if ok then old(lastError) else Some(RasterTruncated(RasterBytesRead(file, h)))
      ensures fresh(raster) && sizeOfRaster == raster.Length == RasterSize(h)
      ensures skipAttributes == (h.pixelDepth == 32)
      ensures raster[..RasterBytesRead(file, h)] == RasterBytes(file, h)
      ensures ok ==> fresh(original) && fresh(hFlip) && fresh(vFlip) && fresh(hvFlip)
      ensures ok ==> Loaded() && Converted(old(palette[..]))
      ensures !ok ==> palette[..] == old(palette[..])
      ensures !ok ==> original == old(original) && hFlip == old(hFlip) && vFlip == old(vFlip) && hvFlip == old(hvFlip)
    {
      var bytesRead := AllocateRaster(file, h);
      if bytesRead < sizeOfRaster {
        lastError := Some(RasterTruncated(bytesRead));
        return false;
      }
      var _ := ToBits();
      return true;
    }

    /**
      The three header checks of loadFromFile, in order, with width, height
      and actual_height set after the first.
    */
    method CheckHeader(ghost h: Header) returns (passed: bool)
      requires header[..] == Encode(h)
      modifies this`width, this`height, this`actualHeight, this`lastError
      ensures passed <==> Acceptable(h)
      ensures lastError == if passed then old(lastError) else Some(Rejected(Check(h).value))
      ensures UncompressedTruecolor(h) ==>
        && width == h.width && height == h.height
        && actualHeight == (h.height - (if hasPalRow then TileHeight else 0)) % 0x1_0000
      ensures !UncompressedTruecolor(h) ==>
        width == old(width) && height == old(height) && actualHeight == old(actualHeight)
    {
      DecodeEncode(h);
      if header[ColMapTypeAt] != 0 || header[ImageTypeAt] != 2 {
        lastError := Some(Rejected(IndexedOrCompressed));
        return false;
      }
      width := ReadWord(header[..], WidthAt);
      height := ReadWord(header[..], HeightAt);
      actualHeight := (height - (if hasPalRow then TileHeight else 0)) % 0x1_0000;
      if width % TileWidth != 0 || height % TileHeight != 0 {
        lastError := Some(Rejected(NotTileMultiple));
        return false;
      }
      if width < MinRasterWidth || height < MinRasterHeight {
        lastError := Some(Rejected(TooSmall));
        return false;
      }
      return true;
    }

    /**
      loadFromFile once the 18 header bytes are read: the three header checks
      in order, with width, height and actual_height set after the first.
    */
    method LoadChecked(file: seq<Byte>, ghost h: Header) returns (ok: bool)
      requires Valid()
      requires |file| >= HeaderSize && h == FileHeader(file) && header[..] == file[..HeaderSize]
      requires Acceptable(h) ==> SupportedDepth(h)
      modifies this`width, this`height, this`actualHeight
      modifies this`raster, this`sizeOfRaster, this`skipAttributes, this`lastError
      modifies this`original, this`hFlip, this`vFlip, this`hvFlip, palette
      ensures Valid()
      ensures ok <==> Acceptable(h) && RasterBytesRead(file, h) == RasterSize(h)
      ensures lastError == if ok then old(lastError)
        else if !Acceptable(h) then Some(Rejected(Check(h).value))
        else Some(RasterTruncated(RasterBytesRead(file, h)))
      ensures UncompressedTruecolor(h) ==>
        && width == h.width && height == h.height
        && actualHeight == (h.height - (if hasPalRow then TileHeight else 0)) % 0x1_0000
      ensures !UncompressedTruecolor(h) ==>
        width == old(width) && height == old(height) && actualHeight == old(actualHeight)
      ensures Acceptable(h) ==>
        && fresh(raster) && sizeOfRaster == raster.Length == RasterSize(h)
        && skipAttributes == (h.pixelDepth == 32)
        && raster[..RasterBytesRead(file, h)] == RasterBytes(file, h)
      ensures !Acceptable(h) ==>
        raster == old(raster) && sizeOfRaster == old(sizeOfRaster) && skipAttributes == old(skipAttributes)
      ensures ok ==> fresh(original) && fresh(hFlip) && fresh(vFlip) && fresh(hvFlip)
      ensures ok ==> Loaded() && Converted(old(palette[..]))
      ensures !ok ==> palette[..] == old(palette[..])
      ensures !ok ==> original == old(original) && hFlip == old(hFlip) && vFlip == old(vFlip) && hvFlip == old(hvFlip)
    {
      EncodeDecode(header[..]);
      assert header[..] == Encode(h);
      var passed := CheckHeader(h);
      if !passed {
        return false;
      }
      assert actualHeight == h.height - (if hasPalRow then TileHeight else 0);
      ok := LoadRaster(file, h);
    }

    /**
      loadFromFile: reads the header, applies the three header checks, reads
      the raster after the image ID and colour map, then converts it with
      to8bits, whose result it ignores. `contents` is the file, or None when
      it cannot be opened. Each step leaves the fields it sets, failing or not.
    */
    method LoadFromFile(contents: Option<seq<Byte>>, palRow: bool) returns (ok: bool)
      requires Valid()
      requires RasterAllocated(contents) ==> SupportedDepth(FileHeader(contents.value))
      modifies this, header, palette
      ensures Valid()
      ensures hasPalRow == palRow
      ensures ok <==> Outcome(contents) == None
      ensures lastError == if ok then old(lastError) else Outcome(contents)
      ensures header[..] == if contents.None? then old(header[..]) else BufferAfterRead(contents.value, old(header[..]))
      ensures DimensionsRead(contents) ==>
        var h := FileHeader(contents.value);
        && width == h.width && height == h.height
        && actualHeight == (h.height - (if palRow then TileHeight else 0)) % 0x1_0000
      ensures !DimensionsRead(contents) ==>
        width == old(width) && height == old(height) && actualHeight == old(actualHeight)
      ensures RasterAllocated(contents) ==>
        var file, h := contents.value, FileHeader(contents.value);
        && fresh(raster) && sizeOfRaster == raster.Length == RasterSize(h)
        && skipAttributes == (h.pixelDepth == 32)
        && raster[..RasterBytesRead(file, h)] == RasterBytes(file, h)
      ensures !RasterAllocated(contents) ==>
        raster == old(raster) && sizeOfRaster == old(sizeOfRaster) && skipAttributes == old(skipAttributes)
      ensures ok ==> fresh(original) && fresh(hFlip) && fresh(vFlip) && fresh(hvFlip)
      ensures ok ==> Loaded() && Converted(old(palette[..]))
      ensures !ok ==> palette[..] == old(palette[..])
      ensures !ok ==> original == old(original) && hFlip == old(hFlip) && vFlip == old(vFlip) && hvFlip == old(hvFlip)
    {
      hasPalRow := palRow;
      if contents.None? {
        lastError := Some(CannotOpen);
        return false;
      }
      var file := contents.value;
      var got := ReadHeader(file);
      if got < HeaderSize {
        lastError := Some(HeaderTruncated(got));
        return false;
      }
      assert header[..] == file[..HeaderSize];
      ok := LoadChecked(file, FileHeader(file));
    }
  }
}
