/**
  Reading pixels from a raw TGA raster. Both converters store each pixel as
  B, G, R, followed by an attribute (alpha) byte when the depth is 32, and
  walk the raster with a pointer that advances 3 + skipAttributes bytes.
*/
module Pixels {
  import opened Bytes
  import opened Colour

  /** Bytes advanced per pixel: three colour bytes, plus the skipped attribute byte. */
  function Stride(skipAttributes: bool): nat {
    3 + (if skipAttributes then 1 else 0)
  }

  /** Offset of pixel i's first byte: i pixels of Stride(skipAttributes) bytes each. */
  function PixelStart(skipAttributes: bool, i: nat): (at: nat)
    ensures at == Stride(skipAttributes) * i
  {
    if skipAttributes then 4 * i else 3 * i
  }

  /** Pixel i lies inside a raster that holds the first n pixels. */
  lemma PixelInside(skipAttributes: bool, i: nat, n: nat, len: nat)
    requires i < n && PixelStart(skipAttributes, n) <= len
    ensures PixelStart(skipAttributes, i) + 3 <= len
  {
  }

  /** The reduced colour of pixel i: its bytes are read as B, G, R and passed to toBGR8 as r, g, b. */
  function ColourAt(raster: seq<Byte>, skipAttributes: bool, i: nat): Byte
    requires PixelStart(skipAttributes, i) + 3 <= |raster|
  {
    var at := PixelStart(skipAttributes, i);
    ToBgr8(raster[at + 2], raster[at + 1], raster[at])
  }

  /** The reduced colours of the n pixels starting at pixel `first`. */
  function Quantised(raster: seq<Byte>, skipAttributes: bool, first: nat, n: nat): (cs: seq<Byte>)
    requires PixelStart(skipAttributes, first + n) <= |raster|
    ensures |cs| == n
  {
    seq<Byte>(n, k requires 0 <= k < n =>
      PixelInside(skipAttributes, first + k, first + n, |raster|);
      ColourAt(raster, skipAttributes, first + k))
  }

  /** Entry i of Quantised is the reduced colour of the pixel whose bytes start at `at`. */
  lemma QuantisedAt(raster: seq<Byte>, skipAttributes: bool, first: nat, n: nat, i: nat, at: nat)
    requires PixelStart(skipAttributes, first + n) <= |raster|
    requires i < n && at == PixelStart(skipAttributes, first + i)
    ensures at + 3 <= |raster|
    ensures Quantised(raster, skipAttributes, first, n)[i] == ToBgr8(raster[at + 2], raster[at + 1], raster[at])
  {
    PixelInside(skipAttributes, first + i, first + n, |raster|);
    assert Quantised(raster, skipAttributes, first, n)[i] == ColourAt(raster, skipAttributes, first + i);
  }

  /**
    A 32-bit raster and a 24-bit raster holding the same B, G, R bytes for
    every pixel reduce to the same colours: the attribute byte is ignored.
  */
  lemma AttributeByteIgnored(raster32: seq<Byte>, raster24: seq<Byte>, n: nat)
    requires |raster32| == 4 * n && |raster24| == 3 * n
    requires forall i :: 0 <= i < n ==>
      raster32[4 * i] == raster24[3 * i] && raster32[4 * i + 1] == raster24[3 * i + 1] && raster32[4 * i + 2] == raster24[3 * i + 2]
    ensures Quantised(raster32, true, 0, n) == Quantised(raster24, false, 0, n)
  {
    var a, b := Quantised(raster32, true, 0, n), Quantised(raster24, false, 0, n);
    forall k | 0 <= k < n ensures a[k] == b[k] {
      assert a[k] == ColourAt(raster32, true, k);
      assert b[k] == ColourAt(raster24, false, k);
    }
  }
}
