/**
  Colour reduction (toBGR8 in tga2sms.cpp): the two most significant bits of
  each 8-bit channel, packed into one byte laid out as 00BBGGRR.
*/
module Colour {
  import opened Bytes

  /** Shifting right by 6 is dividing by 64; the fields are then placed at bits 0, 2 and 4. */
  function ToBgr8(r: Byte, g: Byte, b: Byte): (c: Byte)
    ensures c < 64
    ensures c % 4 == r / 64
    ensures c / 4 % 4 == g / 64
    ensures c / 16 == b / 64
  {
    r / 64 + g / 64 * 4 + b / 64 * 16
  }

  /** The red, green and blue fields of a reduced colour. */
  function RedBits(c: Byte): int { c % 4 }
  function GreenBits(c: Byte): int { c / 4 % 4 }
  function BlueBits(c: Byte): int { c / 16 % 4 }

  /** A reduced colour is determined by its three fields. */
  lemma FieldsDetermine(c: Byte, d: Byte)
    requires c < 64 && d < 64
    requires RedBits(c) == RedBits(d) && GreenBits(c) == GreenBits(d) && BlueBits(c) == BlueBits(d)
    ensures c == d
  {
    Unpack(c);
    Unpack(d);
  }

  lemma Unpack(c: Byte)
    requires c < 64
    ensures c == RedBits(c) + 4 * GreenBits(c) + 16 * BlueBits(c)
  {
    var q := c / 4;
    assert c == 4 * q + c % 4;
    assert q == 4 * (q / 4) + q % 4;
    assert q / 4 == c / 16;
  }

  /**
    Two pixels reduce to the same colour exactly when each channel has the
    same two most significant bits.
  */
  lemma SameReducedColour(r: Byte, g: Byte, b: Byte, r': Byte, g': Byte, b': Byte)
    ensures ToBgr8(r, g, b) == ToBgr8(r', g', b') <==> r / 64 == r' / 64 && g / 64 == g' / 64 && b / 64 == b' / 64
  {
    var c, d := ToBgr8(r, g, b), ToBgr8(r', g', b');
    if r / 64 == r' / 64 && g / 64 == g' / 64 && b / 64 == b' / 64 {
      FieldsDetermine(c, d);
    }
  }

  lemma ShiftRight6(x: bv8)
    ensures (x >> 6) as int == x as int / 64
  {
  }

  lemma PackFields(x: bv8, y: bv8, z: bv8)
    requires x < 4 && y < 4 && z < 4
    ensures (x | (y << 2) | (z << 4)) as int == x as int + 4 * y as int + 16 * z as int
  {
  }

  /** The arithmetic ToBgr8 is the source's (r>>6) | ((g>>6) << 2) | ((b>>6) << 4) on BYTEs. */
  lemma ToBgr8IsBitwise(r: bv8, g: bv8, b: bv8)
    ensures ToBgr8(r as int, g as int, b as int) == ((r >> 6) | ((g >> 6) << 2) | ((b >> 6) << 4)) as int
  {
    ShiftRight6(r);
    ShiftRight6(g);
    ShiftRight6(b);
    PackFields(r >> 6, g >> 6, b >> 6);
  }
}
