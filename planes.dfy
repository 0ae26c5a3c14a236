/**
  The four planes of to8bits (tga2sms.cpp): plane 0 holds one reduced colour
  per pixel, row-major, w entries per row; planes 1 to 3 are plane 0 mirrored
  horizontally, vertically, and both ways. The mirrors are defined row by row
  here, and their index laws (the assignments the source makes per pixel)
  are proved from these definitions.
*/
module Planes {
  import opened Bytes
  import opened Arith

  function Reverse(s: seq<Byte>): (r: seq<Byte>)
    ensures |r| == |s|
  {
    seq(|s|, i requires 0 <= i < |s| => s[|s| - 1 - i])
  }

  lemma {:induction false} ReverseMultiset(s: seq<Byte>)
    ensures multiset(Reverse(s)) == multiset(s)
  {
    if s != [] {
      var init := s[..|s| - 1];
      assert Reverse(s) == [s[|s| - 1]] + Reverse(init);
      ReverseMultiset(init);
      assert s == init + [s[|s| - 1]];
    }
  }

  /** Each row reversed: x becomes w - 1 - x. */
  function FlipH(p: seq<Byte>, w: nat, h: nat): (q: seq<Byte>)
    requires |p| == w * h
    ensures |q| == w * h
    decreases h
  {
    if h == 0 then []
    else
      FirstRow(w, h);
      Reverse(p[..w]) + FlipH(p[w..], w, h - 1)
  }

  /** The rows in reverse order: y becomes h - 1 - y. */
  function FlipV(p: seq<Byte>, w: nat, h: nat): (q: seq<Byte>)
    requires |p| == w * h
    ensures |q| == w * h
    decreases h
  {
    if h == 0 then []
    else
      FirstRow(w, h);
      FlipV(p[w..], w, h - 1) + p[..w]
  }

  /** Mirrored along both axes. */
  function FlipHV(p: seq<Byte>, w: nat, h: nat): (q: seq<Byte>)
    requires |p| == w * h
    ensures |q| == w * h
  {
    FlipV(FlipH(p, w, h), w, h)
  }

  /**
    Row-offset form of the horizontal mirror law: top is the start y * w
    of row y, so the induction over the rows only moves top by w.
  */
  lemma {:induction false} FlipHAtRow(p: seq<Byte>, w: nat, h: nat, y: nat, x: nat, top: nat)
    requires |p| == w * h && y < h && x < w && top == y * w && top + w <= |p|
    ensures FlipH(p, w, h)[top + (w - 1 - x)] == p[top + x]
    decreases h
  {
    FirstRow(w, h);
    var row, rest := p[..w], p[w..];
    var r := FlipH(rest, w, h - 1);
    assert FlipH(p, w, h) == Reverse(row) + r;
    if y == 0 {
      assert top == 0;
    } else {
      RowStep(w, y);
      FlipHAtRow(rest, w, h - 1, y - 1, x, top - w);
      assert r[top - w + (w - 1 - x)] == rest[top - w + x];
    }
  }

  /** The horizontal mirror law: FlipH[y*w + (w-1-x)] == p[y*w + x]. */
  lemma FlipHAt(p: seq<Byte>, w: nat, h: nat, y: nat, x: nat)
    requires |p| == w * h && y < h && x < w
    ensures y * w + x < |p| && y * w + (w - 1 - x) < |p|
    ensures FlipH(p, w, h)[y * w + (w - 1 - x)] == p[y * w + x]
  {
    CellInside(w, h, y, w - 1);
    FlipHAtRow(p, w, h, y, x, y * w);
  }

  /**
    Row-offset form of the vertical mirror law: row y, starting at top,
    lands at |p| - w - top.
  */
  lemma {:induction false} FlipVAtRow(p: seq<Byte>, w: nat, h: nat, y: nat, x: nat, top: nat)
    requires |p| == w * h && y < h && x < w && top == y * w && top + w <= |p|
    ensures FlipV(p, w, h)[|p| - w - top + x] == p[top + x]
    decreases h
  {
    FirstRow(w, h);
    var row, rest := p[..w], p[w..];
    var r := FlipV(rest, w, h - 1);
    assert FlipV(p, w, h) == r + row;
    if y == 0 {
      assert top == 0;
    } else {
      RowStep(w, y);
      FlipVAtRow(rest, w, h - 1, y - 1, x, top - w);
      assert r[|rest| - w - (top - w) + x] == rest[top - w + x];
    }
  }

  /** The vertical mirror law: FlipV[(h-1-y)*w + x] == p[y*w + x]. */
  lemma FlipVAt(p: seq<Byte>, w: nat, h: nat, y: nat, x: nat)
    requires |p| == w * h && y < h && x < w
    ensures 0 <= (h - 1 - y) * w && y * w + x < |p| && (h - 1 - y) * w + x < |p|
    ensures FlipV(p, w, h)[(h - 1 - y) * w + x] == p[y * w + x]
  {
    CellInside(w, h, y, w - 1);
    MirrorRowStart(w, h, y);
    FlipVAtRow(p, w, h, y, x, y * w);
  }

  /** The double mirror law: FlipHV[(h-1-y)*w + (w-1-x)] == p[y*w + x]. */
  lemma FlipHVAt(p: seq<Byte>, w: nat, h: nat, y: nat, x: nat)
    requires |p| == w * h && y < h && x < w
    ensures y * w + x < |p| && (h - 1 - y) * w + (w - 1 - x) < |p|
    ensures FlipHV(p, w, h)[(h - 1 - y) * w + (w - 1 - x)] == p[y * w + x]
  {
    FlipHAt(p, w, h, y, x);
    var q, j := FlipH(p, w, h), w - 1 - x;
    FlipVAt(q, w, h, y, j);
    assert FlipHV(p, w, h) == FlipV(q, w, h);
    assert FlipV(q, w, h)[(h - 1 - y) * w + j] == q[y * w + j];
  }

  /** The horizontal mirror is a permutation of the plane. */
  lemma {:induction false} FlipHMultiset(p: seq<Byte>, w: nat, h: nat)
    requires |p| == w * h
    ensures multiset(FlipH(p, w, h)) == multiset(p)
    decreases h
  {
    if h > 0 {
      FirstRow(w, h);
      FlipHMultiset(p[w..], w, h - 1);
      ReverseMultiset(p[..w]);
      assert p == p[..w] + p[w..];
    }
  }

  /** The vertical mirror is a permutation of the plane. */
  lemma {:induction false} FlipVMultiset(p: seq<Byte>, w: nat, h: nat)
    requires |p| == w * h
    ensures multiset(FlipV(p, w, h)) == multiset(p)
    decreases h
  {
    if h > 0 {
      FirstRow(w, h);
      FlipVMultiset(p[w..], w, h - 1);
      assert p == p[..w] + p[w..];
    }
  }

  /** The double mirror is a permutation of the plane. */
  lemma FlipHVMultiset(p: seq<Byte>, w: nat, h: nat)
    requires |p| == w * h
    ensures multiset(FlipHV(p, w, h)) == multiset(p)
  {
    FlipHMultiset(p, w, h);
    FlipVMultiset(FlipH(p, w, h), w, h);
  }

  /** Mirroring two stacked blocks of whole rows mirrors each block. */
  lemma {:induction false} FlipHAppend(a: seq<Byte>, b: seq<Byte>, w: nat, ha: nat, hb: nat)
    requires |a| == w * ha && |b| == w * hb
    ensures |a + b| == w * (ha + hb)
    ensures FlipH(a + b, w, ha + hb) == FlipH(a, w, ha) + FlipH(b, w, hb)
    decreases ha
  {
    MulAdd(w, ha, hb);
    if ha > 0 {
      FirstRow(w, ha);
      FirstRow(w, ha + hb);
      MulAdd(w, ha - 1, hb);
      var ab := a + b;
      assert ab[..w] == a[..w];
      assert ab[w..] == a[w..] + b;
      FlipHAppend(a[w..], b, w, ha - 1, hb);
      var r, x, y := Reverse(a[..w]), FlipH(a[w..], w, ha - 1), FlipH(b, w, hb);
      assert FlipH(ab, w, ha + hb) == r + (x + y);
      assert FlipH(a, w, ha) == r + x;
      assert r + (x + y) == (r + x) + y;
    } else {
      assert a == [];
      assert a + b == b;
    }
  }

  /** The two mirrors commute, so the double mirror is either composition. */
  lemma {:induction false} FlipsCommute(p: seq<Byte>, w: nat, h: nat)
    requires |p| == w * h
    ensures FlipV(FlipH(p, w, h), w, h) == FlipH(FlipV(p, w, h), w, h)
    decreases h
  {
    if h > 0 {
      FirstRow(w, h);
      var row, rest := p[..w], p[w..];
      FlipsCommute(rest, w, h - 1);
      var q := FlipH(p, w, h);
      assert q == Reverse(row) + FlipH(rest, w, h - 1);
      assert q[..w] == Reverse(row) && q[w..] == FlipH(rest, w, h - 1);
      FlipHAppend(FlipV(rest, w, h - 1), row, w, h - 1, 1);
      assert FlipH(row, w, 1) == Reverse(row) + FlipH(row[w..], w, 0);
      assert FlipH(row, w, 1) == Reverse(row);
    }
  }
}
