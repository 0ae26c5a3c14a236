/** Facts about multiplication that the nonlinear index arithmetic needs. */
module Arith {
  /** c * a <= c * b when a <= b and c >= 0. */
  lemma {:induction false} MulLeft(c: nat, a: nat, b: nat)
    requires a <= b
    ensures c * a <= c * b
  {
    if c > 0 {
      MulLeft(c - 1, a, b);
      assert c * a == (c - 1) * a + a;
      assert c * b == (c - 1) * b + b;
    }
  }

  /** a * b >= c * d when a >= c and b >= d, all non-negative. */
  lemma MulMono(a: nat, c: nat, b: nat, d: nat)
    requires a >= c && b >= d
    ensures a * b >= c * d
  {
    MulLeft(a, d, b);
    MulLeft(d, c, a);
    assert a * d == d * a && c * d == d * c;
  }

  /** Cell (x, y) of a w x h row-major plane lies inside it. */
  lemma CellInside(w: nat, h: nat, y: nat, x: nat)
    requires y < h && x < w
    ensures y * w + x < w * h
  {
    MulLeft(w, y + 1, h);
    assert y * w + w == w * (y + 1);
  }

  /** A plane with at least one row splits into its first row and the rest. */
  lemma FirstRow(w: nat, h: nat)
    requires h > 0
    ensures 0 <= w * (h - 1) && w * h == w + w * (h - 1)
  {
  }

  /** Row y starts one row width after row y - 1. */
  lemma RowStep(w: nat, y: nat)
    requires y > 0
    ensures 0 <= (y - 1) * w && (y - 1) * w + w == y * w
  {
  }

  /** Row h - 1 - y, the mirror of row y, starts w + y * w before the end. */
  lemma MirrorRowStart(w: nat, h: nat, y: nat)
    requires y < h
    ensures 0 <= (h - 1 - y) * w && (h - 1 - y) * w == w * h - w - y * w
  {
    MulAdd(w, h - 1 - y, y + 1);
  }

  /** w * (a + b) distributes, for whole blocks of rows stacked on each other. */
  lemma MulAdd(w: nat, a: nat, b: nat)
    ensures 0 <= w * a && 0 <= w * b && w * (a + b) == w * a + w * b
  {
  }
}
