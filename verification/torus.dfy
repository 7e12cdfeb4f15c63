/**
 * Index arithmetic of the periodic (toroidal) grid shared by every crate.
 *
 * A cell of a side-`s` grid is addressed either by its coordinates or by
 * its linear index.  Every step to a neighbour wraps around with the
 * same two formulas the source uses everywhere: `(c + s - 1) % s` for
 * the predecessor and `(c + 1) % s` for the successor of coordinate `c`.
 * Integers are unbounded here; the source computes with `u32`.
 */
module Torus {

  // ---------------------------------------------------------------------
  // Arithmetic helpers
  // ---------------------------------------------------------------------

  lemma MulAtLeast(k: int, s: nat)
    requires k >= 1
    ensures k * s >= s
  {
  }

  /** Euclidean division of `q * s + r` recovers `q` and `r`. */
  lemma DivMod(s: nat, q: nat, r: nat)
    requires r < s
    ensures (q * s + r) / s == q
    ensures (q * s + r) % s == r
  {
    var a := q * s + r;
    var quo := a / s;
    var rem := a % s;
    assert a == quo * s + rem;
    if quo < q {
      MulAtLeast(q - quo, s);
      assert false;
    } else if quo > q {
      MulAtLeast(quo - q, s);
      assert false;
    }
  }

  lemma MulLe(a: nat, b: nat, s: nat)
    requires a <= b
    ensures a * s <= b * s
  {
    assert b * s == a * s + (b - a) * s;
  }

  /** The row after row `q` starts `s` further on. */
  lemma NextRow(s: nat, q: nat)
    ensures q * s + s == (q + 1) * s
  {
  }

  /** The cube of `s`, grouped either way. */
  lemma Cube(s: nat)
    ensures s * (s * s) == s * s * s
  {
  }

  /** An index below `m` rows lies in a row below `m`. */
  lemma DivBound(s: nat, i: nat, m: nat)
    requires s > 0 && i < m * s
    ensures i / s < m
  {
    var q := i / s;
    assert q * s <= i;
    if q >= m {
      MulLe(m, q, s);
      assert false;
    }
  }

  /** A row start plus an in-row offset stays below `m` rows. */
  lemma RowBound(s: nat, q: nat, r: nat, m: nat)
    requires r < s && q < m
    ensures q * s + r < m * s
  {
    MulAtLeast(m - q, s);
    assert m * s == q * s + (m - q) * s;
  }

  // ---------------------------------------------------------------------
  // Wrap-around steps on one coordinate
  // ---------------------------------------------------------------------

  /** Predecessor of coordinate `c` on a ring of `s` positions. */
  function Dec(s: nat, c: nat): nat
    requires s > 0
  {
    (c + s - 1) % s
  }

  /** Successor of coordinate `c` on a ring of `s` positions. */
  function Inc(s: nat, c: nat): nat
    requires s > 0
  {
    (c + 1) % s
  }

  /**
   * The two steps, described without `%`: one back (0 wraps to s-1) and
   * one forward (s-1 wraps to 0); each undoes the other.
   */
  lemma Steps(s: nat, c: nat)
    requires c < s
    ensures Dec(s, c) == if c == 0 then s - 1 else c - 1
    ensures Inc(s, c) == if c == s - 1 then 0 else c + 1
    ensures Dec(s, c) < s && Inc(s, c) < s
    ensures Dec(s, Inc(s, c)) == c && Inc(s, Dec(s, c)) == c
  {
    if c == 0 {
      DivMod(s, 0, s - 1);
    } else {
      DivMod(s, 1, c - 1);
    }
    if c == s - 1 {
      DivMod(s, 1, 0);
    } else {
      DivMod(s, 0, c + 1);
    }
    var d := if c == 0 then s - 1 else c - 1;
    var i := if c == s - 1 then 0 else c + 1;
    if i == 0 {
      DivMod(s, 0, s - 1);
    } else {
      DivMod(s, 1, i - 1);
    }
    if d == s - 1 {
      DivMod(s, 1, 0);
    } else {
      DivMod(s, 0, d + 1);
    }
  }

  /** Every drawn index is below `bound` (a `gen_range(0..bound)` draw). */
  ghost predicate DrawsBelow(bound: nat, draws: seq<nat>)
  {
    forall k :: 0 <= k < |draws| ==> draws[k] < bound
  }

  // ---------------------------------------------------------------------
  // Two dimensions: index = y * s + x
  // ---------------------------------------------------------------------

  function Index2(s: nat, x: nat, y: nat): nat
  {
    y * s + x
  }

  /** Column (x coordinate) of linear index `i`. */
  function ColOf(s: nat, i: nat): nat
    requires s > 0
  {
    i % s
  }

  /** Row (y coordinate) of linear index `i`. */
  function RowOf(s: nat, i: nat): nat
    requires s > 0
  {
    i / s
  }

  ghost predicate InGrid2(s: nat, x: nat, y: nat)
  {
    x < s && y < s
  }

  /** Coordinates in the grid give an index below s*s that decodes back to them. */
  lemma Index2Decodes(s: nat, x: nat, y: nat)
    requires InGrid2(s, x, y)
    ensures Index2(s, x, y) < s * s
    ensures ColOf(s, Index2(s, x, y)) == x && RowOf(s, Index2(s, x, y)) == y
  {
    DivMod(s, y, x);
    RowBound(s, y, x, s);
  }

  /** Every index below s*s is the index of exactly the cell it decodes to. */
  lemma Index2Covers(s: nat, i: nat)
    requires s > 0 && i < s * s
    ensures InGrid2(s, ColOf(s, i), RowOf(s, i))
    ensures Index2(s, ColOf(s, i), RowOf(s, i)) == i
  {
    DivBound(s, i, s);
  }

  /** `Index2` is a bijection from the s-by-s grid onto [0, s*s). */
  lemma Index2Bijective(s: nat)
    requires s > 0
    ensures forall x: nat, y: nat :: InGrid2(s, x, y) ==> Index2(s, x, y) < s * s
    ensures forall x1: nat, y1: nat, x2: nat, y2: nat ::
              InGrid2(s, x1, y1) && InGrid2(s, x2, y2) && Index2(s, x1, y1) == Index2(s, x2, y2)
              ==> x1 == x2 && y1 == y2
    ensures forall i: nat :: i < s * s ==>
              InGrid2(s, ColOf(s, i), RowOf(s, i)) && Index2(s, ColOf(s, i), RowOf(s, i)) == i
  {
    forall x: nat, y: nat | InGrid2(s, x, y)
      ensures Index2(s, x, y) < s * s
    {
      Index2Decodes(s, x, y);
    }
    forall x1: nat, y1: nat, x2: nat, y2: nat |
      InGrid2(s, x1, y1) && InGrid2(s, x2, y2) && Index2(s, x1, y1) == Index2(s, x2, y2)
      ensures x1 == x2 && y1 == y2
    {
      Index2Decodes(s, x1, y1);
      Index2Decodes(s, x2, y2);
    }
    forall i: nat | i < s * s
      ensures InGrid2(s, ColOf(s, i), RowOf(s, i)) && Index2(s, ColOf(s, i), RowOf(s, i)) == i
    {
      Index2Covers(s, i);
    }
  }

  // The four wrap-around neighbours, each written as the source writes it.

  function Left2(s: nat, x: nat, y: nat): nat
    requires s > 0
  {
    y * s + (x + s - 1) % s
  }

  function Right2(s: nat, x: nat, y: nat): nat
    requires s > 0
  {
    y * s + (x + 1) % s
  }

  function Top2(s: nat, x: nat, y: nat): nat
    requires s > 0
  {
    (y + s - 1) % s * s + x
  }

  function Bottom2(s: nat, x: nat, y: nat): nat
    requires s > 0
  {
    (y + 1) % s * s + x
  }

  /**
   * Each neighbour is in the grid and differs from (x, y) in exactly one
   * coordinate, by one step around the ring: left/right change the
   * column, top/bottom change the row.
   */
  lemma Neighbours2(s: nat, x: nat, y: nat)
    requires InGrid2(s, x, y)
    ensures Left2(s, x, y) < s * s && Right2(s, x, y) < s * s
    ensures Top2(s, x, y) < s * s && Bottom2(s, x, y) < s * s
    ensures ColOf(s, Left2(s, x, y)) == (if x == 0 then s - 1 else x - 1)
    ensures RowOf(s, Left2(s, x, y)) == y
    ensures ColOf(s, Right2(s, x, y)) == (if x == s - 1 then 0 else x + 1)
    ensures RowOf(s, Right2(s, x, y)) == y
    ensures ColOf(s, Top2(s, x, y)) == x
    ensures RowOf(s, Top2(s, x, y)) == (if y == 0 then s - 1 else y - 1)
    ensures ColOf(s, Bottom2(s, x, y)) == x
    ensures RowOf(s, Bottom2(s, x, y)) == (if y == s - 1 then 0 else y + 1)
  {
    Steps(s, x);
    Steps(s, y);
    Index2Decodes(s, Dec(s, x), y);
    Index2Decodes(s, Inc(s, x), y);
    Index2Decodes(s, x, Dec(s, y));
    Index2Decodes(s, x, Inc(s, y));
  }

  /** Wrap-around at the borders: x = 0 sees column s-1, y = 0 sees row s-1. */
  lemma Wraparound2(s: nat, x: nat, y: nat)
    requires InGrid2(s, x, y)
    ensures Left2(s, 0, y) == Index2(s, s - 1, y)
    ensures Right2(s, s - 1, y) == Index2(s, 0, y)
    ensures Top2(s, x, 0) == Index2(s, x, s - 1)
    ensures Bottom2(s, x, s - 1) == Index2(s, x, 0)
  {
    Steps(s, 0);
    Steps(s, s - 1);
  }

  // Neighbours as functions of the linear index.

  function LeftOf(s: nat, i: nat): nat
    requires s > 0
  {
    Left2(s, ColOf(s, i), RowOf(s, i))
  }

  function RightOf(s: nat, i: nat): nat
    requires s > 0
  {
    Right2(s, ColOf(s, i), RowOf(s, i))
  }

  function TopOf(s: nat, i: nat): nat
    requires s > 0
  {
    Top2(s, ColOf(s, i), RowOf(s, i))
  }

  function BottomOf(s: nat, i: nat): nat
    requires s > 0
  {
    Bottom2(s, ColOf(s, i), RowOf(s, i))
  }

  /** Left undoes right and right undoes left. */
  lemma InversesAcross(s: nat, i: nat)
    requires s > 0 && i < s * s
    ensures LeftOf(s, RightOf(s, i)) == i && RightOf(s, LeftOf(s, i)) == i
  {
    var x, y := ColOf(s, i), RowOf(s, i);
    Index2Covers(s, i);
    Steps(s, x);
    Index2Decodes(s, Inc(s, x), y);
    Index2Decodes(s, Dec(s, x), y);
  }

  /** Top undoes bottom and bottom undoes top. */
  lemma InversesAlong(s: nat, i: nat)
    requires s > 0 && i < s * s
    ensures TopOf(s, BottomOf(s, i)) == i && BottomOf(s, TopOf(s, i)) == i
  {
    var x, y := ColOf(s, i), RowOf(s, i);
    Index2Covers(s, i);
    Steps(s, y);
    Index2Decodes(s, x, Inc(s, y));
    Index2Decodes(s, x, Dec(s, y));
  }

  /** Left undoes right, right undoes left, top undoes bottom and bottom undoes top. */
  lemma Inverses2(s: nat, i: nat)
    requires s > 0 && i < s * s
    ensures LeftOf(s, RightOf(s, i)) == i && RightOf(s, LeftOf(s, i)) == i
    ensures TopOf(s, BottomOf(s, i)) == i && BottomOf(s, TopOf(s, i)) == i
  {
    InversesAcross(s, i);
    InversesAlong(s, i);
  }

  /** On a 1-by-1 torus every neighbour of the only cell is the cell itself. */
  lemma SelfLoops2(x: nat, y: nat)
    requires InGrid2(1, x, y)
    ensures Left2(1, x, y) == 0 && Right2(1, x, y) == 0
    ensures Top2(1, x, y) == 0 && Bottom2(1, x, y) == 0
  {
  }

  // ---------------------------------------------------------------------
  // Three dimensions: index = z * s^2 + y * s + x
  // ---------------------------------------------------------------------

  function Index3(s: nat, x: nat, y: nat, z: nat): nat
  {
    z * (s * s) + y * s + x
  }

  ghost predicate InGrid3(s: nat, x: nat, y: nat, z: nat)
  {
    x < s && y < s && z < s
  }

  /** x, y and z coordinates of linear index `i` in the s-by-s-by-s grid. */
  function XOf(s: nat, i: nat): nat
    requires s > 0
  {
    i % s
  }

  function YOf(s: nat, i: nat): nat
    requires s > 0
  {
    (i / s) % s
  }

  function ZOf(s: nat, i: nat): nat
    requires s > 0
  {
    (i / s) / s
  }

  /** The 3D index is the 2D index of (x, z*s + y): a layered grid. */
  lemma Index3Layers(s: nat, x: nat, y: nat, z: nat)
    ensures Index3(s, x, y, z) == (z * s + y) * s + x
  {
    assert z * (s * s) == (z * s) * s;
  }

  lemma Index3Decodes(s: nat, x: nat, y: nat, z: nat)
    requires InGrid3(s, x, y, z)
    ensures Index3(s, x, y, z) < s * s * s
    ensures XOf(s, Index3(s, x, y, z)) == x
    ensures YOf(s, Index3(s, x, y, z)) == y
    ensures ZOf(s, Index3(s, x, y, z)) == z
  {
    Index3Layers(s, x, y, z);
    DivMod(s, z * s + y, x);
    DivMod(s, z, y);
    RowBound(s, z, y, s);
    RowBound(s, z * s + y, x, s * s);
  }

  lemma Index3Covers(s: nat, i: nat)
    requires s > 0 && i < s * s * s
    ensures InGrid3(s, XOf(s, i), YOf(s, i), ZOf(s, i))
    ensures Index3(s, XOf(s, i), YOf(s, i), ZOf(s, i)) == i
  {
    var x, q := i % s, i / s;
    var y, z := q % s, q / s;
    assert i == q * s + x;
    assert q == z * s + y;
    DivBound(s, i, s * s);
    DivBound(s, q, s);
    Index3Layers(s, x, y, z);
  }

  /** `Index3` is a bijection from the s-by-s-by-s grid onto [0, s^3). */
  lemma Index3Bijective(s: nat)
    requires s > 0
    ensures forall x: nat, y: nat, z: nat :: InGrid3(s, x, y, z) ==> Index3(s, x, y, z) < s * s * s
    ensures forall x1: nat, y1: nat, z1: nat, x2: nat, y2: nat, z2: nat ::
              InGrid3(s, x1, y1, z1) && InGrid3(s, x2, y2, z2) &&
              Index3(s, x1, y1, z1) == Index3(s, x2, y2, z2)
              ==> x1 == x2 && y1 == y2 && z1 == z2
    ensures forall i: nat :: i < s * s * s ==>
              InGrid3(s, XOf(s, i), YOf(s, i), ZOf(s, i)) && Index3(s, XOf(s, i), YOf(s, i), ZOf(s, i)) == i
  {
    forall x: nat, y: nat, z: nat | InGrid3(s, x, y, z)
      ensures Index3(s, x, y, z) < s * s * s
    {
      Index3Decodes(s, x, y, z);
    }
    forall x1: nat, y1: nat, z1: nat, x2: nat, y2: nat, z2: nat |
      InGrid3(s, x1, y1, z1) && InGrid3(s, x2, y2, z2) &&
      Index3(s, x1, y1, z1) == Index3(s, x2, y2, z2)
      ensures x1 == x2 && y1 == y2 && z1 == z2
    {
      Index3Decodes(s, x1, y1, z1);
      Index3Decodes(s, x2, y2, z2);
    }
    forall i: nat | i < s * s * s
      ensures InGrid3(s, XOf(s, i), YOf(s, i), ZOf(s, i)) && Index3(s, XOf(s, i), YOf(s, i), ZOf(s, i)) == i
    {
      Index3Covers(s, i);
    }
  }
}
