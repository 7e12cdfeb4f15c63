/**
 * The neighbour computation of `Universe3D::new`
 * (`graph_walker/src/universe/universe_3d.rs`): every (x, y, z) of a
 * side-`size` torus gets its linear index and the indices of its six
 * wrap-around neighbours, collected in a map from index to record.  The
 * rest of that constructor stops at a `todo!()`, and the record type
 * `NeigbourIndeces3D` is not part of this model: here it is a plain
 * record holding the six arguments of its constructor.
 */
module Universe3D {
  import Torus

  datatype Neighbours3D = Neighbours3D(top: nat, right: nat, bottom: nat, left: nat, front: nat, back: nat)

  // The six neighbours, each written as the source writes it.

  function Top3(s: nat, x: nat, y: nat, z: nat): nat
    requires s > 0
  {
    ((z + s - 1) % s) * (s * s) + y * s + x
  }

  function Bottom3(s: nat, x: nat, y: nat, z: nat): nat
    requires s > 0
  {
    ((z + 1) % s) * (s * s) + y * s + x
  }

  function Front3(s: nat, x: nat, y: nat, z: nat): nat
    requires s > 0
  {
    z * (s * s) + ((y + s - 1) % s) * s + x
  }

  function Back3(s: nat, x: nat, y: nat, z: nat): nat
    requires s > 0
  {
    z * (s * s) + ((y + 1) % s) * s + x
  }

  function Left3(s: nat, x: nat, y: nat, z: nat): nat
    requires s > 0
  {
    z * (s * s) + y * s + (x + s - 1) % s
  }

  function Right3(s: nat, x: nat, y: nat, z: nat): nat
    requires s > 0
  {
    z * (s * s) + y * s + (x + 1) % s
  }

  /** The record built for (x, y, z), in the constructor's argument order. */
  function NeighboursAt(s: nat, x: nat, y: nat, z: nat): Neighbours3D
    requires s > 0
  {
    Neighbours3D(Top3(s, x, y, z), Right3(s, x, y, z), Bottom3(s, x, y, z),
                 Left3(s, x, y, z), Front3(s, x, y, z), Back3(s, x, y, z))
  }

  /**
   * Each neighbour is the node one wrap-around step away along a single
   * axis: z for top and bottom, y for front and back, x for left and
   * right.
   */
  lemma NeighboursAreSteps(s: nat, x: nat, y: nat, z: nat)
    requires Torus.InGrid3(s, x, y, z)
    ensures Top3(s, x, y, z) == Torus.Index3(s, x, y, Torus.Dec(s, z))
    ensures Bottom3(s, x, y, z) == Torus.Index3(s, x, y, Torus.Inc(s, z))
    ensures Front3(s, x, y, z) == Torus.Index3(s, x, Torus.Dec(s, y), z)
    ensures Back3(s, x, y, z) == Torus.Index3(s, x, Torus.Inc(s, y), z)
    ensures Left3(s, x, y, z) == Torus.Index3(s, Torus.Dec(s, x), y, z)
    ensures Right3(s, x, y, z) == Torus.Index3(s, Torus.Inc(s, x), y, z)
  {
  }

  /**
   * All six neighbours are nodes of the grid, and decoding each gives
   * back (x, y, z) with exactly one coordinate moved one step around
   * the torus.
   */
  lemma Neighbours3(s: nat, x: nat, y: nat, z: nat)
    requires Torus.InGrid3(s, x, y, z)
    ensures var n := NeighboursAt(s, x, y, z);
            n.top < s * s * s && n.bottom < s * s * s && n.front < s * s * s &&
            n.back < s * s * s && n.left < s * s * s && n.right < s * s * s
    ensures var n := NeighboursAt(s, x, y, z);
            Torus.XOf(s, n.top) == x && Torus.YOf(s, n.top) == y && Torus.ZOf(s, n.top) == Torus.Dec(s, z) &&
            Torus.XOf(s, n.bottom) == x && Torus.YOf(s, n.bottom) == y && Torus.ZOf(s, n.bottom) == Torus.Inc(s, z)
    ensures var n := NeighboursAt(s, x, y, z);
            Torus.XOf(s, n.front) == x && Torus.YOf(s, n.front) == Torus.Dec(s, y) && Torus.ZOf(s, n.front) == z &&
            Torus.XOf(s, n.back) == x && Torus.YOf(s, n.back) == Torus.Inc(s, y) && Torus.ZOf(s, n.back) == z
    ensures var n := NeighboursAt(s, x, y, z);
            Torus.XOf(s, n.left) == Torus.Dec(s, x) && Torus.YOf(s, n.left) == y && Torus.ZOf(s, n.left) == z &&
            Torus.XOf(s, n.right) == Torus.Inc(s, x) && Torus.YOf(s, n.right) == y && Torus.ZOf(s, n.right) == z
  {
    NeighboursAreSteps(s, x, y, z);
    Torus.Steps(s, x);
    Torus.Steps(s, y);
    Torus.Steps(s, z);
    Torus.Index3Decodes(s, x, y, Torus.Dec(s, z));
    Torus.Index3Decodes(s, x, y, Torus.Inc(s, z));
    Torus.Index3Decodes(s, x, Torus.Dec(s, y), z);
    Torus.Index3Decodes(s, x, Torus.Inc(s, y), z);
    Torus.Index3Decodes(s, Torus.Dec(s, x), y, z);
    Torus.Index3Decodes(s, Torus.Inc(s, x), y, z);
  }

  /**
   * Top and bottom, front and back, left and right undo each other: the
   * bottom entry of the top neighbour's record is the node itself, and so
   * on for all six directions.
   */
  lemma Inverses3(s: nat, x: nat, y: nat, z: nat)
    requires Torus.InGrid3(s, x, y, z)
    ensures var self := Torus.Index3(s, x, y, z);
            NeighboursAt(s, x, y, Torus.Dec(s, z)).bottom == self &&
            NeighboursAt(s, x, y, Torus.Inc(s, z)).top == self &&
            NeighboursAt(s, x, Torus.Dec(s, y), z).back == self &&
            NeighboursAt(s, x, Torus.Inc(s, y), z).front == self &&
            NeighboursAt(s, Torus.Dec(s, x), y, z).right == self &&
            NeighboursAt(s, Torus.Inc(s, x), y, z).left == self
  {
    InversesZ(s, x, y, z);
    Torus.Steps(s, x);
    Torus.Steps(s, y);
  }

  /** Top and bottom undo each other. */
  lemma InversesZ(s: nat, x: nat, y: nat, z: nat)
    requires Torus.InGrid3(s, x, y, z)
    ensures var self := Torus.Index3(s, x, y, z);
            NeighboursAt(s, x, y, Torus.Dec(s, z)).bottom == self &&
            NeighboursAt(s, x, y, Torus.Inc(s, z)).top == self
  {
    Torus.Steps(s, z);
  }

  /** On a one-node grid all six neighbours are the node itself. */
  lemma SelfLoops3(x: nat, y: nat, z: nat)
    requires Torus.InGrid3(1, x, y, z)
    ensures NeighboursAt(1, x, y, z) == Neighbours3D(0, 0, 0, 0, 0, 0)
  {
  }

  // ---------------------------------------------------------------------
  // The edge map
  // ---------------------------------------------------------------------

  /** The record of node `i`, from its decoded coordinates. */
  function NeighboursOfIndex(s: nat, i: nat): Neighbours3D
    requires s > 0
  {
    NeighboursAt(s, Torus.XOf(s, i), Torus.YOf(s, i), Torus.ZOf(s, i))
  }

  /** The edge map after visiting the first `n` indices in order. */
  function EdgesBelow(s: nat, n: nat): map<nat, Neighbours3D>
  {
    map i | 0 <= i < n && s > 0 :: NeighboursOfIndex(s, i)
  }

  lemma EdgesBelowKeys(s: nat, n: nat)
    requires s > 0
    ensures forall i: nat :: i in EdgesBelow(s, n) <==> i < n
  {
  }

  /** The complete edge map: one record per node of the s-by-s-by-s grid. */
  function EdgeMap(s: nat): (edges: map<nat, Neighbours3D>)
    ensures forall i: nat :: i in edges <==> i < s * s * s
    ensures forall i: nat :: i in edges ==> s > 0 && edges[i] == NeighboursOfIndex(s, i)
  {
    if s == 0 then
      assert s * s * s == 0;
      map[]
    else
      EdgesBelowKeys(s, s * s * s);
      EdgesBelow(s, s * s * s)
  }

  /** Visiting (x, y, z) adds its record under its index and nothing else. */
  lemma EdgesBelowStep(s: nat, x: nat, y: nat, z: nat)
    requires Torus.InGrid3(s, x, y, z)
    ensures EdgesBelow(s, Torus.Index3(s, x, y, z) + 1) ==
            EdgesBelow(s, Torus.Index3(s, x, y, z))[Torus.Index3(s, x, y, z) := NeighboursAt(s, x, y, z)]
  {
    var n := Torus.Index3(s, x, y, z);
    Torus.Index3Decodes(s, x, y, z);
    var a, b := EdgesBelow(s, n + 1), EdgesBelow(s, n)[n := NeighboursAt(s, x, y, z)];
    EdgesBelowKeys(s, n);
    EdgesBelowKeys(s, n + 1);
    assert a.Keys == b.Keys;
  }

  /**
   * The innermost loop of `Universe3D::new`: the columns of row y of
   * layer z, the record of each (x, y, z) inserted under
   * `z * size^2 + y * size + x`.
   */
  method BuildRow(size: nat, y: nat, z: nat, edges0: map<nat, Neighbours3D>) returns (edges: map<nat, Neighbours3D>)
    requires y < size && z < size
    requires edges0 == EdgesBelow(size, z * (size * size) + y * size)
    ensures edges == EdgesBelow(size, z * (size * size) + (y + 1) * size)
  {
    edges := edges0;
    var x := 0;
    while x < size
      invariant x <= size
      invariant edges == EdgesBelow(size, z * (size * size) + y * size + x)
    {
      var index := z * (size * size) + y * size + x;
      var top := ((z + size - 1) % size) * (size * size) + y * size + x;
      var bottom := ((z + 1) % size) * (size * size) + y * size + x;
      var front := z * (size * size) + ((y + size - 1) % size) * size + x;
      var back := z * (size * size) + ((y + 1) % size) * size + x;
      var left := z * (size * size) + y * size + (x + size - 1) % size;
      var right := z * (size * size) + y * size + (x + 1) % size;
      assert top == Top3(size, x, y, z) && bottom == Bottom3(size, x, y, z);
      assert front == Front3(size, x, y, z) && back == Back3(size, x, y, z);
      assert left == Left3(size, x, y, z) && right == Right3(size, x, y, z);
      var newEdges := Neighbours3D(top, right, bottom, left, front, back);
      EdgesBelowStep(size, x, y, z);
      edges := edges[index := newEdges];
      x := x + 1;
    }
    Torus.NextRow(size, y);
  }

  /**
   * The middle loop of `Universe3D::new`: the rows of layer z, each
   * filled by `BuildRow`.
   */
  method BuildLayer(size: nat, z: nat, edges0: map<nat, Neighbours3D>) returns (edges: map<nat, Neighbours3D>)
    requires z < size && edges0 == EdgesBelow(size, z * (size * size))
    ensures edges == EdgesBelow(size, (z + 1) * (size * size))
  {
    edges := edges0;
    var y := 0;
    while y < size
      invariant y <= size
      invariant edges == EdgesBelow(size, z * (size * size) + y * size)
    {
      edges := BuildRow(size, y, z, edges);
      y := y + 1;
    }
    Torus.NextRow(size * size, z);
  }

  /**
   * The construction loop of `Universe3D::new`: layers, then rows, then
   * columns.  The result is the complete edge map.
   */
  method BuildEdges(size: nat) returns (edges: map<nat, Neighbours3D>)
    ensures edges == EdgeMap(size)
    ensures forall i: nat :: i in edges <==> i < size * size * size
  {
    edges := map[];
    var z := 0;
    while z < size
      invariant z <= size
      invariant edges == EdgesBelow(size, z * (size * size))
    {
      edges := BuildLayer(size, z, edges);
      z := z + 1;
    }
    Torus.Cube(size);
  }
}
