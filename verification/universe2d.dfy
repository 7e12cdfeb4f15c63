/**
 * `Universe2D` of `graph_walker/src/universe/universe_2d.rs`.
 *
 * Every node of a side-`size` torus records its four neighbour indices in
 * a `Neighbours` record and keeps one head count per species.  The
 * constructor visits every (x, y) once to build the neighbour records,
 * creates one node per index and seeds agents `0 .. 2 * agent_size` on
 * drawn nodes, even ids red and odd ids blue.  The tick's three node
 * phases live in `node.rs`, which is not part of this model: the nodes
 * they produce are an input here, and only the universe's own counter is
 * modelled.
 */
module Universe2D {
  import opened Agents
  import Torus
  import NeighbourData

  /** The three `f32` parameters of the graffiti dynamics, as reals. */
  datatype HyperParams = HyperParams(gamma: real, lambda: real, beta: real)

  /** A node: its index, its neighbour indices and its red and blue head counts. */
  datatype Node = Node(index: nat, neighbours: NeighbourData.Neighbours, red: nat, blue: nat)

  datatype Universe = Universe(size: nat, nodes: seq<Node>, iteration: nat, hyperParams: HyperParams)

  // ---------------------------------------------------------------------
  // Neighbour records
  // ---------------------------------------------------------------------

  /** The record built for (x, y): `Neighbours::new(top, right, bottom, left)`. */
  function NeighboursAt(size: nat, x: nat, y: nat): NeighbourData.Neighbours
    requires size > 0
  {
    NeighbourData.New(Torus.Top2(size, x, y), Torus.Right2(size, x, y),
                      Torus.Bottom2(size, x, y), Torus.Left2(size, x, y))
  }

  /**
   * Every entry of the record is a node of the grid, and each differs
   * from (x, y) in exactly one coordinate by one step around the torus:
   * top and bottom in the row, left and right in the column.
   */
  lemma NeighboursAtFacts(size: nat, x: nat, y: nat)
    requires x < size && y < size
    ensures var n := NeighboursAt(size, x, y);
            n.size == 4 &&
            n.top < size * size && n.bottom < size * size &&
            n.left < size * size && n.right < size * size &&
            Torus.ColOf(size, n.top) == x && Torus.RowOf(size, n.top) == Torus.Dec(size, y) &&
            Torus.ColOf(size, n.bottom) == x && Torus.RowOf(size, n.bottom) == Torus.Inc(size, y) &&
            Torus.ColOf(size, n.left) == Torus.Dec(size, x) && Torus.RowOf(size, n.left) == y &&
            Torus.ColOf(size, n.right) == Torus.Inc(size, x) && Torus.RowOf(size, n.right) == y
  {
    Torus.Neighbours2(size, x, y);
    Torus.Steps(size, x);
    Torus.Steps(size, y);
  }

  /**
   * The left entry of the right neighbour's record and the top entry of
   * the bottom neighbour's record are the node itself, and vice versa.
   */
  lemma NeighboursAtInverse(size: nat, x: nat, y: nat)
    requires x < size && y < size
    ensures var n := NeighboursAt(size, x, y);
            var self := Torus.Index2(size, x, y);
            NeighboursAt(size, Torus.Inc(size, x), y).left == self &&
            NeighboursAt(size, Torus.Dec(size, x), y).right == self &&
            NeighboursAt(size, x, Torus.Inc(size, y)).top == self &&
            NeighboursAt(size, x, Torus.Dec(size, y)).bottom == self
  {
    Torus.Steps(size, x);
    Torus.Steps(size, y);
  }

  /** Wrap-around: column 0 sees column `size - 1` on its left, row 0 sees row `size - 1` above. */
  lemma NeighboursAtWrap(size: nat, x: nat, y: nat)
    requires x < size && y < size
    ensures NeighboursAt(size, 0, y).left == Torus.Index2(size, size - 1, y)
    ensures NeighboursAt(size, x, 0).top == Torus.Index2(size, x, size - 1)
    ensures NeighboursAt(size, size - 1, y).right == Torus.Index2(size, 0, y)
    ensures NeighboursAt(size, x, size - 1).bottom == Torus.Index2(size, x, 0)
  {
    Torus.Wraparound2(size, x, y);
  }

  /** On a one-node grid all four neighbours are the node itself. */
  lemma NeighboursAtSingle(x: nat, y: nat)
    requires x < 1 && y < 1
    ensures NeighboursAt(1, x, y) == NeighbourData.Neighbours(0, 0, 0, 0, 4)
  {
    Torus.SelfLoops2(x, y);
  }

  /** The record of node `i`, from its decoded coordinates. */
  function NeighboursOfIndex(size: nat, i: nat): NeighbourData.Neighbours
    requires size > 0
  {
    NeighboursAt(size, Torus.ColOf(size, i), Torus.RowOf(size, i))
  }

  // ---------------------------------------------------------------------
  // The edge map
  // ---------------------------------------------------------------------

  /** The edge map after visiting the first `n` indices in order. */
  function EdgesBelow(size: nat, n: nat): map<nat, NeighbourData.Neighbours>
  {
    map i | 0 <= i < n && size > 0 :: NeighboursOfIndex(size, i)
  }

  /** The keys visited so far are exactly the indices below `n`. */
  lemma EdgesBelowKeys(size: nat, n: nat)
    requires size > 0
    ensures forall i: nat :: i in EdgesBelow(size, n) <==> i < n
  {
  }

  /** The complete edge map: one neighbour record per node. */
  function EdgeMap(size: nat): (edges: map<nat, NeighbourData.Neighbours>)
    ensures forall i: nat :: i in edges <==> i < size * size
    ensures forall i: nat :: i in edges ==> size > 0 && edges[i] == NeighboursOfIndex(size, i)
  {
    if size == 0 then
      assert size * size == 0;
      map[]
    else
      EdgesBelowKeys(size, size * size);
      EdgesBelow(size, size * size)
  }

  /** Visiting (x, y) adds its record under its index and nothing else. */
  lemma EdgesBelowStep(size: nat, x: nat, y: nat)
    requires x < size && y < size
    ensures y * size + x < size * size
    ensures EdgesBelow(size, y * size + x + 1) ==
            EdgesBelow(size, y * size + x)[y * size + x := NeighboursAt(size, x, y)]
  {
    var n := y * size + x;
    Torus.Index2Decodes(size, x, y);
    var a, b := EdgesBelow(size, n + 1), EdgesBelow(size, n)[n := NeighboursAt(size, x, y)];
    EdgesBelowKeys(size, n);
    EdgesBelowKeys(size, n + 1);
    assert a.Keys == b.Keys;
  }

  /**
   * The inner loop of `Universe2D::new`: the columns of row y, the record
   * of each (x, y) inserted under `y * size + x`.
   */
  method BuildRow(size: nat, y: nat, edges0: map<nat, NeighbourData.Neighbours>)
    returns (edges: map<nat, NeighbourData.Neighbours>)
    requires y < size && edges0 == EdgesBelow(size, y * size)
    ensures edges == EdgesBelow(size, (y + 1) * size)
  {
    edges := edges0;
    var x := 0;
    while x < size
      invariant x <= size
      invariant edges == EdgesBelow(size, y * size + x)
    {
      var index := y * size + x;
      var left := y * size + (x + size - 1) % size;
      var right := y * size + (x + 1) % size;
      var top := (y + size - 1) % size * size + x;
      var bottom := (y + 1) % size * size + x;
      assert index == Torus.Index2(size, x, y);
      assert left == Torus.Left2(size, x, y) && right == Torus.Right2(size, x, y);
      assert top == Torus.Top2(size, x, y) && bottom == Torus.Bottom2(size, x, y);
      var newEdges := NeighbourData.New(top, right, bottom, left);
      assert newEdges == NeighboursAt(size, x, y);
      EdgesBelowStep(size, x, y);
      edges := edges[index := newEdges];
      x := x + 1;
    }
    Torus.NextRow(size, y);
  }

  /**
   * The construction loop of `Universe2D::new`: rows, then columns.  The
   * result is the complete edge map, so every node's record is the one
   * computed on its single visit.
   */
  method BuildEdges(size: nat) returns (edges: map<nat, NeighbourData.Neighbours>)
    ensures edges == EdgeMap(size)
    ensures forall i: nat :: i in edges <==> i < size * size
  {
    edges := map[];
    var y := 0;
    while y < size
      invariant y <= size
      invariant edges == EdgesBelow(size, y * size)
    {
      edges := BuildRow(size, y, edges);
      y := y + 1;
    }
  }

  // ---------------------------------------------------------------------
  // Nodes and their head counts
  // ---------------------------------------------------------------------

  /**
   * `Node::new(index, &edges)`: the node's record looked up in the edge
   * map, both head counts zero.
   */
  function NewNode(index: nat, edges: map<nat, NeighbourData.Neighbours>): (n: Node)
    requires index in edges
    ensures n.index == index && n.neighbours == edges[index]
    ensures n.red == 0 && n.blue == 0
  {
    Node(index, edges[index], 0, 0)
  }

  /** Head count of species `s` on a node. */
  function Count(n: Node, s: AgentSpecies): nat
  {
    if s == Red then n.red else n.blue
  }

  /** `Node::add_agents(k, s)`: `k` more agents of species `s`. */
  function AddAgents(n: Node, k: nat, s: AgentSpecies): (r: Node)
    ensures r.index == n.index && r.neighbours == n.neighbours
    ensures Count(r, s) == Count(n, s) + k
    ensures forall t :: t != s ==> Count(r, t) == Count(n, t)
  {
    if s == Red then n.(red := n.red + k) else n.(blue := n.blue + k)
  }

  /** Adding agents in two batches is adding them at once. */
  lemma AddAgentsAccumulate(n: Node, j: nat, k: nat, s: AgentSpecies)
    ensures AddAgents(AddAgents(n, j, s), k, s) == AddAgents(n, j + k, s)
  {
  }

  /** Number of agents of species `s` over all nodes. */
  function SpeciesTotal(nodes: seq<Node>, s: AgentSpecies): nat
  {
    if |nodes| == 0 then 0 else SpeciesTotal(nodes[..|nodes| - 1], s) + Count(nodes[|nodes| - 1], s)
  }

  /** Replacing node `d` changes the total by the difference of its counts. */
  lemma {:induction false} SpeciesTotalUpdate(nodes: seq<Node>, d: nat, m: Node, s: AgentSpecies)
    requires d < |nodes|
    ensures SpeciesTotal(nodes[d := m], s) + Count(nodes[d], s) == SpeciesTotal(nodes, s) + Count(m, s)
  {
    var last := |nodes| - 1;
    var updated := nodes[d := m];
    assert updated[..last] == if d == last then nodes[..last] else nodes[..last][d := m];
    if d < last {
      SpeciesTotalUpdate(nodes[..last], d, m, s);
    }
  }

  /** Nodes with no agents at all hold no agents in total. */
  lemma {:induction false} SpeciesTotalEmpty(nodes: seq<Node>, s: AgentSpecies)
    requires forall i :: 0 <= i < |nodes| ==> Count(nodes[i], s) == 0
    ensures SpeciesTotal(nodes, s) == 0
  {
    if |nodes| > 0 {
      SpeciesTotalEmpty(nodes[..|nodes| - 1], s);
    }
  }

  // ---------------------------------------------------------------------
  // Construction and seeding
  // ---------------------------------------------------------------------

  /** One fresh node per index, each with its record from the edge map. */
  function InitialNodes(size: nat): (nodes: seq<Node>)
    ensures |nodes| == size * size
    ensures forall i :: 0 <= i < |nodes| ==>
              nodes[i].index == i && nodes[i].neighbours == NeighboursOfIndex(size, i) &&
              nodes[i].red == 0 && nodes[i].blue == 0
  {
    var edges := EdgeMap(size);
    seq(size * size, i requires 0 <= i < size * size => NewNode(i, edges))
  }

  /**
   * The nodes after seeding agents `0 .. n`: agent `k` is added, with its
   * parity species, to node `draws[k]` (the `rand_range(0..size * size)`
   * draw).  Seeding never touches a node's index or record.
   */
  function Seed(nodes: seq<Node>, draws: seq<nat>, n: nat): (r: seq<Node>)
    requires n <= |draws| && Torus.DrawsBelow(|nodes|, draws)
    ensures |r| == |nodes|
    ensures forall i :: 0 <= i < |r| ==> r[i].index == nodes[i].index && r[i].neighbours == nodes[i].neighbours
  {
    if n == 0 then nodes
    else
      var g := Seed(nodes, draws, n - 1);
      var d := draws[n - 1];
      g[d := AddAgents(g[d], 1, ParitySpecies(n - 1))]
  }

  /**
   * Seeding `n` agents adds `(n + 1) / 2` red and `n / 2` blue agents to
   * the totals, whichever nodes are drawn.
   */
  lemma {:induction false} SeedCounts(nodes: seq<Node>, draws: seq<nat>, n: nat)
    requires n <= |draws| && Torus.DrawsBelow(|nodes|, draws)
    ensures SpeciesTotal(Seed(nodes, draws, n), Red) == SpeciesTotal(nodes, Red) + Evens(n)
    ensures SpeciesTotal(Seed(nodes, draws, n), Blue) == SpeciesTotal(nodes, Blue) + n / 2
  {
    if n > 0 {
      SeedCounts(nodes, draws, n - 1);
      var g, d := Seed(nodes, draws, n - 1), draws[n - 1];
      var m := AddAgents(g[d], 1, ParitySpecies(n - 1));
      SpeciesTotalUpdate(g, d, m, Red);
      SpeciesTotalUpdate(g, d, m, Blue);
      EvensStep(n);
    }
  }

  /**
   * `Universe2D::new(size, agent_size)`: the initial nodes seeded with
   * `2 * agent_size` agents, iteration 0.  The initial hyper parameters
   * are an input.
   */
  function New(size: nat, agentSize: nat, draws: seq<nat>, hyperParams: HyperParams): (u: Universe)
    requires |draws| == 2 * agentSize && Torus.DrawsBelow(size * size, draws)
    ensures u.size == size && u.iteration == 0 && u.hyperParams == hyperParams
    ensures |u.nodes| == size * size
    ensures forall i :: 0 <= i < |u.nodes| ==>
              u.nodes[i].index == i && u.nodes[i].neighbours == NeighboursOfIndex(size, i)
  {
    Universe(size, Seed(InitialNodes(size), draws, 2 * agentSize), 0, hyperParams)
  }

  /**
   * Every node of a new universe has a four-entry record, and the nodes
   * hold `agent_size` red and `agent_size` blue agents, whichever nodes
   * were drawn.
   */
  lemma NewCounts(size: nat, agentSize: nat, draws: seq<nat>, hyperParams: HyperParams)
    requires |draws| == 2 * agentSize && Torus.DrawsBelow(size * size, draws)
    ensures var u := New(size, agentSize, draws, hyperParams);
            (forall i :: 0 <= i < |u.nodes| ==> u.nodes[i].neighbours.size == 4) &&
            SpeciesTotal(u.nodes, Red) == agentSize &&
            SpeciesTotal(u.nodes, Blue) == agentSize
  {
    var u := New(size, agentSize, draws, hyperParams);
    forall i | 0 <= i < |u.nodes|
      ensures u.nodes[i].neighbours.size == 4
    {
      Torus.Index2Covers(size, i);
    }
    var nodes := InitialNodes(size);
    SpeciesTotalEmpty(nodes, Red);
    SpeciesTotalEmpty(nodes, Blue);
    SeedCounts(nodes, draws, 2 * agentSize);
    EvensBalanced(agentSize);
  }

  // ---------------------------------------------------------------------
  // Hyper parameters and the tick
  // ---------------------------------------------------------------------

  /** `set_hyper_params`: replaces the parameters and nothing else. */
  function SetHyperParams(u: Universe, hyperParams: HyperParams): (r: Universe)
    ensures r.hyperParams == hyperParams
    ensures r.size == u.size && r.nodes == u.nodes && r.iteration == u.iteration
  {
    u.(hyperParams := hyperParams)
  }

  /** The last setting wins, so setting the same parameters twice is setting them once. */
  lemma SetHyperParamsLastWins(u: Universe, a: HyperParams, b: HyperParams)
    ensures SetHyperParams(SetHyperParams(u, a), b) == SetHyperParams(u, b)
    ensures SetHyperParams(SetHyperParams(u, a), a) == SetHyperParams(u, a)
  {
  }

  /**
   * `tick`: the nodes become `moved`, the outcome of the graffiti update
   * and the moves out and in, and the iteration counter advances by one;
   * size and hyper parameters stay.  The three phases update the nodes
   * in place (`par_iter_mut`), so there are as many moved nodes as nodes.
   */
  function Tick(u: Universe, moved: seq<Node>): (r: Universe)
    requires |moved| == |u.nodes|
    ensures r.iteration == u.iteration + 1 && r.nodes == moved && |r.nodes| == |u.nodes|
    ensures r.size == u.size && r.hyperParams == u.hyperParams
  {
    u.(nodes := moved, iteration := u.iteration + 1)
  }

  /** Ticks in a row, one list of moved nodes per tick. */
  function Ticks(u: Universe, moves: seq<seq<Node>>): (r: Universe)
    requires forall k :: 0 <= k < |moves| ==> |moves[k]| == |u.nodes|
    ensures |r.nodes| == |u.nodes|
  {
    if |moves| == 0 then u else Tick(Ticks(u, moves[..|moves| - 1]), moves[|moves| - 1])
  }

  /**
   * After `k` ticks the counter has advanced by exactly `k`; size,
   * parameters and the number of nodes are unchanged.
   */
  lemma {:induction false} TicksCount(u: Universe, moves: seq<seq<Node>>)
    requires forall k :: 0 <= k < |moves| ==> |moves[k]| == |u.nodes|
    ensures Ticks(u, moves).iteration == u.iteration + |moves|
    ensures Ticks(u, moves).size == u.size && Ticks(u, moves).hyperParams == u.hyperParams
    ensures |Ticks(u, moves).nodes| == |u.nodes|
  {
    if |moves| > 0 {
      TicksCount(u, moves[..|moves| - 1]);
    }
  }
}
