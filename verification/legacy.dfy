/**
 * The first `Universe2D` of `graph_walker` (`graph_walker/src/lib.rs`).
 *
 * It keeps, per node, the sorted list of its four torus neighbours and,
 * per node, a set of agents numbered by a `u32` id.  Construction visits
 * every (x, y) once and records the node's sorted edge list; seeding
 * places agents `0 .. 2n` on drawn nodes, even ids red and odd ids blue.
 * The tick scatters the agents into a local vector that is then dropped,
 * so only the iteration counter changes, unless a drawn slot (below 4)
 * indexes past the end of that vector of `size * size` sets: on a 1x1
 * grid holding agents the tick can panic.
 */
module LegacyUniverse {
  import opened Agents
  import opened Optional
  import Torus
  import Tally

  // ---------------------------------------------------------------------
  // Sorting four indices (`Vec::sort`)
  // ---------------------------------------------------------------------

  ghost predicate Sorted(s: seq<nat>)
  {
    forall i, j :: 0 <= i < j < |s| ==> s[i] <= s[j]
  }

  /** Insertion of `x` into a list, before the first entry it does not exceed. */
  function Insert(x: nat, s: seq<nat>): (r: seq<nat>)
    ensures |r| == |s| + 1
  {
    if |s| == 0 then [x]
    else if x <= s[0] then [x] + s
    else [s[0]] + Insert(x, s[1..])
  }

  /** `sort` of a list of indices, as insertion sort. */
  function Sort(s: seq<nat>): (r: seq<nat>)
    ensures |r| == |s|
  {
    if |s| == 0 then [] else Insert(s[0], Sort(s[1..]))
  }

  /** Insertion adds exactly `x`. */
  lemma {:induction false} InsertMultiset(x: nat, s: seq<nat>)
    ensures multiset(Insert(x, s)) == multiset(s) + multiset{x}
  {
    if |s| > 0 && x > s[0] {
      InsertMultiset(x, s[1..]);
      assert s == [s[0]] + s[1..];
    }
  }

  /** Insertion keeps a sorted list sorted. */
  lemma {:induction false} InsertSorted(x: nat, s: seq<nat>)
    requires Sorted(s)
    ensures Sorted(Insert(x, s))
  {
    if |s| > 0 && x > s[0] {
      var tail := Insert(x, s[1..]);
      InsertSorted(x, s[1..]);
      InsertMultiset(x, s[1..]);
      forall k | 0 <= k < |tail|
        ensures s[0] <= tail[k]
      {
        assert tail[k] in multiset(tail);
        assert tail[k] in multiset(s[1..]) || tail[k] == x;
      }
      assert Insert(x, s) == [s[0]] + tail;
    }
  }

  /** The sorted list is a sorted permutation of the input. */
  lemma {:induction false} SortSpec(s: seq<nat>)
    ensures multiset(Sort(s)) == multiset(s)
    ensures Sorted(Sort(s))
  {
    if |s| > 0 {
      SortSpec(s[1..]);
      InsertMultiset(s[0], Sort(s[1..]));
      InsertSorted(s[0], Sort(s[1..]));
      assert s == [s[0]] + s[1..];
    }
  }

  /** Sorting keeps every entry below a bound that all inputs respect. */
  lemma SortBelow(s: seq<nat>, bound: nat)
    requires forall k :: 0 <= k < |s| ==> s[k] < bound
    ensures multiset(Sort(s)) == multiset(s) && Sorted(Sort(s))
    ensures forall k :: 0 <= k < |Sort(s)| ==> Sort(s)[k] < bound
  {
    var r := Sort(s);
    SortSpec(s);
    forall k | 0 <= k < |r|
      ensures r[k] < bound
    {
      assert r[k] in multiset(s);
    }
  }

  // ---------------------------------------------------------------------
  // Edge lists
  // ---------------------------------------------------------------------

  /** The edge list of node (x, y): `[left, right, top, bottom]`, sorted. */
  function EdgeList(size: nat, x: nat, y: nat): seq<nat>
    requires size > 0
  {
    Sort([Torus.Left2(size, x, y), Torus.Right2(size, x, y), Torus.Top2(size, x, y), Torus.Bottom2(size, x, y)])
  }

  /**
   * A node's edge list has four entries, in non-decreasing order, holding
   * exactly the four neighbour indices with their repetitions; every
   * entry is a node of the grid, and on a one-node grid all four are the
   * node itself.
   */
  lemma EdgeListFacts(size: nat, x: nat, y: nat)
    requires x < size && y < size
    ensures var e := EdgeList(size, x, y);
            |e| == 4 && Sorted(e) &&
            multiset(e) == multiset{Torus.Left2(size, x, y), Torus.Right2(size, x, y),
                                    Torus.Top2(size, x, y), Torus.Bottom2(size, x, y)} &&
            (forall k :: 0 <= k < 4 ==> e[k] < size * size)
  {
    var four := [Torus.Left2(size, x, y), Torus.Right2(size, x, y), Torus.Top2(size, x, y), Torus.Bottom2(size, x, y)];
    Torus.Neighbours2(size, x, y);
    SortBelow(four, size * size);
    assert multiset(four) == multiset{four[0], four[1], four[2], four[3]};
  }

  /** On a one-node grid all four entries are the node itself. */
  lemma EdgeListSingle(size: nat, x: nat, y: nat)
    requires size == 1 && x < size && y < size
    ensures EdgeList(size, x, y) == [0, 0, 0, 0]
  {
    var e := EdgeList(size, x, y);
    EdgeListFacts(size, x, y);
    forall k | 0 <= k < 4
      ensures e[k] == 0
    {
      assert e[k] < size * size;
    }
  }

  /** No deduplication: on a 2-by-2 grid node 0 lists nodes 1 and 2 twice each. */
  lemma EdgeListKeepsDuplicates()
    ensures EdgeList(2, 0, 0) == [1, 1, 2, 2]
  {
    var four := [Torus.Left2(2, 0, 0), Torus.Right2(2, 0, 0), Torus.Top2(2, 0, 0), Torus.Bottom2(2, 0, 0)];
    assert four == [1, 1, 2, 2];
    assert Sort([1, 1, 2, 2]) == [1, 1, 2, 2] by {
      assert Sort([2]) == [2];
      assert Sort([2, 2]) == [2, 2];
      assert Sort([1, 2, 2]) == [1, 2, 2];
    }
  }

  /** The edge map after visiting the first `n` indices of the grid in order. */
  function EdgesBelow(size: nat, n: nat): map<nat, seq<nat>>
  {
    map i | 0 <= i < n && size > 0 :: EdgeList(size, Torus.ColOf(size, i), Torus.RowOf(size, i))
  }

  /** The keys visited so far are exactly the indices below `n`. */
  lemma EdgesBelowKeys(size: nat, n: nat)
    requires size > 0
    ensures forall i: nat :: i in EdgesBelow(size, n) <==> i < n
  {
  }

  /** The complete edge map: one sorted edge list per node of the grid. */
  function EdgeMap(size: nat): (edges: map<nat, seq<nat>>)
    ensures forall i: nat :: i in edges <==> i < size * size
  {
    if size == 0 then
      assert size * size == 0;
      map[]
    else
      EdgesBelowKeys(size, size * size);
      EdgesBelow(size, size * size)
  }

  /** Visiting index `n` adds its edge list under key `n` and nothing else. */
  lemma EdgesBelowExtend(size: nat, n: nat)
    requires size > 0
    ensures EdgesBelow(size, n + 1) ==
            EdgesBelow(size, n)[n := EdgeList(size, Torus.ColOf(size, n), Torus.RowOf(size, n))]
  {
    var a, b := EdgesBelow(size, n + 1), EdgesBelow(size, n)[n := EdgeList(size, Torus.ColOf(size, n), Torus.RowOf(size, n))];
    EdgesBelowKeys(size, n);
    EdgesBelowKeys(size, n + 1);
    assert a.Keys == b.Keys;
  }

  /** One more visit, at column x of row y, adds that node's edge list. */
  lemma EdgesBelowStep(size: nat, x: nat, y: nat)
    requires x < size && y < size
    ensures EdgesBelow(size, y * size + x + 1) ==
            EdgesBelow(size, y * size + x)[y * size + x := EdgeList(size, x, y)]
  {
    var n := y * size + x;
    Torus.Index2Decodes(size, x, y);
    assert Torus.ColOf(size, n) == x && Torus.RowOf(size, n) == y;
    EdgesBelowExtend(size, n);
  }

  /** The node at column x of row y has its edge list in the complete map. */
  lemma EdgeMapAt(size: nat, x: nat, y: nat)
    requires x < size && y < size
    ensures y * size + x in EdgeMap(size)
    ensures EdgeMap(size)[y * size + x] == EdgeList(size, x, y)
  {
    Torus.Index2Decodes(size, x, y);
  }

  /**
   * One visit of the construction loop, at column x of row y: the four
   * neighbour indices, sorted, inserted under the node's index unless
   * that index already has a list.
   */
  method VisitNode(size: nat, x: nat, y: nat, edges0: map<nat, seq<nat>>) returns (edges: map<nat, seq<nat>>)
    requires x < size && y < size && edges0 == EdgesBelow(size, y * size + x)
    ensures edges == EdgesBelow(size, y * size + x + 1)
  {
    var index := y * size + x;
    var left := y * size + (x + size - 1) % size;
    var right := y * size + (x + 1) % size;
    var top := (y + size - 1) % size * size + x;
    var bottom := (y + 1) % size * size + x;
    assert left == Torus.Left2(size, x, y) && right == Torus.Right2(size, x, y);
    assert top == Torus.Top2(size, x, y) && bottom == Torus.Bottom2(size, x, y);
    var newEdges := Sort([left, right, top, bottom]);
    EdgesBelowKeys(size, index);
    EdgesBelowStep(size, x, y);
    edges := edges0;
    if index !in edges {
      edges := edges[index := newEdges];
    }
  }

  /** The inner loop of `Universe2D::new`: the columns of row y, one visit each. */
  method BuildRow(size: nat, y: nat, edges0: map<nat, seq<nat>>) returns (edges: map<nat, seq<nat>>)
    requires y < size && edges0 == EdgesBelow(size, y * size)
    ensures edges == EdgesBelow(size, (y + 1) * size)
  {
    edges := edges0;
    var x := 0;
    while x < size
      invariant x <= size
      invariant edges == EdgesBelow(size, y * size + x)
    {
      edges := VisitNode(size, x, y, edges);
      x := x + 1;
    }
    Torus.NextRow(size, y);
  }

  /**
   * The construction loop of `Universe2D::new`: rows, then columns.  The
   * result is the complete edge map, so (by `EdgeMapAt`) every index
   * holds exactly the list computed on its single visit.
   */
  method BuildEdges(size: nat) returns (edges: map<nat, seq<nat>>)
    ensures edges == EdgeMap(size)
    ensures forall i: nat :: i in edges <==> i < size * size
  {
    edges := map[];
    var y := 0;
    while y < size
      invariant y <= size
      invariant edges == EdgesBelow(size, y * size)
    {
      edges := BuildRow(size, y, edges);
      y := y + 1;
    }
  }

  // ---------------------------------------------------------------------
  // Agents and nodes
  // ---------------------------------------------------------------------

  /** The agent record of this crate: a numeric id, the node it was placed on, its species. */
  datatype GridAgent = GridAgent(id: nat, nodeIndex: nat, species: AgentSpecies)

  datatype Node = Node(index: nat, neighbours: seq<nat>)

  /** `Node::new`: the node's edge list looked up in the edge map (`unwrap` on a present key). */
  function NewNode(index: nat, edges: map<nat, seq<nat>>): (n: Node)
    requires index in edges
    ensures n.index == index && n.neighbours == edges[index]
  {
    Node(index, edges[index])
  }

  /** Number of entries of `agents` of species `s`. */
  function CountSpecies(agents: seq<GridAgent>, s: AgentSpecies): (n: nat)
    ensures n <= |agents|
  {
    if |agents| == 0 then 0
    else CountSpecies(agents[..|agents| - 1], s) + (if agents[|agents| - 1].species == s then 1 else 0)
  }

  /**
   * `Node::agents_with_species`: the agents listed under the node's index,
   * filtered by species and counted; `None` is the `unwrap` panic on a
   * missing key.
   */
  function AgentsWithSpecies(node: Node, agents: map<nat, seq<GridAgent>>, s: AgentSpecies): (r: Option<nat>)
    ensures r.None? <==> node.index !in agents
    ensures r.Some? ==> r.value <= |agents[node.index]|
  {
    if node.index in agents then Some(CountSpecies(agents[node.index], s)) else None
  }

  /** The red and blue counts of a list add up to its length. */
  lemma {:induction false} CountSpeciesPartition(agents: seq<GridAgent>)
    ensures CountSpecies(agents, Red) + CountSpecies(agents, Blue) == |agents|
  {
    if |agents| > 0 {
      CountSpeciesPartition(agents[..|agents| - 1]);
    }
  }

  /**
   * On a list without repetitions the count is the number of distinct
   * agents of that species in it.
   */
  lemma {:induction false} CountSpeciesIsSetSize(agents: seq<GridAgent>, s: AgentSpecies)
    requires forall i, j :: 0 <= i < j < |agents| ==> agents[i] != agents[j]
    ensures CountSpecies(agents, s) == |set a | a in agents && a.species == s|
  {
    if |agents| > 0 {
      var init, last := agents[..|agents| - 1], agents[|agents| - 1];
      CountSpeciesIsSetSize(init, s);
      assert last !in init by {
        forall i | 0 <= i < |init|
          ensures init[i] != last
        {
          assert agents[i] != agents[|agents| - 1];
        }
      }
      assert agents == init + [last];
      SpeciesSetSnoc(init, last, s);
    }
  }

  /** Appending one agent adds it to the species' set exactly when it has that species. */
  lemma SpeciesSetSnoc(init: seq<GridAgent>, last: GridAgent, s: AgentSpecies)
    ensures (set a | a in init + [last] && a.species == s) ==
            (set a | a in init && a.species == s) + (if last.species == s then {last} else {})
  {
  }

  // ---------------------------------------------------------------------
  // Seeding
  // ---------------------------------------------------------------------

  /** Agent number `id`, placed on `node`: even ids are red, odd ids blue. */
  function SeedAgent(id: nat, node: nat): (a: GridAgent)
    ensures a.id == id && a.nodeIndex == node
    ensures a.species == ParitySpecies(id)
  {
    GridAgent(id, node, ParitySpecies(id))
  }

  /**
   * The agent sets after placing agents `0 .. n`: agent `k` goes to node
   * `draws[k]` (the `gen_range(0..size * size)` draw).
   */
  function Seed(size: nat, draws: seq<nat>, n: nat): (g: seq<set<GridAgent>>)
    requires n <= |draws| && Torus.DrawsBelow(size * size, draws)
    ensures |g| == size * size
  {
    if n == 0 then seq(size * size, i => {})
    else
      var g := Seed(size, draws, n - 1);
      var d := draws[n - 1];
      g[d := g[d] + {SeedAgent(n - 1, d)}]
  }

  /** Agents of species `s` per node. */
  function SpeciesSets(g: seq<set<GridAgent>>, s: AgentSpecies): (ss: seq<set<GridAgent>>)
    ensures |ss| == |g|
  {
    seq(|g|, i requires 0 <= i < |g| => set a | a in g[i] && a.species == s)
  }

  /**
   * Node `i` holds exactly the agents `k < n` whose draw was `i`, each
   * recording `i` as its node index.
   */
  lemma {:induction false} SeedMembers(size: nat, draws: seq<nat>, n: nat, i: nat, a: GridAgent)
    requires n <= |draws| && Torus.DrawsBelow(size * size, draws) && i < size * size
    ensures a in Seed(size, draws, n)[i] <==> a.id < n && draws[a.id] == i && a == SeedAgent(a.id, i)
  {
    if n > 0 {
      SeedMembers(size, draws, n - 1, i, a);
    }
  }

  /** Seeding one more agent adds a new agent to the drawn node. */
  lemma SeedFresh(size: nat, draws: seq<nat>, n: nat)
    requires 0 < n <= |draws| && Torus.DrawsBelow(size * size, draws)
    ensures var g, d := Seed(size, draws, n - 1), draws[n - 1];
            d < |g| && SeedAgent(n - 1, d) !in g[d] &&
            Seed(size, draws, n) == g[d := g[d] + {SeedAgent(n - 1, d)}]
  {
    var d := draws[n - 1];
    SeedMembers(size, draws, n - 1, d, SeedAgent(n - 1, d));
  }

  /** Seeding one more agent raises the head count by one. */
  lemma SeedStepTotal(size: nat, draws: seq<nat>, n: nat)
    requires 0 < n <= |draws| && Torus.DrawsBelow(size * size, draws)
    ensures Tally.SumCard(Seed(size, draws, n)) == Tally.SumCard(Seed(size, draws, n - 1)) + 1
  {
    SeedFresh(size, draws, n);
    var g, d := Seed(size, draws, n - 1), draws[n - 1];
    Tally.InsertCount(g, d, SeedAgent(n - 1, d));
  }

  /** Seeding one more agent raises its species' count by one and leaves the other's. */
  lemma SeedStepSpecies(size: nat, draws: seq<nat>, n: nat, s: AgentSpecies)
    requires 0 < n <= |draws| && Torus.DrawsBelow(size * size, draws)
    ensures Tally.SumCard(SpeciesSets(Seed(size, draws, n), s)) ==
            Tally.SumCard(SpeciesSets(Seed(size, draws, n - 1), s)) +
            (if SeedAgent(n - 1, draws[n - 1]).species == s then 1 else 0)
  {
    SeedFresh(size, draws, n);
    var g, d := Seed(size, draws, n - 1), draws[n - 1];
    var a := SeedAgent(n - 1, d);
    var before := SpeciesSets(g, s);
    var r := Seed(size, draws, n);
    var after := SpeciesSets(r, s);
    var expected := if a.species == s then before[d := before[d] + {a}] else before;
    forall i | 0 <= i < |after|
      ensures after[i] == expected[i]
    {
      if i == d {
        assert r[i] == g[d] + {a};
      } else {
        assert r[i] == g[i];
      }
    }
    assert after == expected;
    if a.species == s {
      Tally.InsertCount(before, d, a);
    }
  }

  /**
   * Seeding `n` agents puts `n` distinct agents on the grid: `(n + 1) / 2`
   * red (the even ids) and `n / 2` blue (the odd ids), whichever nodes
   * were drawn.
   */
  lemma {:induction false} SeedCounts(size: nat, draws: seq<nat>, n: nat)
    requires n <= |draws| && Torus.DrawsBelow(size * size, draws)
    ensures var g := Seed(size, draws, n);
            Tally.SumCard(g) == n &&
            Tally.SumCard(SpeciesSets(g, Red)) == Evens(n) &&
            Tally.SumCard(SpeciesSets(g, Blue)) == n / 2
  {
    if n == 0 {
      var g0 := Seed(size, draws, 0);
      Tally.SumCardEmpty(g0);
      Tally.SumCardEmpty(SpeciesSets(g0, Red));
      Tally.SumCardEmpty(SpeciesSets(g0, Blue));
    } else {
      SeedCounts(size, draws, n - 1);
      SeedStepTotal(size, draws, n);
      SeedStepSpecies(size, draws, n, Red);
      SeedStepSpecies(size, draws, n, Blue);
      EvensStep(n);
    }
  }

  /** With `2n` agents seeded, each species has exactly `n`. */
  lemma SeedBalanced(size: nat, draws: seq<nat>, n: nat)
    requires |draws| == 2 * n && Torus.DrawsBelow(size * size, draws)
    ensures var g := Seed(size, draws, 2 * n);
            Tally.SumCard(g) == 2 * n &&
            Tally.SumCard(SpeciesSets(g, Red)) == n &&
            Tally.SumCard(SpeciesSets(g, Blue)) == n
  {
    SeedCounts(size, draws, 2 * n);
    EvensBalanced(n);
  }

  // ---------------------------------------------------------------------
  // The universe
  // ---------------------------------------------------------------------

  datatype Universe = Universe(size: nat, nodes: seq<Node>, agents: seq<set<GridAgent>>, iteration: nat)

  /**
   * `Universe2D::new(size, agent_size)`: one node per index carrying its
   * edge list, `2 * agent_size` agents seeded from the draws, iteration 0.
   */
  function New(size: nat, agentSize: nat, draws: seq<nat>): (u: Universe)
    requires |draws| == 2 * agentSize && Torus.DrawsBelow(size * size, draws)
    ensures u.size == size && u.iteration == 0
    ensures |u.nodes| == size * size && |u.agents| == size * size
    ensures forall i :: 0 <= i < |u.nodes| ==> u.nodes[i].index == i && |u.nodes[i].neighbours| == 4
    ensures forall i :: 0 <= i < |u.nodes| ==> u.nodes[i].neighbours == EdgeMap(size)[i]
  {
    var edges := EdgeMap(size);
    var nodes := seq(size * size, i requires 0 <= i < size * size => NewNode(i, edges));
    assert forall i :: 0 <= i < |nodes| ==> |nodes[i].neighbours| == 4 by {
      forall i | 0 <= i < |nodes|
        ensures |nodes[i].neighbours| == 4
      {
        assert size > 0;
      }
    }
    Universe(size, nodes, Seed(size, draws, 2 * agentSize), 0)
  }

  /**
   * The construction as the crate's test checks it: `size * size` agent
   * sets holding `2 * agent_size` agents, `agent_size` of each species,
   * whatever nodes are drawn.
   */
  lemma NewCounts(size: nat, agentSize: nat, draws: seq<nat>)
    requires |draws| == 2 * agentSize && Torus.DrawsBelow(size * size, draws)
    ensures var u := New(size, agentSize, draws);
            |u.agents| == size * size &&
            Tally.SumCard(u.agents) == 2 * agentSize &&
            Tally.SumCard(SpeciesSets(u.agents, Red)) == agentSize &&
            Tally.SumCard(SpeciesSets(u.agents, Blue)) == agentSize
  {
    SeedBalanced(size, draws, agentSize);
  }

  /**
   * The shape `new` builds: `size * size` nodes and agent sets, every node
   * with its four-entry edge list.
   */
  ghost predicate WellFormed(u: Universe)
  {
    |u.nodes| == u.size * u.size && |u.agents| == u.size * u.size &&
    forall i :: 0 <= i < |u.nodes| ==> |u.nodes[i].neighbours| == 4
  }

  lemma NewWellFormed(size: nat, agentSize: nat, draws: seq<nat>)
    requires |draws| == 2 * agentSize && Torus.DrawsBelow(size * size, draws)
    ensures WellFormed(New(size, agentSize, draws))
  {
  }

  // ---------------------------------------------------------------------
  // The tick
  // ---------------------------------------------------------------------

  /**
   * The slot draws of one tick.  Node `i` is visited once per species, and
   * each visit draws `gen_range(0..neighbours.len())` for every agent of
   * the node, whatever its species: `2 * |agents[i]|` draws, each below
   * the length of the node's edge list.
   */
  ghost predicate TickDraws(u: Universe, draws: seq<seq<nat>>)
  {
    |u.nodes| == |u.agents| && |draws| == |u.agents| &&
    forall i :: 0 <= i < |draws| ==>
      |draws[i]| == 2 * |u.agents[i]| && Torus.DrawsBelow(|u.nodes[i].neighbours|, draws[i])
  }

  /** The first draw of `d` from position `from` on that is not below `bound`. */
  function FirstInRangeFailure(d: seq<nat>, bound: nat, from: nat): (r: Option<nat>)
    requires from <= |d|
    decreases |d| - from
    ensures r.None? <==> forall k :: from <= k < |d| ==> d[k] < bound
    ensures r.Some? ==> from <= r.value < |d| && d[r.value] >= bound
    ensures r.Some? ==> forall k :: from <= k < r.value ==> d[k] < bound
  {
    if from == |d| then None
    else if d[from] >= bound then Some(from)
    else FirstInRangeFailure(d, bound, from + 1)
  }

  /**
   * The first draw, in visiting order from node `from` on, that indexes
   * past `bound`: as (node, position among that node's draws).
   */
  function FirstOverflow(draws: seq<seq<nat>>, bound: nat, from: nat): (r: Option<(nat, nat)>)
    requires from <= |draws|
    decreases |draws| - from
    ensures r.None? <==> forall i, j :: from <= i < |draws| && 0 <= j < |draws[i]| ==> draws[i][j] < bound
    ensures r.Some? ==> from <= r.value.0 < |draws| && r.value.1 < |draws[r.value.0]|
    ensures r.Some? ==> draws[r.value.0][r.value.1] >= bound
    ensures r.Some? ==> forall i, j :: from <= i < r.value.0 && 0 <= j < |draws[i]| ==> draws[i][j] < bound
    ensures r.Some? ==> forall j :: 0 <= j < r.value.1 ==> draws[r.value.0][j] < bound
  {
    if from == |draws| then None
    else match FirstInRangeFailure(draws[from], bound, 0)
      case Some(j) => Some((from, j))
      case None => FirstOverflow(draws, bound, from + 1)
  }

  /** What a tick leaves: the advanced universe, or the index-out-of-bounds panic. */
  datatype TickOutcome = Ticked(next: Universe) | OutOfBounds(node: nat, position: nat, slot: nat)

  /**
   * `tick`: every drawn slot indexes `new_agents`, a vector of
   * `size * size` sets that is dropped at the end.  The first slot past
   * its end panics; otherwise only the counter advances.  The graffiti
   * update before the scattering only touches `f32` state.
   */
  function Tick(u: Universe, draws: seq<seq<nat>>): (r: TickOutcome)
    requires TickDraws(u, draws)
    ensures r.OutOfBounds? <==>
              exists i, j :: 0 <= i < |draws| && 0 <= j < |draws[i]| && draws[i][j] >= u.size * u.size
    ensures r.OutOfBounds? ==>
              r.node < |u.agents| && r.position < 2 * |u.agents[r.node]| &&
              r.slot == draws[r.node][r.position] && r.slot >= u.size * u.size
    ensures r.Ticked? ==>
              r.next.iteration == u.iteration + 1 &&
              r.next.agents == u.agents && r.next.nodes == u.nodes && r.next.size == u.size
  {
    match FirstOverflow(draws, u.size * u.size, 0)
    case Some((i, j)) => OutOfBounds(i, j, draws[i][j])
    case None => Ticked(u.(iteration := u.iteration + 1))
  }

  /**
   * On a grid of side 2 or more every slot (below 4) indexes one of the
   * `size * size >= 4` sets, so the tick never panics.
   */
  lemma TickNeverPanicsFromSize2(u: Universe, draws: seq<seq<nat>>)
    requires WellFormed(u) && TickDraws(u, draws) && u.size >= 2
    ensures Tick(u, draws).Ticked?
  {
  }

  /**
   * On a 1x1 grid the only set is number 0: the tick panics exactly when
   * some agent draws a slot other than 0.
   */
  lemma SingleNodeTick(u: Universe, draws: seq<seq<nat>>)
    requires TickDraws(u, draws) && u.size == 1
    ensures Tick(u, draws).OutOfBounds? <==>
              exists i, j :: 0 <= i < |draws| && 0 <= j < |draws[i]| && draws[i][j] != 0
  {
  }

  /** A 1x1 universe with one red agent panics when its first draw is slot 1. */
  lemma SingleNodeTickPanics(a: GridAgent)
    ensures var u := Universe(1, [Node(0, [0, 0, 0, 0])], [{a}], 0);
            Tick(u, [[1, 0]]) == OutOfBounds(0, 0, 1)
  {
  }

  /** Ticks in a row, one list of draws per tick, stopping at the first panic. */
  function Ticks(u: Universe, rounds: seq<seq<seq<nat>>>): TickOutcome
    requires forall k :: 0 <= k < |rounds| ==> TickDraws(u, rounds[k])
    decreases |rounds|
  {
    if |rounds| == 0 then Ticked(u)
    else match Tick(u, rounds[0])
      case Ticked(next) =>
        assert forall k :: 0 <= k < |rounds| - 1 ==> TickDraws(next, rounds[1..][k]) by {
          forall k | 0 <= k < |rounds| - 1
            ensures TickDraws(next, rounds[1..][k])
          {
            assert rounds[1..][k] == rounds[k + 1] && TickDraws(u, rounds[k + 1]);
          }
        }
        Ticks(next, rounds[1..])
      case panic => panic
  }

  /**
   * Ticks in a row get through exactly when every one of them would, and
   * then the counter has advanced by their number and the agents, nodes
   * and size are what they were.
   */
  lemma {:induction false} TicksKeepAgents(u: Universe, rounds: seq<seq<seq<nat>>>)
    requires forall k :: 0 <= k < |rounds| ==> TickDraws(u, rounds[k])
    ensures Ticks(u, rounds).Ticked? <==> forall k :: 0 <= k < |rounds| ==> Tick(u, rounds[k]).Ticked?
    ensures Ticks(u, rounds).Ticked? ==> Ticks(u, rounds).next == u.(iteration := u.iteration + |rounds|)
    decreases |rounds|
  {
    if |rounds| > 0 {
      match Tick(u, rounds[0])
      case Ticked(next) =>
        var rest := rounds[1..];
        assert forall k :: 0 <= k < |rest| ==> rest[k] == rounds[k + 1] && TickDraws(next, rest[k]);
        TicksKeepAgents(next, rest);
        forall k | 0 <= k < |rest|
          ensures Tick(next, rest[k]).Ticked? <==> Tick(u, rounds[k + 1]).Ticked?
        {
        }
      case _ =>
    }
  }

  /** On a grid of side 2 or more, `k` ticks advance the counter by `k` and keep every agent where it is. */
  lemma TicksFromSize2(u: Universe, rounds: seq<seq<seq<nat>>>)
    requires WellFormed(u) && u.size >= 2
    requires forall k :: 0 <= k < |rounds| ==> TickDraws(u, rounds[k])
    ensures Ticks(u, rounds) == Ticked(u.(iteration := u.iteration + |rounds|))
  {
    forall k | 0 <= k < |rounds|
      ensures Tick(u, rounds[k]).Ticked?
    {
      TickNeverPanicsFromSize2(u, rounds[k]);
    }
    TicksKeepAgents(u, rounds);
  }
}
