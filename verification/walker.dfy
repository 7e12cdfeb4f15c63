/**
 * The universe of the `walker2d` crate (`walker2d/src/lib.rs`); the
 * `Universe` of `test-cell/src/main.rs` is the same code and is modelled
 * by the same definitions.
 *
 * The universe is a row-major vector of `size * size` cells, cell `i`
 * sitting at column `i % size` and row `i / size`.  Random draws are
 * inputs: seeding takes one `Draw` per inserted agent, and a tick takes a
 * single neighbour slot, because the source draws it from a fresh clone
 * of the universe's generator, which the tick itself never advances, so
 * every agent of a tick gets the same slot.
 */
module Walker {
  import opened Agents
  import opened Cells
  import Torus
  import Tally

  datatype Universe = Universe(size: nat, cells: seq<Cell>, iteration: nat)

  /** Cell `i` holds the coordinates `new` gave it: column `i % size`, row `i / size`. */
  ghost predicate WellFormed(u: Universe)
  {
    |u.cells| == u.size * u.size &&
    forall i :: 0 <= i < |u.cells| ==> u.size > 0 && u.cells[i].x == i % u.size && u.cells[i].y == i / u.size
  }

  /** `Universe::new`: `size * size` empty cells laid out row by row, iteration 0. */
  function New(size: nat): (u: Universe)
    ensures WellFormed(u) && u.size == size && u.iteration == 0
    ensures |u.cells| == size * size
    ensures forall i :: 0 <= i < |u.cells| ==> u.cells[i].agents == {}
  {
    Universe(size, seq(size * size, i requires 0 <= i < size * size => NewCell(i % size, i / size)), 0)
  }

  /** `get_index`: both coordinates reduced modulo `size`, then row-major. */
  function GetIndex(size: nat, row: nat, column: nat): (i: nat)
    requires size > 0
    ensures i < size * size
    ensures Torus.ColOf(size, i) == column % size && Torus.RowOf(size, i) == row % size
  {
    Torus.Index2Decodes(size, column % size, row % size);
    (row % size) * size + column % size
  }

  /** `get_cell(row, col)`: the grid cell at column `col % size` and row `row % size`. */
  function GetCell(u: Universe, row: nat, col: nat): (c: Cell)
    requires WellFormed(u) && u.size > 0
    ensures c in u.cells
    ensures c.x == col % u.size && c.y == row % u.size
  {
    u.cells[GetIndex(u.size, row, col)]
  }

  /** Looking a cell up by its own coordinates finds that very cell. */
  lemma GetIndexOfCell(u: Universe, j: nat)
    requires WellFormed(u) && j < |u.cells|
    ensures GetIndex(u.size, u.cells[j].y, u.cells[j].x) == j
  {
    var s := u.size;
    Torus.Index2Covers(s, j);
    Torus.DivMod(s, 0, j % s);
    Torus.DivBound(s, j, s);
    Torus.DivMod(s, 0, j / s);
  }

  /** `get_cell(y, x)` of a cell's own coordinates returns that very cell. */
  lemma GetCellOfCell(u: Universe, j: nat)
    requires WellFormed(u) && j < |u.cells|
    ensures GetCell(u, u.cells[j].y, u.cells[j].x) == u.cells[j]
  {
    GetIndexOfCell(u, j);
  }

  // ---------------------------------------------------------------------
  // Neighbours
  // ---------------------------------------------------------------------

  /**
   * `AsWritten` is `neighbours_of(col, row)` as the source writes it: it
   * calls `get_cell(col, size + row - 1)` and friends, so `col` lands in
   * the `row` parameter and vice versa.  `Corrected` passes them the
   * other way round.
   */
  datatype Topology = AsWritten | Corrected

  /** Indices of the cells `neighbours_of` returns, in its order top, bottom, left, right. */
  function NeighbourIndices(topo: Topology, size: nat, col: nat, row: nat): (r: seq<nat>)
    requires size > 0
    ensures |r| == 4 && forall k :: 0 <= k < 4 ==> r[k] < size * size
  {
    match topo
    case AsWritten =>
      [GetIndex(size, col, size + row - 1), GetIndex(size, col, row + 1),
       GetIndex(size, size + col - 1, row), GetIndex(size, col + 1, row)]
    case Corrected =>
      [GetIndex(size, size + row - 1, col), GetIndex(size, row + 1, col),
       GetIndex(size, row, size + col - 1), GetIndex(size, row, col + 1)]
  }

  /**
   * `neighbours_of`: four `get_cell` calls, the cells at the four indices
   * `NeighbourIndices` computes.
   */
  function NeighboursOf(u: Universe, topo: Topology, col: nat, row: nat): (r: seq<Cell>)
    requires WellFormed(u) && u.size > 0
    ensures |r| == 4 && forall k :: 0 <= k < 4 ==> r[k] in u.cells
    ensures forall k :: 0 <= k < 4 ==> r[k] == u.cells[NeighbourIndices(topo, u.size, col, row)[k]]
  {
    match topo
    case AsWritten =>
      [GetCell(u, col, u.size + row - 1), GetCell(u, col, row + 1),
       GetCell(u, u.size + col - 1, row), GetCell(u, col + 1, row)]
    case Corrected =>
      [GetCell(u, u.size + row - 1, col), GetCell(u, row + 1, col),
       GetCell(u, row, u.size + col - 1), GetCell(u, row, col + 1)]
  }

  lemma SmallMod(s: nat, c: nat)
    requires c < s
    ensures c % s == c
  {
    Torus.DivMod(s, 0, c);
  }

  /**
   * The corrected lookup returns the four torus neighbours of (col, row):
   * top, bottom, left and right.
   */
  lemma CorrectedIsAdjacent(size: nat, col: nat, row: nat)
    requires col < size && row < size
    ensures NeighbourIndices(Corrected, size, col, row) ==
            [Torus.Top2(size, col, row), Torus.Bottom2(size, col, row),
             Torus.Left2(size, col, row), Torus.Right2(size, col, row)]
  {
    SmallMod(size, col);
    SmallMod(size, row);
    assert size + row - 1 == row + size - 1;
    assert size + col - 1 == col + size - 1;
  }

  /**
   * As written, the lookup returns the torus neighbours of the transposed
   * cell (row, col): its left, right, top and bottom.
   */
  lemma AsWrittenIsTransposed(size: nat, col: nat, row: nat)
    requires col < size && row < size
    ensures NeighbourIndices(AsWritten, size, col, row) ==
            [Torus.Left2(size, row, col), Torus.Right2(size, row, col),
             Torus.Top2(size, row, col), Torus.Bottom2(size, row, col)]
  {
    SmallMod(size, col);
    SmallMod(size, row);
    assert size + row - 1 == row + size - 1;
    assert size + col - 1 == col + size - 1;
  }

  /** Each corrected neighbour shares a column or a row with the cell. */
  lemma CorrectedSharesLine(size: nat, col: nat, row: nat, k: nat)
    requires col < size && row < size && k < 4
    ensures var n := NeighbourIndices(Corrected, size, col, row)[k];
            Torus.ColOf(size, n) == col || Torus.RowOf(size, n) == row
  {
    CorrectedIsAdjacent(size, col, row);
    Torus.Neighbours2(size, col, row);
  }

  /**
   * As written, the "top" neighbour of (col, row) is the cell at column
   * `row - 1` (wrapping) and row `col`.  Unless one of those happens to
   * match, it shares neither column nor row with the cell, so it is none
   * of the cell's four torus neighbours.
   */
  lemma AsWrittenTopNotAdjacent(size: nat, col: nat, row: nat)
    requires col < size && row < size && col != row && col != Torus.Dec(size, row)
    ensures var t := NeighbourIndices(AsWritten, size, col, row)[0];
            Torus.ColOf(size, t) == Torus.Dec(size, row) && Torus.RowOf(size, t) == col &&
            t !in NeighbourIndices(Corrected, size, col, row)
  {
    var t := NeighbourIndices(AsWritten, size, col, row)[0];
    SmallMod(size, col);
    assert size + row - 1 == row + size - 1;
    forall k | 0 <= k < 4
      ensures NeighbourIndices(Corrected, size, col, row)[k] != t
    {
      CorrectedSharesLine(size, col, row, k);
    }
  }

  /**
   * The transposition shows on every grid of side three or more: the
   * cell at column 1, row 0 gets a "top" neighbour that is not adjacent
   * to it (on a 3-by-3 grid, index 5 for cell 1).
   */
  lemma TransposedNeighbourNotAdjacent(size: nat)
    requires size >= 3
    ensures NeighbourIndices(AsWritten, size, 1, 0)[0] !in NeighbourIndices(Corrected, size, 1, 0)
  {
    Torus.Steps(size, 0);
    AsWrittenTopNotAdjacent(size, 1, 0);
  }

  // ---------------------------------------------------------------------
  // Head counts
  // ---------------------------------------------------------------------

  function AgentSets(cells: seq<Cell>): (ss: seq<set<Agent>>)
    ensures |ss| == |cells| && forall i :: 0 <= i < |cells| ==> ss[i] == cells[i].agents
  {
    seq(|cells|, i requires 0 <= i < |cells| => cells[i].agents)
  }

  function SpeciesSets(cells: seq<Cell>, s: AgentSpecies): (ss: seq<set<Agent>>)
    ensures |ss| == |cells| && forall i :: 0 <= i < |cells| ==> |ss[i]| == NumAgents(cells[i], s)
  {
    seq(|cells|, i requires 0 <= i < |cells| => OfSpecies(cells[i].agents, s))
  }

  /** Number of agents on the grid (the sum of the cells' set sizes). */
  function TotalAgents(cells: seq<Cell>): nat
  {
    Tally.SumCard(AgentSets(cells))
  }

  /** Number of agents of species `s` on the grid (the sum of `num_agents(s)`). */
  function SpeciesTotal(cells: seq<Cell>, s: AgentSpecies): nat
  {
    Tally.SumCard(SpeciesSets(cells, s))
  }

  /** No agent stands on two cells at once. */
  ghost predicate Distinct(cells: seq<Cell>)
  {
    Tally.PairwiseDisjoint(AgentSets(cells))
  }

  /** On a grid of distinct agents, the species total is the size of that species among all agents. */
  lemma SpeciesView(cells: seq<Cell>, s: AgentSpecies)
    requires Distinct(cells)
    ensures Tally.PairwiseDisjoint(SpeciesSets(cells, s))
    ensures Tally.UnionAll(SpeciesSets(cells, s)) == OfSpecies(Tally.UnionAll(AgentSets(cells)), s)
    ensures SpeciesTotal(cells, s) == |OfSpecies(Tally.UnionAll(AgentSets(cells)), s)|
  {
    var ss, all := SpeciesSets(cells, s), AgentSets(cells);
    forall a
      ensures a in Tally.UnionAll(ss) <==> a in OfSpecies(Tally.UnionAll(all), s)
    {
      Tally.InUnionAll(ss, a);
      Tally.InUnionAll(all, a);
    }
    Tally.SumCardDisjoint(ss);
  }

  // ---------------------------------------------------------------------
  // Tick
  // ---------------------------------------------------------------------

  /**
   * Where the agents of cell `i` go: the neighbour in slot `slot`, found
   * again through `get_index(neighbour.y, neighbour.x)`.
   */
  function Dest(u: Universe, topo: Topology, slot: nat, i: nat): (d: nat)
    requires WellFormed(u) && slot < 4 && i < |u.cells|
    ensures d < |u.cells|
  {
    var c := u.cells[i];
    var nb := NeighboursOf(u, topo, c.x, c.y)[slot];
    GetIndex(u.size, nb.y, nb.x)
  }

  /** Every agent of cell `i` goes to the same cell: the neighbour index in slot `slot`. */
  lemma DestIsSlot(u: Universe, topo: Topology, slot: nat, i: nat)
    requires WellFormed(u) && slot < 4 && i < |u.cells|
    ensures Dest(u, topo, slot, i) == NeighbourIndices(topo, u.size, u.cells[i].x, u.cells[i].y)[slot]
  {
    var j := NeighbourIndices(topo, u.size, u.cells[i].x, u.cells[i].y)[slot];
    GetIndexOfCell(u, j);
  }

  /** The agents that arrive at cell `j`. */
  function Arrivals(u: Universe, topo: Topology, slot: nat, j: nat): set<Agent>
    requires WellFormed(u) && slot < 4
  {
    set i, a | 0 <= i < |u.cells| && a in u.cells[i].agents && Dest(u, topo, slot, i) == j :: a
  }

  /**
   * One tick: the next grid copies every cell with an empty agent set,
   * each agent of the old grid is inserted into the cell its slot
   * selects, and the iteration counter goes up by one.
   */
  function TickWith(u: Universe, topo: Topology, slot: nat): (r: Universe)
    requires WellFormed(u) && slot < 4
    ensures WellFormed(r) && r.size == u.size && |r.cells| == |u.cells|
    ensures r.iteration == u.iteration + 1
    ensures forall j :: 0 <= j < |r.cells| ==> r.cells[j].x == u.cells[j].x && r.cells[j].y == u.cells[j].y
  {
    var next := seq(|u.cells|, j requires 0 <= j < |u.cells| =>
                      Cell(u.cells[j].x, u.cells[j].y, Arrivals(u, topo, slot, j)));
    Universe(u.size, next, u.iteration + 1)
  }

  /** `Universe::tick` as the source writes it. */
  function Tick(u: Universe, slot: nat): (r: Universe)
    requires WellFormed(u) && slot < 4
    ensures WellFormed(r) && r.size == u.size && r.iteration == u.iteration + 1
    ensures forall i, a :: 0 <= i < |u.cells| && a in u.cells[i].agents ==>
              a in r.cells[NeighbourIndices(AsWritten, u.size, u.cells[i].x, u.cells[i].y)[slot]].agents
  {
    var r := TickWith(u, AsWritten, slot);
    assert forall i, a :: 0 <= i < |u.cells| && a in u.cells[i].agents ==>
             a in r.cells[NeighbourIndices(AsWritten, u.size, u.cells[i].x, u.cells[i].y)[slot]].agents by {
      forall i, a | 0 <= i < |u.cells| && a in u.cells[i].agents
        ensures a in r.cells[NeighbourIndices(AsWritten, u.size, u.cells[i].x, u.cells[i].y)[slot]].agents
      {
        TickPlacement(u, AsWritten, slot, i, a);
      }
    }
    r
  }

  /** The tick with the corrected neighbour lookup. */
  function CorrectedTick(u: Universe, slot: nat): (r: Universe)
    requires WellFormed(u) && slot < 4
    ensures WellFormed(r) && r.size == u.size && r.iteration == u.iteration + 1
    ensures forall i, a :: 0 <= i < |u.cells| && a in u.cells[i].agents ==>
              a in r.cells[NeighbourIndices(Corrected, u.size, u.cells[i].x, u.cells[i].y)[slot]].agents
  {
    var r := TickWith(u, Corrected, slot);
    assert forall i, a :: 0 <= i < |u.cells| && a in u.cells[i].agents ==>
             a in r.cells[NeighbourIndices(Corrected, u.size, u.cells[i].x, u.cells[i].y)[slot]].agents by {
      forall i, a | 0 <= i < |u.cells| && a in u.cells[i].agents
        ensures a in r.cells[NeighbourIndices(Corrected, u.size, u.cells[i].x, u.cells[i].y)[slot]].agents
      {
        TickPlacement(u, Corrected, slot, i, a);
      }
    }
    r
  }

  /**
   * Every agent of cell `i` lands in the neighbour selected by `slot`,
   * and nothing lands anywhere unless it came from a cell whose slot
   * points there.
   */
  lemma TickPlacement(u: Universe, topo: Topology, slot: nat, i: nat, a: Agent)
    requires WellFormed(u) && slot < 4 && i < |u.cells| && a in u.cells[i].agents
    ensures a in TickWith(u, topo, slot).cells[NeighbourIndices(topo, u.size, u.cells[i].x, u.cells[i].y)[slot]].agents
  {
    DestIsSlot(u, topo, slot, i);
  }

  lemma TickOnlyArrivals(u: Universe, topo: Topology, slot: nat, j: nat, a: Agent)
    requires WellFormed(u) && slot < 4 && j < |u.cells|
    requires a in TickWith(u, topo, slot).cells[j].agents
    ensures exists i :: 0 <= i < |u.cells| && a in u.cells[i].agents &&
                        NeighbourIndices(topo, u.size, u.cells[i].x, u.cells[i].y)[slot] == j
  {
    var i :| 0 <= i < |u.cells| && a in u.cells[i].agents && Dest(u, topo, slot, i) == j;
    DestIsSlot(u, topo, slot, i);
  }

  /** On a grid of distinct agents, the totals are the sizes of the union of all cells. */
  lemma Census(cells: seq<Cell>)
    requires Distinct(cells)
    ensures TotalAgents(cells) == |Tally.UnionAll(AgentSets(cells))|
    ensures forall s :: SpeciesTotal(cells, s) == |OfSpecies(Tally.UnionAll(AgentSets(cells)), s)|
  {
    Tally.SumCardDisjoint(AgentSets(cells));
    SpeciesView(cells, Red);
    SpeciesView(cells, Blue);
    forall s ensures SpeciesTotal(cells, s) == |OfSpecies(Tally.UnionAll(AgentSets(cells)), s)| {
      assert s == Red || s == Blue;
    }
  }

  /** On a grid of distinct agents, an agent stands on at most one cell. */
  lemma UniqueCell(cells: seq<Cell>, a: Agent, i1: nat, i2: nat)
    requires Distinct(cells) && i1 < |cells| && i2 < |cells|
    requires a in cells[i1].agents && a in cells[i2].agents
    ensures i1 == i2
  {
    var ss := AgentSets(cells);
    assert a in ss[i1] && a in ss[i2];
  }

  /** After a tick no agent stands on two cells, provided none did before. */
  lemma TickDistinct(u: Universe, topo: Topology, slot: nat)
    requires WellFormed(u) && slot < 4 && Distinct(u.cells)
    ensures Distinct(TickWith(u, topo, slot).cells)
  {
    var after := AgentSets(TickWith(u, topo, slot).cells);
    forall j1, j2 | 0 <= j1 < |after| && 0 <= j2 < |after| && j1 != j2
      ensures after[j1] !! after[j2]
    {
      forall a | a in after[j1]
        ensures a !in after[j2]
      {
        var i1 :| 0 <= i1 < |u.cells| && a in u.cells[i1].agents && Dest(u, topo, slot, i1) == j1;
        forall i | 0 <= i < |u.cells| && a in u.cells[i].agents
          ensures Dest(u, topo, slot, i) != j2
        {
          UniqueCell(u.cells, a, i, i1);
        }
      }
    }
  }

  /** An agent on the grid before a tick is on it after the tick. */
  lemma TickKeepsAgent(u: Universe, topo: Topology, slot: nat, a: Agent)
    requires WellFormed(u) && slot < 4
    requires a in Tally.UnionAll(AgentSets(u.cells))
    ensures a in Tally.UnionAll(AgentSets(TickWith(u, topo, slot).cells))
  {
    var r := TickWith(u, topo, slot);
    Tally.InUnionAll(AgentSets(u.cells), a);
    var i :| 0 <= i < |u.cells| && a in AgentSets(u.cells)[i];
    var j := Dest(u, topo, slot, i);
    assert a in r.cells[j].agents;
    Tally.InUnionAllAt(AgentSets(r.cells), j, a);
  }

  /** An agent on the grid after a tick was on it before the tick. */
  lemma TickAddsNoAgent(u: Universe, topo: Topology, slot: nat, a: Agent)
    requires WellFormed(u) && slot < 4
    requires a in Tally.UnionAll(AgentSets(TickWith(u, topo, slot).cells))
    ensures a in Tally.UnionAll(AgentSets(u.cells))
  {
    var r := TickWith(u, topo, slot);
    Tally.InUnionAll(AgentSets(r.cells), a);
    var j :| 0 <= j < |r.cells| && a in AgentSets(r.cells)[j];
    TickOnlyArrivals(u, topo, slot, j, a);
    var i :| 0 <= i < |u.cells| && a in u.cells[i].agents;
    Tally.InUnionAllAt(AgentSets(u.cells), i, a);
  }

  /** A tick neither creates nor loses agents: the union of all cells is unchanged. */
  lemma TickSameAgents(u: Universe, topo: Topology, slot: nat)
    requires WellFormed(u) && slot < 4
    ensures Tally.UnionAll(AgentSets(TickWith(u, topo, slot).cells)) == Tally.UnionAll(AgentSets(u.cells))
  {
    forall a
      ensures a in Tally.UnionAll(AgentSets(TickWith(u, topo, slot).cells)) <==> a in Tally.UnionAll(AgentSets(u.cells))
    {
      if a in Tally.UnionAll(AgentSets(u.cells)) {
        TickKeepsAgent(u, topo, slot, a);
      }
      if a in Tally.UnionAll(AgentSets(TickWith(u, topo, slot).cells)) {
        TickAddsNoAgent(u, topo, slot, a);
      }
    }
  }

  /**
   * Conservation: if no agent stands on two cells, a tick keeps the
   * number of agents, in total and per species, and still no agent
   * stands on two cells.
   */
  lemma TickConserves(u: Universe, topo: Topology, slot: nat)
    requires WellFormed(u) && slot < 4 && Distinct(u.cells)
    ensures var r := TickWith(u, topo, slot);
            Distinct(r.cells) &&
            TotalAgents(r.cells) == TotalAgents(u.cells) &&
            SpeciesTotal(r.cells, Red) == SpeciesTotal(u.cells, Red) &&
            SpeciesTotal(r.cells, Blue) == SpeciesTotal(u.cells, Blue)
  {
    var r := TickWith(u, topo, slot);
    TickDistinct(u, topo, slot);
    TickSameAgents(u, topo, slot);
    Census(u.cells);
    Census(r.cells);
  }

  // ---------------------------------------------------------------------
  // Seeding
  // ---------------------------------------------------------------------

  /** One random draw of `add_agent_to_random_cell`: the `u32` turned into the id, and the cell index. */
  datatype Draw = Draw(value: nat, cell: nat)

  /** Two grids with the same cells at the same coordinates, whatever agents stand on them. */
  ghost predicate SameLayout(a: seq<Cell>, b: seq<Cell>)
  {
    |a| == |b| && forall j :: 0 <= j < |a| ==> a[j].x == b[j].x && a[j].y == b[j].y
  }

  /** A grid laid out like a well-formed one, at the same size, is well formed. */
  lemma LayoutKeepsWellFormed(u: Universe, r: Universe)
    requires WellFormed(u) && r.size == u.size && SameLayout(u.cells, r.cells)
    ensures WellFormed(r)
  {
  }

  /** `add_agent_to_random_cell`: a new agent, named by the decimal text of the draw, into the drawn cell. */
  function AddAgentToRandomCell(u: Universe, species: AgentSpecies, d: Draw): (r: Universe)
    requires d.cell < |u.cells|
    ensures SameLayout(u.cells, r.cells) && r.size == u.size && r.iteration == u.iteration
    ensures AgentSets(r.cells) == AgentSets(u.cells)[d.cell := u.cells[d.cell].agents + {NewAgent(Decimal(d.value), species)}]
  {
    var a := NewAgent(Decimal(d.value), species);
    var r := u.(cells := u.cells[d.cell := AddAgent(u.cells[d.cell], a)]);
    assert AgentSets(r.cells) == AgentSets(u.cells)[d.cell := u.cells[d.cell].agents + {a}];
    r
  }

  /** Species of the `k`-th inserted agent: the loop adds a red and then a blue one. */
  function SeedSpecies(k: nat): AgentSpecies
  {
    if k % 2 == 0 then Red else Blue
  }

  /** The `k`-th agent inserted by `add_agents`. */
  function SeededAgent(draws: seq<Draw>, k: nat): Agent
    requires k < |draws|
  {
    NewAgent(Decimal(draws[k].value), SeedSpecies(k))
  }

  ghost predicate DrawsInRange(u: Universe, draws: seq<Draw>)
  {
    forall k :: 0 <= k < |draws| ==> draws[k].cell < |u.cells|
  }

  /** One round of `add_agents`: draw `2j` as a red agent, then draw `2j + 1` as a blue one. */
  function Round(v: Universe, draws: seq<Draw>, j: nat): (r: Universe)
    requires 2 * j + 1 < |draws| && DrawsInRange(v, draws)
    ensures SameLayout(v.cells, r.cells) && r.size == v.size && r.iteration == v.iteration
  {
    var w := AddAgentToRandomCell(v, Red, draws[2 * j]);
    AddAgentToRandomCell(w, Blue, draws[2 * j + 1])
  }

  /** The agents the first `m` rounds insert: two per round. */
  function SeededRounds(draws: seq<Draw>, m: nat): set<Agent>
    requires 2 * m <= |draws|
  {
    if m == 0 then {}
    else SeededRounds(draws, m - 1) + {SeededAgent(draws, 2 * (m - 1)), SeededAgent(draws, 2 * (m - 1) + 1)}
  }

  /** The agent of every draw below `2m` is among those of the first `m` rounds. */
  lemma {:induction false} SeededRoundsHas(draws: seq<Draw>, m: nat, k: nat)
    requires k < 2 * m <= |draws|
    ensures SeededAgent(draws, k) in SeededRounds(draws, m)
  {
    var j := m - 1;
    SeededRoundsStep(draws, j);
    if k < 2 * j {
      SeededRoundsHas(draws, j, k);
    }
  }

  /** Every agent of the first `m` rounds is the agent of some draw below `2m`. */
  lemma {:induction false} SeededRoundsOnly(draws: seq<Draw>, m: nat, a: Agent)
    requires 2 * m <= |draws| && a in SeededRounds(draws, m)
    ensures exists k :: 0 <= k < 2 * m && SeededAgent(draws, k) == a
  {
    var j := m - 1;
    SeededRoundsStep(draws, j);
    if a == SeededAgent(draws, 2 * j) {
    } else if a == SeededAgent(draws, 2 * j + 1) {
    } else {
      SeededRoundsOnly(draws, j, a);
    }
  }

  /** The first `m` rounds insert exactly the agents of the first `2m` draws. */
  lemma {:induction false} SeededRoundsMembers(draws: seq<Draw>, m: nat, a: Agent)
    requires 2 * m <= |draws|
    ensures a in SeededRounds(draws, m) <==> exists k :: 0 <= k < 2 * m && SeededAgent(draws, k) == a
  {
    if a in SeededRounds(draws, m) {
      SeededRoundsOnly(draws, m, a);
    }
    if exists k :: 0 <= k < 2 * m && SeededAgent(draws, k) == a {
      var k :| 0 <= k < 2 * m && SeededAgent(draws, k) == a;
      SeededRoundsHas(draws, m, k);
    }
  }

  /** Adding an agent that is on no cell yet keeps the agents distinct. */
  lemma InsertFreshDistinct(u: Universe, species: AgentSpecies, d: Draw)
    requires d.cell < |u.cells| && Distinct(u.cells)
    requires NewAgent(Decimal(d.value), species) !in Tally.UnionAll(AgentSets(u.cells))
    ensures Distinct(AddAgentToRandomCell(u, species, d).cells)
  {
    var a := NewAgent(Decimal(d.value), species);
    var before := AgentSets(u.cells);
    var after := AgentSets(AddAgentToRandomCell(u, species, d).cells);
    forall i | 0 <= i < |before|
      ensures a !in before[i]
    {
      Tally.InUnionAll(before, a);
    }
    forall i, j | 0 <= i < |after| && 0 <= j < |after| && i != j
      ensures after[i] !! after[j]
    {
      assert before[i] !! before[j];
    }
  }

  /** Adding an agent to one cell adds it to the union of all cells. */
  lemma InsertUnion(u: Universe, species: AgentSpecies, d: Draw)
    requires d.cell < |u.cells|
    ensures Tally.UnionAll(AgentSets(AddAgentToRandomCell(u, species, d).cells)) ==
            Tally.UnionAll(AgentSets(u.cells)) + {NewAgent(Decimal(d.value), species)}
  {
    Tally.UnionAllInsert(AgentSets(u.cells), d.cell, NewAgent(Decimal(d.value), species));
  }

  /**
   * Inserting an agent that is on no cell yet raises the total and its
   * species' total by one, leaves the other species alone and keeps the
   * agents distinct.
   */
  lemma InsertFresh(u: Universe, species: AgentSpecies, d: Draw)
    requires d.cell < |u.cells| && Distinct(u.cells)
    requires NewAgent(Decimal(d.value), species) !in Tally.UnionAll(AgentSets(u.cells))
    ensures var r := AddAgentToRandomCell(u, species, d);
            Distinct(r.cells) &&
            Tally.UnionAll(AgentSets(r.cells)) == Tally.UnionAll(AgentSets(u.cells)) + {NewAgent(Decimal(d.value), species)} &&
            TotalAgents(r.cells) == TotalAgents(u.cells) + 1 &&
            forall s :: SpeciesTotal(r.cells, s) == if s == species then SpeciesTotal(u.cells, s) + 1 else SpeciesTotal(u.cells, s)
  {
    var a := NewAgent(Decimal(d.value), species);
    var r := AddAgentToRandomCell(u, species, d);
    InsertFreshDistinct(u, species, d);
    InsertUnion(u, species, d);
    Census(u.cells);
    Census(r.cells);
    var all := Tally.UnionAll(AgentSets(u.cells));
    forall s
      ensures SpeciesTotal(r.cells, s) == if s == species then SpeciesTotal(u.cells, s) + 1 else SpeciesTotal(u.cells, s)
    {
      OfSpeciesInsert(all, a, s);
    }
  }

  /** Round `j` inserts draw `2j` as a red agent and draw `2j + 1` as a blue one. */
  lemma RoundSpecies(j: nat)
    ensures SeedSpecies(2 * j) == Red && SeedSpecies(2 * j + 1) == Blue
  {
  }

  /** With pairwise distinct draws, the agent of draw `k` is none of those of the first `m` rounds, when `k >= 2m`. */
  lemma {:induction false} SeededFresh(draws: seq<Draw>, k: nat, m: nat)
    requires 2 * m <= k < |draws|
    requires forall k1, k2 :: 0 <= k1 < k2 < |draws| ==> draws[k1].value != draws[k2].value
    ensures SeededAgent(draws, k) !in SeededRounds(draws, m)
  {
    if m > 0 {
      SeededFresh(draws, k, m - 1);
      DecimalInjective(draws[2 * (m - 1)].value, draws[k].value);
      DecimalInjective(draws[2 * (m - 1) + 1].value, draws[k].value);
    }
  }

  /** With pairwise distinct draws, the agent of draw `k >= 2m` is neither on the grid nor among the first `m` rounds. */
  lemma SeededNew(present: set<Agent>, draws: seq<Draw>, k: nat, m: nat)
    requires 2 * m <= k < |draws|
    requires forall k1, k2 :: 0 <= k1 < k2 < |draws| ==> draws[k1].value != draws[k2].value
    requires forall k :: 0 <= k < |draws| ==> SeededAgent(draws, k) !in present
    ensures SeededAgent(draws, k) !in present + SeededRounds(draws, m)
  {
    SeededFresh(draws, k, m);
  }

  /** A round of two fresh, different agents adds one of each species. */
  lemma RoundCounts(v: Universe, draws: seq<Draw>, j: nat)
    requires 2 * j + 1 < |draws| && DrawsInRange(v, draws) && Distinct(v.cells)
    requires SeededAgent(draws, 2 * j) !in Tally.UnionAll(AgentSets(v.cells))
    requires SeededAgent(draws, 2 * j + 1) !in Tally.UnionAll(AgentSets(v.cells))
    requires SeededAgent(draws, 2 * j) != SeededAgent(draws, 2 * j + 1)
    ensures var r := Round(v, draws, j);
            Distinct(r.cells) &&
            Tally.UnionAll(AgentSets(r.cells)) ==
              Tally.UnionAll(AgentSets(v.cells)) + {SeededAgent(draws, 2 * j)} + {SeededAgent(draws, 2 * j + 1)} &&
            TotalAgents(r.cells) == TotalAgents(v.cells) + 2 &&
            SpeciesTotal(r.cells, Red) == SpeciesTotal(v.cells, Red) + 1 &&
            SpeciesTotal(r.cells, Blue) == SpeciesTotal(v.cells, Blue) + 1
  {
    RoundSpecies(j);
    var w := AddAgentToRandomCell(v, Red, draws[2 * j]);
    InsertFresh(v, Red, draws[2 * j]);
    InsertFresh(w, Blue, draws[2 * j + 1]);
  }

  /** Round `j` adds the agents of draws `2j` and `2j + 1` to those of the earlier rounds. */
  lemma SeededRoundsStep(draws: seq<Draw>, j: nat)
    requires 2 * j + 1 < |draws|
    ensures SeededRounds(draws, j + 1) == SeededRounds(draws, j) + {SeededAgent(draws, 2 * j), SeededAgent(draws, 2 * j + 1)}
  {
  }

  /**
   * What seeding needs to keep the agents apart: the grid's agents are
   * distinct, the drawn numbers (hence the new ids) are pairwise
   * distinct, and no agent the draws name is on the grid already.
   */
  ghost predicate FreshDraws(u: Universe, draws: seq<Draw>)
  {
    Distinct(u.cells) &&
    (forall k1, k2 :: 0 <= k1 < k2 < |draws| ==> draws[k1].value != draws[k2].value) &&
    (forall k :: 0 <= k < |draws| ==> SeededAgent(draws, k) !in Tally.UnionAll(AgentSets(u.cells)))
  }

  /**
   * The books after `j` rounds of seeding: no agent on two cells, the
   * grid holds the agents of `u` plus those of the first `j` rounds, and
   * the counts have grown by `j` agents of each species.
   */
  ghost predicate Accounted(u: Universe, r: Universe, draws: seq<Draw>, j: nat)
    requires 2 * j <= |draws|
  {
    Distinct(r.cells) &&
    Tally.UnionAll(AgentSets(r.cells)) == Tally.UnionAll(AgentSets(u.cells)) + SeededRounds(draws, j) &&
    TotalAgents(r.cells) == TotalAgents(u.cells) + 2 * j &&
    SpeciesTotal(r.cells, Red) == SpeciesTotal(u.cells, Red) + j &&
    SpeciesTotal(r.cells, Blue) == SpeciesTotal(u.cells, Blue) + j
  }

  /**
   * One more round keeps the seeding account: if after `j` rounds the
   * grid holds the original agents plus those of the earlier rounds,
   * then after round `j` it holds those plus the round's two, and the
   * counts grow by one red and one blue agent.
   */
  lemma RoundExtends(u: Universe, v: Universe, draws: seq<Draw>, j: nat)
    requires 2 * j + 1 < |draws| && DrawsInRange(v, draws)
    requires FreshDraws(u, draws) && Accounted(u, v, draws, j)
    ensures Accounted(u, Round(v, draws, j), draws, j + 1)
  {
    var present := Tally.UnionAll(AgentSets(u.cells));
    SeededNew(present, draws, 2 * j, j);
    SeededNew(present, draws, 2 * j + 1, j);
    RoundSpecies(j);
    RoundCounts(v, draws, j);
    SeededRoundsStep(draws, j);
    Tally.UnionPair(present, SeededRounds(draws, j), SeededAgent(draws, 2 * j), SeededAgent(draws, 2 * j + 1));
  }

  /** The body of the `add_agents` loop: round `j`, a red and then a blue agent. */
  method SeedRound(ghost u: Universe, v: Universe, draws: seq<Draw>, j: nat) returns (w: Universe)
    requires 2 * j + 1 < |draws| && DrawsInRange(v, draws)
    ensures SameLayout(v.cells, w.cells) && w.size == v.size && w.iteration == v.iteration
    ensures FreshDraws(u, draws) && Accounted(u, v, draws, j) ==> Accounted(u, w, draws, j + 1)
  {
    if FreshDraws(u, draws) && Accounted(u, v, draws, j) {
      RoundExtends(u, v, draws, j);
    }
    w := Round(v, draws, j);
  }

  /**
   * `add_agents(amount)`: `amount` rounds, each inserting a red and then
   * a blue agent into its drawn cell, two draws per round.  The cells
   * keep their coordinates; when the draws are fresh the grid gains
   * exactly the seeded agents, `amount` red and `amount` blue ones, and
   * no agent ends up on two cells.
   */
  method AddAgents(u: Universe, amount: nat, draws: seq<Draw>) returns (r: Universe)
    requires |draws| == 2 * amount && DrawsInRange(u, draws)
    ensures SameLayout(u.cells, r.cells) && r.size == u.size && r.iteration == u.iteration
    ensures WellFormed(u) ==> WellFormed(r)
    ensures FreshDraws(u, draws) ==> Accounted(u, r, draws, amount)
  {
    r := u;
    var j := 0;
    while j < amount
      invariant j <= amount
      invariant SameLayout(u.cells, r.cells) && r.size == u.size && r.iteration == u.iteration
      invariant FreshDraws(u, draws) ==> Accounted(u, r, draws, j)
    {
      assert DrawsInRange(r, draws);
      r := SeedRound(u, r, draws, j);
      j := j + 1;
    }
    if WellFormed(u) {
      LayoutKeepsWellFormed(u, r);
    }
  }

  /** Seeding a fresh universe: `amount` agents of each species, no agent on two cells. */
  method NewThenAddAgents(size: nat, amount: nat, draws: seq<Draw>) returns (r: Universe)
    requires |draws| == 2 * amount && DrawsInRange(New(size), draws)
    requires forall k1, k2 :: 0 <= k1 < k2 < |draws| ==> draws[k1].value != draws[k2].value
    ensures WellFormed(r) && r.size == size && r.iteration == 0
    ensures Distinct(r.cells) && TotalAgents(r.cells) == 2 * amount
    ensures SpeciesTotal(r.cells, Red) == amount && SpeciesTotal(r.cells, Blue) == amount
  {
    var u := New(size);
    var before := AgentSets(u.cells);
    Tally.SumCardEmpty(before);
    forall a
      ensures a !in Tally.UnionAll(before)
    {
      Tally.InUnionAll(before, a);
    }
    assert Distinct(u.cells);
    SpeciesView(u.cells, Red);
    SpeciesView(u.cells, Blue);
    assert FreshDraws(u, draws);
    r := AddAgents(u, amount, draws);
  }
}
