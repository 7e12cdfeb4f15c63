/**
 * A grid cell of the `walker2d` and `test-cell` crates: its coordinates
 * and the set of agents standing on it.  The per-species graffiti and
 * pull-strength maps a cell also carries are floating-point and are not
 * part of this model.
 */
module Cells {
  import opened Agents
  import opened Optional
  import Tally

  datatype Cell = Cell(x: nat, y: nat, agents: set<Agent>)

  /** The agents of `agents` that belong to species `s`. */
  function OfSpecies(agents: set<Agent>, s: AgentSpecies): set<Agent>
  {
    set a | a in agents && a.species == s
  }

  /** `Cell::new`: a cell at (x, y) with nobody on it. */
  function NewCell(x: nat, y: nat): (c: Cell)
    ensures c.x == x && c.y == y
    ensures |c.agents| == 0
  {
    Cell(x, y, {})
  }

  /**
   * `Cell::add_agent`: set insertion.  Afterwards the agent is present,
   * everybody who was there still is, and the cell grew by one exactly
   * when the agent was new to it.
   */
  function AddAgent(c: Cell, a: Agent): (r: Cell)
    ensures r.x == c.x && r.y == c.y
    ensures a in r.agents && c.agents <= r.agents
    ensures forall b :: b in r.agents ==> b == a || b in c.agents
    ensures |r.agents| == if a in c.agents then |c.agents| else |c.agents| + 1
  {
    assert a in c.agents ==> c.agents + {a} == c.agents;
    c.(agents := c.agents + {a})
  }

  /** `Cell::num_agents`: how many agents of species `s` stand on the cell. */
  function NumAgents(c: Cell, s: AgentSpecies): (n: nat)
    ensures n <= |c.agents|
  {
    Tally.SubsetCard(OfSpecies(c.agents, s), c.agents);
    |OfSpecies(c.agents, s)|
  }

  /** The red and the blue head counts partition the cell's agents. */
  lemma SpeciesCountsSum(c: Cell)
    ensures NumAgents(c, Red) + NumAgents(c, Blue) == |c.agents|
  {
    var red, blue := OfSpecies(c.agents, Red), OfSpecies(c.agents, Blue);
    assert c.agents == red + blue;
    assert red !! blue;
  }

  /** Adding an agent twice is the same as adding it once. */
  lemma AddAgentIdempotent(c: Cell, a: Agent)
    ensures AddAgent(AddAgent(c, a), a) == AddAgent(c, a)
  {
    assert c.agents + {a} + {a} == c.agents + {a};
  }

  /**
   * Adding `a` raises the count of `a`'s species by one exactly when `a`
   * was absent, and leaves the other species' count unchanged.
   */
  lemma AddAgentCounts(c: Cell, a: Agent, s: AgentSpecies)
    ensures NumAgents(AddAgent(c, a), s) ==
            if a.species == s && a !in c.agents then NumAgents(c, s) + 1 else NumAgents(c, s)
  {
    var before := OfSpecies(c.agents, s);
    var after := OfSpecies(AddAgent(c, a).agents, s);
    if a.species == s && a !in c.agents {
      assert after == before + {a};
    } else {
      assert after == before;
    }
  }

  /** The documented example: two distinct agents in a fresh cell make two. */
  lemma TwoDistinctAgents(x: nat, y: nat, a1: Agent, a2: Agent)
    requires a1 != a2
    ensures |AddAgent(AddAgent(NewCell(x, y), a1), a2).agents| == 2
  {
  }

  // ---------------------------------------------------------------------
  // Removing and moving (test-cell)
  // ---------------------------------------------------------------------

  /**
   * `Cell::remove_agent` (`HashSet::take`): hands back the agent and
   * drops it from the cell if it was there; otherwise returns `None` and
   * leaves the cell as it was.
   */
  function RemoveAgent(c: Cell, a: Agent): (r: (Option<Agent>, Cell))
    ensures a in c.agents ==> r.0 == Some(a) && r.1.agents == c.agents - {a}
    ensures a !in c.agents ==> r.0 == None && r.1 == c
    ensures r.1.x == c.x && r.1.y == c.y && a !in r.1.agents
  {
    if a in c.agents then (Some(a), c.(agents := c.agents - {a})) else (None, c)
  }

  /**
   * `Cell::move_agent`: remove from the source and, if that found the
   * agent, add it to the target.  The two cells are distinct values, as
   * Rust's two mutable borrows guarantee.
   */
  function MoveAgent(source: Cell, target: Cell, a: Agent): (r: (Cell, Cell))
    ensures a !in r.0.agents
    ensures a in source.agents ==> r.0.agents == source.agents - {a} && r.1.agents == target.agents + {a}
    ensures a !in source.agents ==> r == (source, target)
    ensures r.0.x == source.x && r.0.y == source.y && r.1.x == target.x && r.1.y == target.y
  {
    var (removed, source') := RemoveAgent(source, a);
    match removed
    case Some(b) => (source', AddAgent(target, b))
    case None => (source', target)
  }

  /** One new agent raises the head count of its own species by one and of no other. */
  lemma OfSpeciesInsert(agents: set<Agent>, a: Agent, s: AgentSpecies)
    requires a !in agents
    ensures |OfSpecies(agents + {a}, s)| == if a.species == s then |OfSpecies(agents, s)| + 1 else |OfSpecies(agents, s)|
  {
    if a.species == s {
      assert OfSpecies(agents + {a}, s) == OfSpecies(agents, s) + {a};
    } else {
      assert OfSpecies(agents + {a}, s) == OfSpecies(agents, s);
    }
  }

  /** Taking one agent out lowers the head count of its own species by one and of no other. */
  lemma OfSpeciesRemove(agents: set<Agent>, a: Agent, s: AgentSpecies)
    requires a in agents
    ensures |OfSpecies(agents - {a}, s)| == if a.species == s then |OfSpecies(agents, s)| - 1 else |OfSpecies(agents, s)|
  {
    if a.species == s {
      assert OfSpecies(agents, s) == OfSpecies(agents - {a}, s) + {a};
    } else {
      assert OfSpecies(agents - {a}, s) == OfSpecies(agents, s);
    }
  }

  /** Moving `a` from one set to another that lacks it keeps the sizes' sum, in total and per species. */
  lemma TransferCounts(from: set<Agent>, to: set<Agent>, a: Agent, s: AgentSpecies)
    requires a in from && a !in to
    ensures |from - {a}| + |to + {a}| == |from| + |to|
    ensures |OfSpecies(from - {a}, s)| + |OfSpecies(to + {a}, s)| == |OfSpecies(from, s)| + |OfSpecies(to, s)|
  {
    assert from == (from - {a}) + {a};
    OfSpeciesRemove(from, a, s);
    OfSpeciesInsert(to, a, s);
  }

  /**
   * Moving an agent that is not already in the target keeps the number
   * of agents in the two cells together, in total and per species.
   */
  lemma MoveConserves(source: Cell, target: Cell, a: Agent, s: AgentSpecies)
    requires a !in target.agents
    ensures var (source', target') := MoveAgent(source, target, a);
            |source'.agents| + |target'.agents| == |source.agents| + |target.agents| &&
            NumAgents(source', s) + NumAgents(target', s) == NumAgents(source, s) + NumAgents(target, s)
  {
    if a in source.agents {
      TransferCounts(source.agents, target.agents, a, s);
    }
  }
}
