# Random walkers on a torus: a verified model of the integer and set bookkeeping

The repository holds three Rust crates that simulate red and blue agents
walking on a square (or cubic) grid whose borders wrap around:

- `graph_walker`:
  - an older universe in `src/lib.rs`, which keeps sorted neighbour lists and per-node sets of numbered agents;
  - a newer `Universe2D` in `src/universe/universe_2d.rs`, which keeps `Neighbours` records and per-node head counts;
  - the start of a `Universe3D`;
  - the `Neighbours` record with its weighted slot choice;
  - the `Species<T>` pair;
  - the species enumeration.
- `walker2d`: a grid of `Cell`s, each holding a set of agents. `Universe::tick` moves every agent to one neighbour of its cell.
- `test-cell`: a single-file copy of the `walker2d` universe that adds `remove_agent` and `move_agent` to `Cell`.

This project models the integer and set parts of those crates:

- torus index arithmetic;
- neighbour records and edge maps;
- the weighted slot choice, with weights as reals;
- cell and agent-set operations;
- seeding;
- the ticks.

It proves these properties:

- bijectivity of the index maps;
- neighbour bounds, steps and inverses;
- exact counter updates;
- sortedness together with the permutation property;
- seeding balance;
- agent conservation.

Modules follow the source:

| module | file | models |
|---|---|---|
| `Torus` | `torus.dfy` | index / coordinate arithmetic shared by all grids |
| `Agents` | `agents.dfy` | `AgentSpecies`, `Agent`, decimal ids |
| `Cells` | `cells.dfy` | `Cell` of `walker2d` and `test-cell` |
| `Walker` | `walker.dfy` | `Universe` of `walker2d` / `test-cell` |
| `NeighbourData` | `neighbour_data.dfy` | `Neighbours` of `graph_walker` |
| `SpeciesPair` | `species.dfy` | `Species<T>` with `T = int` |
| `Universe2D` | `universe2d.dfy` | `graph_walker/src/universe/universe_2d.rs` |
| `Universe3D` | `universe3d.dfy` | the neighbour loop of `universe_3d.rs` |
| `LegacyUniverse` | `legacy.dfy` | `Universe2D` of `graph_walker/src/lib.rs` |
| `Tally`, `Optional` | `tally.dfy`, `optional.dfy` | sums of set sizes, `Option` |

Random generators are not modelled. Every value they produce is an
explicit input:

- a node index below `size * size` for seeding;
- a `Draw` (number and cell) for `walker2d`;
- a draw `u` in [0, 1) for the slot choice;
- one neighbour slot per `walker2d` tick.

The `walker2d` tick draws from `self.prng.clone()`, a fresh copy of the
universe's generator. The tick never advances `self.prng` itself; only
`add_agent_to_random_cell` does. Every agent of one tick therefore gets
the same slot, and the model takes one slot per tick.

## Model

| member | source | states |
|---|---|---|
| Agents.AllSpecies | graph_walker/src/agent.rs:20-22 | `all()` has exactly two entries, Red first, and contains both Red and Blue |
| Agents.IterSpecies | graph_walker/src/agent.rs:13-15 | `iter()` enumerates exactly what `all()` collects |
| Agents.NewAgent | walker2d/src/agent.rs:13-17 | `Agent::new` keeps id and species unchanged; also graph_walker/src/agent.rs:31-35 |
| Agents.EvensStep | graph_walker/src/universe/universe_2d.rs:45-51 | one more id adds one red if it is even and one blue if it is odd |
| Agents.EvensBalanced | graph_walker/src/universe/universe_2d.rs:45-51 | ids `0 .. 2n` contain `n` even and `n` odd ids |
| Agents.DecimalRoundTrip | walker2d/src/lib.rs:55 | parsing the decimal text of a number (`to_string`) gives the number back |
| Agents.DecimalInjective | walker2d/src/lib.rs:55 | different numbers render to different decimal ids |
| Agents.NumberedIdsDistinct | walker2d/src/agent.rs:35-58 | agents named `0 .. n` in decimal have pairwise distinct ids, whatever species each draws |
| Cells.NewCell | walker2d/src/cell.rs:28-36 | a new cell keeps x and y and holds no agent; the `test-cell` copy at test-cell/src/main.rs:37-45 is the same code |
| Cells.AddAgent | walker2d/src/cell.rs:53-55 | set insertion: coordinates kept, agent present, nobody lost, nothing else added, size grows by one iff the agent was absent; the `test-cell` copy at test-cell/src/main.rs:50-52 is the same code |
| Cells.NumAgents | walker2d/src/cell.rs:60-66 | the species count is at most the number of agents in the cell |
| Cells.SpeciesCountsSum | walker2d/src/cell.rs:60-66 | red count plus blue count equals the number of agents in the cell |
| Cells.AddAgentIdempotent | walker2d/src/cell.rs:53-55 | adding the same agent twice equals adding it once |
| Cells.AddAgentCounts | walker2d/src/cell.rs:53-66 | adding an agent raises its own species' count by one iff it was absent; the other count is unchanged |
| Cells.TwoDistinctAgents | walker2d/src/cell.rs:43-51 | two distinct agents added to a new cell give two agents |
| Cells.RemoveAgent | test-cell/src/main.rs:57-59 | `take` returns `Some(a)` and drops `a` iff it was present; otherwise it returns `None` and the cell is unchanged |
| Cells.MoveAgent | test-cell/src/main.rs:65-72 | `a` ends up absent from the source; if it was present it is added to the target; if it was absent neither cell changes |
| Cells.OfSpeciesInsert | walker2d/src/cell.rs:60-66 | a new agent raises its species' count by one and no other count |
| Cells.OfSpeciesRemove | test-cell/src/main.rs:74-80 | removing an agent lowers its species' count by one and no other count |
| Cells.TransferCounts | test-cell/src/main.rs:65-80 | moving an agent to a set that lacks it keeps the summed sizes, in total and per species |
| Cells.MoveConserves | test-cell/src/main.rs:65-80 | `move_agent` into a cell that lacks the agent keeps both cells' total and per-species counts |
| NeighbourData.New | graph_walker/src/neighbour_data.rs:16-24 | each argument lands in the field of the same name despite the argument order; `size` is 4 |
| NeighbourData.IntoIter | graph_walker/src/neighbour_data.rs:54-59 | the iterator starts at slot 0 over the given record |
| NeighbourData.Next | graph_walker/src/neighbour_data.rs:69-79 | below slot 4 it yields that slot's value and advances by one; from slot 4 on it yields `None` and stays put |
| NeighbourData.ExhaustedYieldsNone | graph_walker/src/neighbour_data.rs:75 | an exhausted iterator yields `None` on every later call |
| NeighbourData.IterationOrder | graph_walker/src/neighbour_data.rs:85-95 | iteration yields top, right, bottom, left, then only `None` |
| NeighbourData.SelectSlot | graph_walker/src/neighbour_data.rs:32-36 | the scan stops at the first slot whose running sum reaches the threshold, or finds none when no running sum does |
| NeighbourData.FirstReachingUnique | graph_walker/src/neighbour_data.rs:34-36 | the first slot reaching the threshold is unique, so ties go to the lower index |
| NeighbourData.Bump | graph_walker/src/neighbour_data.rs:37-41 | the chosen counter goes up by one, the others and `size` stay, and the total grows by one |
| NeighbourData.Place | graph_walker/src/neighbour_data.rs:26-47 | the panic arm is reached iff the first reaching slot is past the fourth; a reaching slot below 4 is bumped; with no reaching slot nothing changes |
| NeighbourData.AddAgentToRandomCell | graph_walker/src/neighbour_data.rs:32-46 | the running-sum loop with early exit computes exactly `Place` |
| NeighbourData.FairDrawPlaces | graph_walker/src/neighbour_data.rs:32-46 | with four non-negative weights summing to the total and `u` in [0,1), some slot below 4 is bumped, so the counters grow by exactly one |
| NeighbourData.ZeroWeightNeverChosen | graph_walker/src/neighbour_data.rs:34-36 | a zero-weight slot after the first is never chosen |
| NeighbourData.OnlyTopWeighted | graph_walker/src/neighbour_data.rs:98-110 | weights [1, 0, 0, 0] increment only `top` |
| NeighbourData.AllZeroPicksTop | graph_walker/src/neighbour_data.rs:32-38 | all-zero weights give threshold 0 and always pick `top`; there is no uniform fallback |
| NeighbourData.FifthSlotPanics | graph_walker/src/neighbour_data.rs:37-43 | a fifth weight that would be selected reaches the panic arm |
| NeighbourData.PlaceAllCounts | graph_walker/src/neighbour_data.rs:119-121 | any number of fair calls never panics and grows the counter total by the number of calls |
| NeighbourData.DocumentedRunCounts | graph_walker/src/neighbour_data.rs:113-127 | 120 000 calls with weights [1, 2, 3, 6] and total 12 place 120 000 agents |
| SpeciesPair.New | graph_walker/src/species.rs:13-15 | both components stored |
| SpeciesPair.SetRed | graph_walker/src/species.rs:17-19 | red replaced, blue kept |
| SpeciesPair.SetBlue | graph_walker/src/species.rs:20-22 | blue replaced, red kept |
| SpeciesPair.AddBlue | graph_walker/src/species.rs:24-26 | blue grows by the amount, red kept |
| SpeciesPair.AddRed | graph_walker/src/species.rs:27-29 | red grows by the amount, blue kept |
| SpeciesPair.MultAll | graph_walker/src/species.rs:31-34 | both components scaled by the same factor |
| SpeciesPair.SetIdempotent | graph_walker/src/species.rs:17-22 | setting twice equals setting once; the last set wins |
| SpeciesPair.AddsAccumulate | graph_walker/src/species.rs:24-29 | additions accumulate, adding 0 changes nothing, red and blue additions commute |
| SpeciesPair.MultComposes | graph_walker/src/species.rs:31-34 | scaling by a then b is scaling by a*b; scaling by 1 changes nothing |
| Torus.Steps | graph_walker/src/universe/universe_2d.rs:28-31 | `(c + s - 1) % s` and `(c + 1) % s` are the previous and next positions on the ring (wrapping at 0 and s-1) and undo each other |
| Torus.Index2Decodes | graph_walker/src/universe/universe_2d.rs:26 | `y*s + x` of an in-grid cell is below s*s and decodes back to (x, y) |
| Torus.Index2Covers | graph_walker/src/universe/universe_2d.rs:26 | every index below s*s is the index of the in-grid cell it decodes to |
| Torus.Index2Bijective | graph_walker/src/universe/universe_2d.rs:24-26 | `y*s + x` maps the s-by-s grid one-to-one onto [0, s*s) |
| Torus.Neighbours2 | graph_walker/src/universe/universe_2d.rs:28-31 | the four neighbour indices are below s*s; each changes exactly one coordinate by one wrapping step |
| Torus.Wraparound2 | graph_walker/src/universe/universe_2d.rs:28-31 | x = 0 sees column s-1 on its left, y = 0 sees row s-1 above, and symmetrically at the far borders |
| Torus.InversesAcross | graph_walker/src/universe/universe_2d.rs:28-29 | left of right and right of left are the node itself |
| Torus.InversesAlong | graph_walker/src/universe/universe_2d.rs:30-31 | top of bottom and bottom of top are the node itself |
| Torus.Inverses2 | graph_walker/src/universe/universe_2d.rs:28-31 | all four direction pairs undo each other |
| Torus.SelfLoops2 | graph_walker/src/universe/universe_2d.rs:28-31 | on a 1-by-1 grid all four neighbours are node 0 |
| Torus.Index3Decodes | graph_walker/src/universe/universe_3d.rs:29 | `z*s^2 + y*s + x` of an in-grid cell is below s^3 and decodes back to (x, y, z) |
| Torus.Index3Covers | graph_walker/src/universe/universe_3d.rs:29 | every index below s^3 is the index of the in-grid cell it decodes to |
| Torus.Index3Bijective | graph_walker/src/universe/universe_3d.rs:26-29 | `z*s^2 + y*s + x` maps the s-by-s-by-s grid one-to-one onto [0, s^3) |
| Universe2D.NeighboursAtFacts | graph_walker/src/universe/universe_2d.rs:28-34 | a node's record has size 4; every entry is below s*s and differs from (x, y) in one coordinate by one step |
| Universe2D.NeighboursAtInverse | graph_walker/src/universe/universe_2d.rs:28-34 | the left entry of the right neighbour's record is the node, the top entry of the bottom neighbour's record is the node, and vice versa |
| Universe2D.NeighboursAtWrap | graph_walker/src/universe/universe_2d.rs:28-34 | the left of column 0 is column s-1 in the same row; the top of row 0 is row s-1 in the same column |
| Universe2D.NeighboursAtSingle | graph_walker/src/universe/universe_2d.rs:181-184 | for s = 1 the record is four self-loops with size 4 |
| Universe2D.EdgeMap | graph_walker/src/universe/universe_2d.rs:24-38 | the complete map has exactly the keys below s*s, each holding that node's record |
| Universe2D.EdgesBelowStep | graph_walker/src/universe/universe_2d.rs:26-36 | visiting (x, y) inserts its record under `y*s + x` and changes no other key |
| Universe2D.BuildRow | graph_walker/src/universe/universe_2d.rs:25-37 | the column loop of row y extends the map by exactly that row's records |
| Universe2D.BuildEdges | graph_walker/src/universe/universe_2d.rs:24-38 | the two construction loops produce the complete edge map, with keys exactly the indices below s*s |
| Universe2D.NewNode | graph_walker/src/universe/universe_2d.rs:40-42 | a node takes its record from the edge map and starts with no agents |
| Universe2D.AddAgents | graph_walker/src/testing.rs:40-45 | `add_agents(k, s)` raises the count of s by k and nothing else |
| Universe2D.AddAgentsAccumulate | graph_walker/src/testing.rs:40-45 | adding in two batches equals adding at once |
| Universe2D.SpeciesTotalUpdate | graph_walker/src/universe/universe_2d.rs:53 | replacing one node changes a species total by that node's difference |
| Universe2D.InitialNodes | graph_walker/src/universe/universe_2d.rs:40-42 | s*s nodes; node i has index i, its record, and zero counts |
| Universe2D.Seed | graph_walker/src/universe/universe_2d.rs:45-54 | seeding changes no node's index or record |
| Universe2D.SeedCounts | graph_walker/src/universe/universe_2d.rs:45-54 | seeding n agents adds (n+1)/2 red and n/2 blue, whichever nodes are drawn |
| Universe2D.New | graph_walker/src/universe/universe_2d.rs:19-62 | size kept, iteration 0, s*s nodes, node i indexed i with its record |
| Universe2D.NewCounts | graph_walker/src/universe/universe_2d.rs:178-202 | every node's record has size 4 and the universe holds agent_size red and agent_size blue agents |
| Universe2D.SetHyperParams | graph_walker/src/universe/universe_2d.rs:64-66 | only the hyper parameters change |
| Universe2D.SetHyperParamsLastWins | graph_walker/src/universe/universe_2d.rs:64-66 | the last setting wins, so setting twice equals setting once |
| Universe2D.Tick | graph_walker/src/universe/universe_2d.rs:70-89 | the nodes become the phases' in-place result, so their number is kept; iteration goes up by one; size and hyper parameters stay |
| Universe2D.Ticks | graph_walker/src/universe/universe_2d.rs:70-89 | ticks in a row keep the number of nodes |
| Universe2D.TicksCount | graph_walker/src/universe/universe_2d.rs:70-89 | k ticks advance the counter by exactly k and keep size, hyper parameters and the number of nodes |
| Universe3D.NeighboursAreSteps | graph_walker/src/universe/universe_3d.rs:31-36 | each of the six indices is the 3D index of the node moved one wrapping step along one axis |
| Universe3D.Neighbours3 | graph_walker/src/universe/universe_3d.rs:31-36 | all six indices are below s^3; z moves for top/bottom, y for front/back, x for left/right, the other coordinates stay |
| Universe3D.InversesZ | graph_walker/src/universe/universe_3d.rs:31-32 | top and bottom undo each other |
| Universe3D.Inverses3 | graph_walker/src/universe/universe_3d.rs:31-36 | top/bottom, front/back and left/right undo each other |
| Universe3D.SelfLoops3 | graph_walker/src/universe/universe_3d.rs:31-36 | for s = 1 all six neighbours are the node itself |
| Universe3D.EdgeMap | graph_walker/src/universe/universe_3d.rs:26-50 | the complete map has exactly the keys below s^3, each holding that node's record |
| Universe3D.EdgesBelowStep | graph_walker/src/universe/universe_3d.rs:29-47 | visiting (x, y, z) inserts its record under its index and changes no other key |
| Universe3D.BuildRow | graph_walker/src/universe/universe_3d.rs:28-48 | the x loop extends the map by exactly row y of layer z |
| Universe3D.BuildLayer | graph_walker/src/universe/universe_3d.rs:27-49 | the y loop extends the map by exactly layer z |
| Universe3D.BuildEdges | graph_walker/src/universe/universe_3d.rs:26-50 | the three loops produce the complete edge map, with keys exactly the indices below s^3 |
| LegacyUniverse.InsertMultiset | graph_walker/src/lib.rs:116 | inserting adds exactly one occurrence of the element |
| LegacyUniverse.InsertSorted | graph_walker/src/lib.rs:116 | inserting into a sorted list keeps it sorted |
| LegacyUniverse.SortSpec | graph_walker/src/lib.rs:116 | `sort` returns a sorted permutation of its input |
| LegacyUniverse.SortBelow | graph_walker/src/lib.rs:116 | sorting keeps entries under any bound the inputs respect |
| LegacyUniverse.EdgeListFacts | graph_walker/src/lib.rs:110-116 | the edge list has length 4, is non-decreasing, is a permutation of [left, right, top, bottom] with repetitions, and every entry is below s*s |
| LegacyUniverse.EdgeListSingle | graph_walker/src/lib.rs:110-113 | for s = 1 the edge list is [0, 0, 0, 0] |
| LegacyUniverse.EdgeListKeepsDuplicates | graph_walker/src/lib.rs:115-116 | no deduplication: on a 2-by-2 grid node 0 lists [1, 1, 2, 2] |
| LegacyUniverse.EdgeMap | graph_walker/src/lib.rs:106-125 | the keys are exactly the indices below s*s |
| LegacyUniverse.EdgesBelowExtend | graph_walker/src/lib.rs:118-123 | visiting index n adds its list under n and changes no other key |
| LegacyUniverse.EdgesBelowStep | graph_walker/src/lib.rs:108-123 | visiting (x, y) adds its list under `y*s + x` |
| LegacyUniverse.EdgeMapAt | graph_walker/src/lib.rs:106-125 | index `y*s + x` holds exactly the list computed at (x, y) |
| LegacyUniverse.VisitNode | graph_walker/src/lib.rs:108-123 | one visit (formulas, sort, insert if absent) extends the map by exactly this node's list |
| LegacyUniverse.BuildRow | graph_walker/src/lib.rs:107-124 | the column loop of row y extends the map by exactly that row's lists |
| LegacyUniverse.BuildEdges | graph_walker/src/lib.rs:106-125 | the loops produce the complete map, so every index gets exactly one list, the one from its single visit |
| LegacyUniverse.NewNode | graph_walker/src/lib.rs:43-50 | the node's neighbours are the map's list under its index |
| LegacyUniverse.CountSpecies | graph_walker/src/lib.rs:57-62 | the filtered count never exceeds the list length |
| LegacyUniverse.AgentsWithSpecies | graph_walker/src/lib.rs:52-63 | the `unwrap` panics exactly when the node's index is not a key; otherwise the count is at most the number of agents listed there |
| LegacyUniverse.CountSpeciesPartition | graph_walker/src/lib.rs:52-63 | red count plus blue count equals the number of agents at the node |
| LegacyUniverse.CountSpeciesIsSetSize | graph_walker/src/lib.rs:52-63 | on a repetition-free list the count is the number of distinct agents of that species |
| LegacyUniverse.SpeciesSetSnoc | graph_walker/src/lib.rs:57-62 | appending an agent adds it to its species' set and to no other |
| LegacyUniverse.SeedAgent | graph_walker/src/lib.rs:135-143 | agent `id` records its id and node; even ids are Red, odd ids Blue |
| LegacyUniverse.Seed | graph_walker/src/lib.rs:131-146 | there is one agent set per node |
| LegacyUniverse.SeedMembers | graph_walker/src/lib.rs:133-146 | node i holds exactly the agents whose draw was i, each with its parity species |
| LegacyUniverse.SeedFresh | graph_walker/src/lib.rs:145 | each seeded agent is new to the node it joins |
| LegacyUniverse.SeedStepTotal | graph_walker/src/lib.rs:145 | each seeding step adds one agent |
| LegacyUniverse.SeedStepSpecies | graph_walker/src/lib.rs:138-145 | each step adds one agent of the id's parity species and none of the other |
| LegacyUniverse.SeedCounts | graph_walker/src/lib.rs:133-146 | n seeded agents: n in total, (n+1)/2 red and n/2 blue, whichever nodes are drawn |
| LegacyUniverse.SeedBalanced | graph_walker/src/lib.rs:133-146 | 2n seeded agents: n red and n blue |
| LegacyUniverse.New | graph_walker/src/lib.rs:101-155 | iteration 0; s*s nodes and s*s agent sets; node i has index i and the four-entry list from the map |
| LegacyUniverse.NewWellFormed | graph_walker/src/lib.rs:127-131 | `new` builds s*s nodes, each with a four-entry list, and s*s agent sets: the shape the tick relies on |
| LegacyUniverse.NewCounts | graph_walker/src/lib.rs:263-279 | a new universe holds 2*agent_size agents, agent_size of each species |
| LegacyUniverse.FirstInRangeFailure | graph_walker/src/lib.rs:183-186 | the first of one node's draws that indexes past `new_agents`, or none iff all are in range |
| LegacyUniverse.FirstOverflow | graph_walker/src/lib.rs:169-189 | the first draw in visiting order (nodes in order, then draws) that indexes past `new_agents`, or none iff every draw is in range |
| LegacyUniverse.Tick | graph_walker/src/lib.rs:159-192 | panics (index out of bounds) iff some agent's drawn slot is at least `size * size`, reporting that node, draw and slot; otherwise the scattered `new_agents` is dropped, agents, nodes and size stay and iteration goes up by one |
| LegacyUniverse.TickNeverPanicsFromSize2 | graph_walker/src/lib.rs:166-186 | on a grid of side 2 or more every slot below 4 is a valid index, so the tick never panics |
| LegacyUniverse.SingleNodeTick | graph_walker/src/lib.rs:166-186 | on a 1x1 grid the tick panics iff some agent draws a slot other than 0 |
| LegacyUniverse.SingleNodeTickPanics | graph_walker/src/lib.rs:184-186 | a 1x1 universe holding one agent whose first draw is slot 1 panics at node 0, draw 0, slot 1 |
| LegacyUniverse.TicksKeepAgents | graph_walker/src/lib.rs:159-192 | a run of ticks gets through iff each tick does, and then the counter has advanced by their number and agents, nodes and size are unchanged |
| LegacyUniverse.TicksFromSize2 | graph_walker/src/lib.rs:159-192 | on a grid of side 2 or more, k ticks never panic, advance the counter by k and keep every agent where it is |
| Walker.New | walker2d/src/lib.rs:24-36 | s*s empty cells; cell i is at column i % s and row i / s; iteration 0; the `test-cell` copy at test-cell/src/main.rs:96-108 is the same code |
| Walker.GetIndex | walker2d/src/lib.rs:73-78 | the index is below s*s and decodes to (column % s, row % s); the `test-cell` copy at test-cell/src/main.rs:145-150 is the same code |
| Walker.GetCell | walker2d/src/lib.rs:38-40 | the result is the grid cell at column `col % size` and row `row % size` |
| Walker.GetIndexOfCell | walker2d/src/lib.rs:100 | looking a cell up by its own (y, x) finds that very cell |
| Walker.GetCellOfCell | walker2d/src/lib.rs:38-40 | `get_cell` at a cell's own row and column returns that cell, so the lookup and the row-major layout agree |
| Walker.NeighbourIndices | walker2d/src/lib.rs:42-49 | four indices, all below s*s |
| Walker.NeighboursOf | walker2d/src/lib.rs:42-49 | the four `get_cell` results are the grid cells at the four indices of `NeighbourIndices`, in the order top, bottom, left, right; the `test-cell` copy at test-cell/src/main.rs:114-121 is the same code |
| Walker.AsWrittenIsTransposed | walker2d/src/lib.rs:42-49 | as written, `neighbours_of(col, row)` returns the left, right, top and bottom neighbours of the transposed cell (row, col) |
| Walker.AsWrittenTopNotAdjacent | walker2d/src/lib.rs:43 | as written, "top" is the cell at column row-1 and row col; unless that coincides with the cell, it is none of its four torus neighbours |
| Walker.TransposedNeighbourNotAdjacent | walker2d/src/lib.rs:43 | on every grid of side at least 3, cell (1, 0) gets a "top" that is not adjacent to it |
| Walker.CorrectedIsAdjacent | walker2d/src/lib.rs:42-49 | with the arguments passed in the intended order, the lookup returns top, bottom, left and right of (col, row) |
| Walker.CorrectedSharesLine | walker2d/src/lib.rs:42-49 | each corrected neighbour shares a column or a row with the cell |
| Walker.SpeciesView | walker2d/src/cell.rs:60-66 | with distinct agents, the summed `num_agents(s)` is the number of agents of species s on the grid |
| Walker.Dest | walker2d/src/lib.rs:95-100 | the destination is a cell of the grid |
| Walker.DestIsSlot | walker2d/src/lib.rs:95-100 | the destination found again via `get_index(y, x)` is the neighbour index in the drawn slot |
| Walker.TickWith | walker2d/src/lib.rs:80-108 | the next grid keeps every cell's coordinates, length and size; iteration goes up by one |
| Walker.Tick | walker2d/src/lib.rs:80-108 | as written, every agent of cell i lands in cell i's neighbour in the drawn slot; the `test-cell` copy at test-cell/src/main.rs:152-180 is the same code |
| Walker.CorrectedTick | walker2d/src/lib.rs:80-108 | with the corrected lookup, every agent lands in the torus neighbour in the drawn slot |
| Walker.TickPlacement | walker2d/src/lib.rs:93-104 | every agent of the old grid is inserted in the next cell its slot selects |
| Walker.TickOnlyArrivals | walker2d/src/lib.rs:93-104 | an agent in a next cell came from a cell whose slot points there |
| Walker.Census | walker2d/src/lib.rs:93-104 | with distinct agents, the summed cell sizes and species counts are those of the union of all cells |
| Walker.UniqueCell | walker2d/src/lib.rs:93-104 | with distinct agents, an agent stands on at most one cell |
| Walker.TickDistinct | walker2d/src/lib.rs:93-104 | a tick keeps agents on at most one cell each |
| Walker.TickKeepsAgent | walker2d/src/lib.rs:93-104 | an agent present before a tick is present after it |
| Walker.TickAddsNoAgent | walker2d/src/lib.rs:93-104 | an agent present after a tick was present before it |
| Walker.TickSameAgents | walker2d/src/lib.rs:93-104 | a tick leaves the set of all agents unchanged |
| Walker.TickConserves | walker2d/src/lib.rs:93-107 | with distinct agents, a tick keeps the total and the red and blue counts; the `test-cell` copy at test-cell/src/main.rs:165-179 is the same code |
| Walker.LayoutKeepsWellFormed | walker2d/src/lib.rs:24-28 | changing only agents keeps the row-major coordinate layout |
| Walker.AddAgentToRandomCell | walker2d/src/lib.rs:54-59 | the decimal-named agent is added to the drawn cell only; layout, size and iteration stay |
| Walker.Round | walker2d/src/lib.rs:67-70 | one loop round keeps layout, size and iteration |
| Walker.SeededRoundsHas | walker2d/src/lib.rs:67-70 | the agent of every draw below 2m is among the first m rounds' agents |
| Walker.SeededRoundsOnly | walker2d/src/lib.rs:67-70 | every agent of the first m rounds comes from a draw below 2m |
| Walker.SeededRoundsMembers | walker2d/src/lib.rs:67-70 | the first m rounds insert exactly the agents of the first 2m draws |
| Walker.SeededRoundsStep | walker2d/src/lib.rs:68-69 | round j adds the agents of draws 2j and 2j+1 |
| Walker.InsertFreshDistinct | walker2d/src/lib.rs:58 | inserting an agent not on the grid keeps agents on at most one cell each |
| Walker.InsertUnion | walker2d/src/lib.rs:58 | inserting adds exactly that agent to the union of all cells |
| Walker.InsertFresh | walker2d/src/lib.rs:54-59 | a fresh agent raises the total and its species' count by one and leaves the other species' count |
| Walker.RoundSpecies | walker2d/src/lib.rs:68-69 | round j inserts a red then a blue agent |
| Walker.SeededFresh | walker2d/src/lib.rs:55 | with pairwise distinct drawn numbers, a later draw's agent is not among earlier rounds' agents |
| Walker.SeededNew | walker2d/src/lib.rs:55 | with pairwise distinct drawn numbers, a later draw's agent is neither on the grid nor among earlier rounds' agents |
| Walker.RoundCounts | walker2d/src/lib.rs:67-70 | a round of two fresh agents adds one red and one blue and keeps agents distinct |
| Walker.RoundExtends | walker2d/src/lib.rs:67-70 | one more round extends the account by its two agents, one per species |
| Walker.SeedRound | walker2d/src/lib.rs:67-70 | the loop body keeps layout and, under fresh draws, extends the account by one round |
| Walker.AddAgents | walker2d/src/lib.rs:66-71 | 2n insertions alternating red and blue; layout kept; with fresh draws exactly the drawn agents are added, n of each species, none on two cells; the `test-cell` copy at test-cell/src/main.rs:138-143 is the same code |
| Walker.NewThenAddAgents | walker2d/src/lib.rs:120-121 | a new universe seeded with n rounds of distinct draws holds 2n agents, n red and n blue, none on two cells |

## Left out

- Machine integers: all counters, sizes and indices are unbounded naturals.
  - `u32` overflow is not modelled. This covers `size * size`, `size + row - 1`, `iteration += 1` and `agent_size * 2`.
  - The `usize` casts are not modelled.
  - The `u32` range of `next_u32` ids is not modelled.
  - Functions that divide by `size` require `size > 0`, because the source panics on `% 0` there.
- Floating point: weights, totals and draws of `add_agent_to_random_cell` are reals, so `f32` rounding is not modelled.
  - The graffiti and pull-strength update (`graph_walker/src/lib.rs:65-89`) is `f32` arithmetic with `powf` and is left out.
  - The cells' graffiti and pull-strength maps are left out for the same reason.
- `node.rs` is not part of this model. The three node phases of `Universe2D::tick` (graffiti update, moving agents out, moving them in) run there under rayon.
  - Their resulting nodes are an input to `Universe2D.Tick`.
  - `Node::new` and `Node::add_agents` are modelled from their uses in `universe_2d.rs` and `testing.rs`.
- `Universe2D.New` takes the initial hyper parameters as an input. `HyperParams::default` is not part of this model.
- Random generators (ChaCha8Rng, oorandom `Rand32`) are not modelled. Their outputs are explicit inputs. The golden-output tests that depend on a concrete stream are left out.
- `LegacyUniverse.Tick` does not compute which set of `new_agents` each agent lands in. That vector is dropped unused, so the observable effects are the counter and the index-out-of-bounds panic, and both are modelled. Which agent gets which draw depends on `HashSet` iteration order, which the model does not fix.
- `Universe2D.New`: requires the seeding draws to be below `size * size`. With `size == 0` and `agent_size > 0` no such draw exists, and the source panics (there is no node to draw, and `nodes` is empty); that panic is not modelled.
- `LegacyUniverse.New`: the same requirement. With `size == 0` and `agent_size > 0` the source panics in `gen_range(0..0)`; that panic is not modelled.
- `Walker.AddAgents`: requires every drawn cell to be a cell of the grid. On an empty grid with `amount > 0` the source panics in `gen_range(0..0)`; that panic is not modelled.
- In `Universe3D`, everything after the neighbour loop is not part of this model: nodes, seeding and `Debug` are `todo!()`. `NeigbourIndeces3D` is modelled as a plain six-field record.
- Also left out:
  - `Display`/`Debug` formatting;
  - the `Universe` trait (a declaration only);
  - `hyper_params.rs` and `graph_walker/src/cell.rs`;
  - the concurrency tests in `testing.rs`;
  - benches;
  - timing code and `main` of `test-cell`.
- `Walker.AddAgents`: conservation and balance are proved only when the drawn numbers are pairwise distinct and name no agent already on the grid. With a repeated `next_u32` value, two same-species agents with equal ids can collapse in one cell's set, and the source promises nothing then.
- `Walker.TickConserves`: conservation is proved for grids on which no agent stands on two cells, which `add_agents` guarantees under distinct draws. Otherwise the per-cell sets can merge copies.
- `Walker.Tick`: the destination slot is one input per tick, not a draw per agent. This is what the source does, since it draws from a clone of the generator each time.

## Findings

| source | as written | input that shows it | evidently intended | confidence | as-written member | corrected member |
|---|---|---|---|---|---|---|
| walker2d/src/lib.rs:42-49 | `neighbours_of(col, row)` calls `get_cell(col, size + row - 1)` etc., but `get_cell` takes `(row, col)`, so the lookup is transposed (the same code is in test-cell/src/main.rs:114-121) | size 3, cell at column 1, row 0 (index 1): its "top" is index 5, at column 2, row 1, which is none of cell 1's neighbours (7, 4, 0, 2) | the four torus neighbours of (col, row): `get_cell(size + row - 1, col)` and so on | high; not executed | Walker.TransposedNeighbourNotAdjacent | Walker.CorrectedIsAdjacent |
