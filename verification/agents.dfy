/**
 * Agents and their species.
 *
 * `walker2d/src/agent.rs`, `graph_walker/src/agent.rs` and the copy inside
 * `test-cell/src/main.rs` declare the same two-valued species enumeration
 * and the same agent record: a textual id plus a species, compared
 * structurally.  Ids are produced by rendering a number in decimal, so the
 * decimal rendering is modelled too, together with its inverse.
 */
module Agents {

  datatype AgentSpecies = Red | Blue

  /** `AgentSpecies::all()`: every species, in declaration order. */
  function AllSpecies(): (r: seq<AgentSpecies>)
    ensures |r| == 2
    ensures Red in r && Blue in r
    ensures r[0] == Red
  {
    [Red, Blue]
  }

  /** `AgentSpecies::iter()`: enumerates the same species `all()` collects. */
  function IterSpecies(): (r: seq<AgentSpecies>)
    ensures r == AllSpecies()
  {
    [Red, Blue]
  }

  datatype Agent = Agent(id: string, species: AgentSpecies)

  /** `Agent::new`: the record keeps both arguments unchanged. */
  function NewAgent(id: string, species: AgentSpecies): (a: Agent)
    ensures a.id == id && a.species == species
  {
    Agent(id, species)
  }

  // ---------------------------------------------------------------------
  // Species by id parity (`graph_walker` seeding)
  // ---------------------------------------------------------------------

  /** The species the `graph_walker` universes give agent number `id`: even red, odd blue. */
  function ParitySpecies(id: nat): AgentSpecies
  {
    if id % 2 == 0 then Red else Blue
  }

  /** Number of even numbers below `n`: the red agents among ids `0 .. n`. */
  function Evens(n: nat): nat
  {
    (n + 1) / 2
  }

  /**
   * One more id adds one to the red count if it is even and one to the
   * blue count `n / 2` if it is odd.
   */
  lemma EvensStep(n: nat)
    requires n > 0
    ensures Evens(n) == Evens(n - 1) + (if ParitySpecies(n - 1) == Red then 1 else 0)
    ensures n / 2 == (n - 1) / 2 + (if ParitySpecies(n - 1) == Blue then 1 else 0)
  {
  }

  /** Ids `0 .. 2n` hold `n` even and `n` odd numbers. */
  lemma EvensBalanced(n: nat)
    ensures Evens(2 * n) == n && (2 * n) / 2 == n
  {
  }

  // ---------------------------------------------------------------------
  // Decimal rendering of ids (`to_string()` of an unsigned integer)
  // ---------------------------------------------------------------------

  function DigitChar(d: nat): char
    requires d < 10
  {
    (('0' as int) + d) as char
  }

  predicate IsDigit(c: char)
  {
    '0' <= c <= '9'
  }

  function DigitValue(c: char): nat
  {
    if IsDigit(c) then (c as int) - ('0' as int) else 0
  }

  /** Decimal text of `n`, most significant digit first, no leading zeros. */
  function Decimal(n: nat): (s: string)
    ensures |s| >= 1
    ensures forall k :: 0 <= k < |s| ==> IsDigit(s[k])
  {
    if n < 10 then [DigitChar(n)] else Decimal(n / 10) + [DigitChar(n % 10)]
  }

  /** Reads a string of decimal digits back as a number. */
  function ParseDecimal(s: string): nat
  {
    if |s| == 0 then 0 else 10 * ParseDecimal(s[..|s| - 1]) + DigitValue(s[|s| - 1])
  }

  /** Parsing the decimal text of a number gives the number back. */
  lemma {:induction false} DecimalRoundTrip(n: nat)
    ensures ParseDecimal(Decimal(n)) == n
  {
    var s := Decimal(n);
    if n < 10 {
      assert s[..0] == [];
    } else {
      DecimalRoundTrip(n / 10);
      assert s[..|s| - 1] == Decimal(n / 10);
    }
  }

  /** Different numbers have different decimal texts. */
  lemma DecimalInjective(a: nat, b: nat)
    ensures Decimal(a) == Decimal(b) ==> a == b
  {
    DecimalRoundTrip(a);
    DecimalRoundTrip(b);
  }

  /**
   * Agents numbered `0 .. |species|` and named by the decimal text of
   * their number have pairwise distinct ids, whatever species each is
   * given.
   */
  lemma NumberedIdsDistinct(species: seq<AgentSpecies>)
    ensures var agents := seq(|species|, k requires 0 <= k < |species| => NewAgent(Decimal(k), species[k]));
            forall i, j :: 0 <= i < j < |agents| ==> agents[i].id != agents[j].id
  {
    forall i: nat, j: nat | i < j < |species|
      ensures Decimal(i) != Decimal(j)
    {
      DecimalInjective(i, j);
    }
  }
}
