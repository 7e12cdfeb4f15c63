/**
 * Head counts over a grid of agent sets.
 *
 * Every crate keeps one set of agents per cell; the population of the
 * grid is the sum of the set sizes.  These definitions and lemmas are
 * the bookkeeping the conservation arguments rest on: inserting a fresh
 * agent into one cell raises the sum by one, and a grid of pairwise
 * disjoint sets holds exactly as many agents as their union.
 */
module Tally {

  /** A subset is no larger than its superset. */
  lemma {:induction false} SubsetCard<T>(a: set<T>, b: set<T>)
    requires a <= b
    ensures |a| <= |b|
  {
    if a != {} {
      var e :| e in a;
      SubsetCard(a - {e}, b - {e});
    }
  }

  /** Sum of the sizes of the sets in `ss`. */
  function SumCard<T>(ss: seq<set<T>>): nat
  {
    if |ss| == 0 then 0 else SumCard(ss[..|ss| - 1]) + |ss[|ss| - 1]|
  }

  /** Union of all the sets in `ss`. */
  function UnionAll<T>(ss: seq<set<T>>): set<T>
  {
    if |ss| == 0 then {} else UnionAll(ss[..|ss| - 1]) + ss[|ss| - 1]
  }

  /** No element occurs in two different positions of `ss`. */
  ghost predicate PairwiseDisjoint<T>(ss: seq<set<T>>)
  {
    forall i, j :: 0 <= i < |ss| && 0 <= j < |ss| && i != j ==> ss[i] !! ss[j]
  }

  /** Membership in the union is membership in one of the sets. */
  lemma {:induction false} InUnionAll<T>(ss: seq<set<T>>, a: T)
    ensures a in UnionAll(ss) <==> exists i :: 0 <= i < |ss| && a in ss[i]
  {
    if |ss| > 0 {
      var init := ss[..|ss| - 1];
      InUnionAll(init, a);
      if a in UnionAll(ss) && a !in ss[|ss| - 1] {
        var i :| 0 <= i < |init| && a in init[i];
        assert a in ss[i];
      }
      if exists i :: 0 <= i < |ss| && a in ss[i] {
        var i :| 0 <= i < |ss| && a in ss[i];
        if i < |ss| - 1 {
          assert a in init[i];
        }
      }
    }
  }

  /** A member of one of the sets is in the union. */
  lemma InUnionAllAt<T>(ss: seq<set<T>>, i: nat, a: T)
    requires i < |ss| && a in ss[i]
    ensures a in UnionAll(ss)
  {
    InUnionAll(ss, a);
  }

  /** A grid of pairwise disjoint sets holds exactly as many elements as their union. */
  lemma {:induction false} SumCardDisjoint<T>(ss: seq<set<T>>)
    requires PairwiseDisjoint(ss)
    ensures SumCard(ss) == |UnionAll(ss)|
  {
    if |ss| > 0 {
      var init := ss[..|ss| - 1];
      var last := ss[|ss| - 1];
      assert PairwiseDisjoint(init) by {
        forall i, j | 0 <= i < |init| && 0 <= j < |init| && i != j
          ensures init[i] !! init[j]
        {
          assert init[i] == ss[i] && init[j] == ss[j];
        }
      }
      SumCardDisjoint(init);
      assert UnionAll(init) !! last by {
        forall a | a in UnionAll(init)
          ensures a !in last
        {
          InUnionAll(init, a);
          var i :| 0 <= i < |init| && a in init[i];
          assert ss[i] !! last;
        }
      }
    }
  }

  /** Replacing one set changes the sum by exactly the change in that set's size. */
  lemma {:induction false} SumCardUpdate<T>(ss: seq<set<T>>, d: nat, t: set<T>)
    requires d < |ss|
    ensures SumCard(ss[d := t]) + |ss[d]| == SumCard(ss) + |t|
  {
    var n := |ss| - 1;
    var us := ss[d := t];
    if d == n {
      assert us[..n] == ss[..n];
    } else {
      SumCardUpdate(ss[..n], d, t);
      assert us[..n] == ss[..n][d := t];
    }
  }

  /** Inserting an element into one set raises the sum by one exactly when it was absent. */
  lemma InsertCount<T>(ss: seq<set<T>>, d: nat, a: T)
    requires d < |ss|
    ensures a !in ss[d] ==> SumCard(ss[d := ss[d] + {a}]) == SumCard(ss) + 1
    ensures a in ss[d] ==> SumCard(ss[d := ss[d] + {a}]) == SumCard(ss)
  {
    SumCardUpdate(ss, d, ss[d] + {a});
    if a in ss[d] {
      assert ss[d] + {a} == ss[d];
    }
  }

  /** Inserting an element into one set inserts it into the union. */
  lemma UnionAllInsert<T>(ss: seq<set<T>>, d: nat, a: T)
    requires d < |ss|
    ensures UnionAll(ss[d := ss[d] + {a}]) == UnionAll(ss) + {a}
  {
    var ts := ss[d := ss[d] + {a}];
    forall b | b in UnionAll(ts)
      ensures b in UnionAll(ss) + {a}
    {
      InUnionAll(ts, b);
      InUnionAll(ss, b);
      var i :| 0 <= i < |ts| && b in ts[i];
      assert b in ss[i] || b == a;
    }
    forall b | b in UnionAll(ss) + {a}
      ensures b in UnionAll(ts)
    {
      InUnionAll(ts, b);
      InUnionAll(ss, b);
      if b in UnionAll(ss) {
        var i :| 0 <= i < |ss| && b in ss[i];
        assert b in ts[i];
      } else {
        assert b in ts[d];
      }
    }
  }

  /** A grid of `n` empty sets holds nothing. */
  lemma {:induction false} SumCardEmpty<T>(ss: seq<set<T>>)
    requires forall i :: 0 <= i < |ss| ==> ss[i] == {}
    ensures SumCard(ss) == 0
  {
    if |ss| > 0 {
      SumCardEmpty(ss[..|ss| - 1]);
    }
  }

  /** Adding two elements one at a time to a union is adding the pair to its second part. */
  lemma UnionPair<T>(a: set<T>, b: set<T>, x: T, y: T)
    ensures a + b + {x} + {y} == a + (b + {x, y})
  {
  }
}
