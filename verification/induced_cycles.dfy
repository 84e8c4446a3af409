/**
  The longest induced cycle search of circumferenceChecker:
  lengthOfLongestInducedSuperCycle grows a chordless path at its last end
  and records its length as soon as the two ends are adjacent;
  getLongestInducedCycleLength starts it from every seed path
  second, i, last with i < second < last.

  The pool handed to a child is the parent's pool minus every neighbour of
  the parent's last vertex. The C code subtracts N(last) before each child
  and adds all of N(last) back after it, so between children the pool even
  grows by neighbours that were never in it; but the next child again
  receives the pool minus N(last), so every child sees the same pool, which
  is what is modelled here.
*/
module InducedCycles {
  import opened VertexSets
  import opened Graphs
  import opened Cycles
  import opened Seeds
  import opened LengthCensus

  /** The pool strictly shrinks when a member's neighbourhood is removed. */
  lemma ShrinksPool(remaining: set<nat>, nbrs: set<nat>, x: nat)
    requires x in remaining && x in nbrs
    ensures |remaining - nbrs| < |remaining|
  {
    SubsetCard(remaining - nbrs, remaining - {x});
  }

  /**
    lengthOfLongestInducedSuperCycle. A path whose ends are adjacent is a
    cycle: its length is recorded and it is not extended. Otherwise the
    search gives up when first has no neighbour left in the pool, and tries
    each remaining neighbour of last.
  */
  function SuperCycle(g: Graph, remaining: set<nat>, last: nat, first: nat, pathLength: nat): (r: Census)
    requires last < |g| && first < |g| && remaining <= Range(|g|)
    ensures Summarises(r)
    decreases |remaining|, 1, 0
  {
    if last in g[first] then Record(pathLength)
    else if g[first] * remaining == {} then Nothing()
    else SuperCycleLoop(g, remaining, last, first, pathLength, Ascending(g[last] * remaining, |g|))
  }

  /** The forEach loop of lengthOfLongestInducedSuperCycle; each child gets the pool minus N(last). */
  function SuperCycleLoop(g: Graph, remaining: set<nat>, last: nat, first: nat, pathLength: nat, candidates: seq<nat>): (r: Census)
    requires last < |g| && first < |g| && remaining <= Range(|g|)
    requires forall i | 0 <= i < |candidates| :: candidates[i] in g[last] * remaining
    ensures Summarises(r)
    decreases |remaining|, 0, |candidates|
  {
    if candidates == [] then Nothing()
    else
      var next := candidates[0];
      ShrinksPool(remaining, g[last], next);
      Merge(SuperCycle(g, remaining - g[last], next, first, pathLength + 1),
            SuperCycleLoop(g, remaining, last, first, pathLength, candidates[1..]))
  }

  /** The three cases of one search call, for proofs that keep SuperCycle folded. */
  lemma SuperCycleCases(g: Graph, remaining: set<nat>, last: nat, first: nat, pathLength: nat)
    requires last < |g| && first < |g| && remaining <= Range(|g|)
    ensures last in g[first] ==> SuperCycle(g, remaining, last, first, pathLength) == Record(pathLength)
    ensures last !in g[first] && g[first] * remaining == {} ==> SuperCycle(g, remaining, last, first, pathLength) == Nothing()
    ensures last !in g[first] && g[first] * remaining != {} ==>
      SuperCycle(g, remaining, last, first, pathLength)
        == SuperCycleLoop(g, remaining, last, first, pathLength, Ascending(g[last] * remaining, |g|))
  {
  }

  lemma {:induction false} SuperCycleLoopAny(g: Graph, remaining: set<nat>, last: nat, first: nat, pathLength: nat, candidates: seq<nat>, k: nat)
    requires last < |g| && first < |g| && remaining <= Range(|g|)
    requires forall i | 0 <= i < |candidates| :: candidates[i] in g[last] * remaining
    ensures k in SuperCycleLoop(g, remaining, last, first, pathLength, candidates).lengths
      <==> exists i | 0 <= i < |candidates| ::
             k in SuperCycle(g, remaining - g[last], candidates[i], first, pathLength + 1).lengths
    decreases |candidates|
  {
    hide SuperCycle, Summarises;
    if candidates != [] {
      var tail := candidates[1..];
      SuperCycleLoopAny(g, remaining, last, first, pathLength, tail, k);
      assert forall i | 0 <= i < |tail| :: tail[i] == candidates[i + 1];
    }
  }

  /**
    The invariant of the search, for the path p it is extending (p[0] is
    first, the last entry is last): p is a path with no chord except
    possibly between its ends, it lies in the universe u, and the pool is
    exactly the vertices of u off the path and not adjacent to an inner
    vertex of it.
  */
  predicate CycleState(g: Graph, u: set<nat>, p: seq<nat>, remaining: set<nat>)
  {
    && WellFormed(g) && u <= Range(|g|)
    && |p| >= 3 && IsPath(g, p) && NoChords(g, p) && Elems(p) <= u
    && remaining == u - Elems(p) - NeighboursOf(g, p[1..|p| - 1])
  }

  /** Appending a candidate to a path whose ends are not adjacent keeps the invariant. */
  lemma ChildCycleState(g: Graph, u: set<nat>, p: seq<nat>, remaining: set<nat>, next: nat)
    requires CycleState(g, u, p, remaining)
    requires p[|p| - 1] !in g[p[0]]
    requires next in g[p[|p| - 1]] * remaining
    ensures CycleState(g, u, p + [next], remaining - g[p[|p| - 1]])
  {
    hide NoChords, NeighboursOf;
    var m := |p|;
    var q := p + [next];
    var last := p[m - 1];
    assert next !in Elems(p);
    assert IsPath(g, q) by {
      assert forall i | 0 <= i < m :: q[i] == p[i];
      assert Adjacent(g, last, next);
    }
    ChildNoChords(g, p, next);
    assert q[1..|q| - 1] == p[1..m];
    assert p[1..m] == p[1..m - 1] + [last];
    NeighboursOfSnoc(g, p[1..m - 1], last);
  }

  /**
    Appending a vertex that no inner vertex of p sees keeps p free of chords,
    once its ends are not adjacent either (they stop being the ends).
  */
  lemma ChildNoChords(g: Graph, p: seq<nat>, next: nat)
    requires IsPath(g, p) && |p| >= 3 && NoChords(g, p)
    requires p[|p| - 1] !in g[p[0]]
    requires next !in NeighboursOf(g, p[1..|p| - 1])
    ensures NoChords(g, p + [next])
  {
    var m := |p|;
    var q := p + [next];
    var last := p[m - 1];
    forall i, j | 0 <= i && i + 1 < j < |q| && !(i == 0 && j == |q| - 1) ensures !Adjacent(g, q[i], q[j]) {
      if j == m {
        assert q[i] == p[i] && i >= 1 && i <= m - 2;
        assert p[i] == p[1..m - 1][i - 1];
      } else if i == 0 && j == m - 1 {
        assert q[i] == p[0] && q[j] == last;
      } else {
        assert q[i] == p[i] && q[j] == p[j];
      }
    }
  }

  lemma NeighboursOfSnoc(g: Graph, q: seq<nat>, v: nat)
    requires forall k | 0 <= k < |q| :: q[k] < |g|
    requires v < |g|
    ensures NeighboursOf(g, q + [v]) == NeighboursOf(g, q) + g[v]
  {
    var r := q + [v];
    forall x | x in NeighboursOf(g, r) ensures x in NeighboursOf(g, q) + g[v] {
      var k :| 0 <= k < |r| && x in g[r[k]];
      if k < |q| { assert r[k] == q[k]; }
    }
    forall x | x in NeighboursOf(g, q) ensures x in NeighboursOf(g, r) {
      var k :| 0 <= k < |q| && x in g[q[k]];
      assert r[k] == q[k];
    }
    assert r[|q|] == v;
  }

  /** The facts about a state the search itself needs: its ends and pool are vertices of g. */
  lemma StateBasics(g: Graph, u: set<nat>, p: seq<nat>, remaining: set<nat>)
    requires CycleState(g, u, p, remaining)
    ensures WellFormed(g) && |p| >= 3 && p[0] < |g| && p[|p| - 1] < |g| && remaining <= Range(|g|)
  {
  }

  /** A path in the invariant whose ends are adjacent is an induced cycle of the universe. */
  lemma ClosedStateIsCycle(g: Graph, u: set<nat>, p: seq<nat>, remaining: set<nat>)
    requires CycleState(g, u, p, remaining)
    requires p[|p| - 1] in g[p[0]]
    ensures IsInducedCycle(g, p) && Elems(p) <= u
  {
    assert Adjacent(g, p[|p| - 1], p[0]);
  }

  /** Every recorded length is the number of vertices of an induced cycle inside the universe. */
  lemma {:induction false} SuperCycleSound(g: Graph, u: set<nat>, p: seq<nat>, remaining: set<nat>, k: nat)
    requires CycleState(g, u, p, remaining)
    requires k in SuperCycle(g, remaining, p[|p| - 1], p[0], |p|).lengths
    ensures exists c :: IsInducedCycle(g, c) && Elems(c) <= u && |c| == k
    decreases |remaining|
  {
    hide SuperCycle, SuperCycleLoop, Summarises, Merge, CycleState, IsInducedCycle, Elems;
    StateBasics(g, u, p, remaining);
    var last, first := p[|p| - 1], p[0];
    SuperCycleCases(g, remaining, last, first, |p|);
    if last in g[first] {
      ClosedStateIsCycle(g, u, p, remaining);
    } else {
      var candidates := Ascending(g[last] * remaining, |g|);
      SuperCycleLoopAny(g, remaining, last, first, |p|, candidates, k);
      var i :| 0 <= i < |candidates| &&
        k in SuperCycle(g, remaining - g[last], candidates[i], first, |p| + 1).lengths;
      var next := candidates[i];
      var rest := remaining - g[last];
      ChildCycleState(g, u, p, remaining, next);
      ShrinksPool(remaining, g[last], next);
      var q := p + [next];
      assert q[|q| - 1] == next && q[0] == first && |q| == |p| + 1;
      assert k in SuperCycle(g, rest, q[|q| - 1], q[0], |q|).lengths;
      SuperCycleSound(g, u, q, rest, k);
    }
  }

  /** A state whose path is a whole induced cycle closes it. */
  lemma WholeCycleCloses(g: Graph, u: set<nat>, p: seq<nat>, remaining: set<nat>, c: seq<nat>)
    requires CycleState(g, u, p, remaining)
    requires IsInducedCycle(g, c) && |p| == |c| && c[..|p|] == p
    ensures p[|p| - 1] in g[p[0]]
  {
    assert c == p;
    assert Adjacent(g, c[|c| - 1], c[0]);
  }

  /**
    A state whose path is a proper prefix of an induced cycle inside the
    universe is not closed, passes the prune, and has the cycle's next
    vertex among its candidates, whose child state extends the prefix.
  */
  lemma PrefixStep(g: Graph, u: set<nat>, p: seq<nat>, remaining: set<nat>, c: seq<nat>)
    requires CycleState(g, u, p, remaining)
    requires IsInducedCycle(g, c) && Elems(c) <= u
    requires |p| < |c| && c[..|p|] == p
    ensures p[|p| - 1] !in g[p[0]]
    ensures g[p[0]] * remaining != {}
    ensures c[|p|] in g[p[|p| - 1]] * remaining
    ensures CycleState(g, u, p + [c[|p|]], remaining - g[p[|p| - 1]])
    ensures c[..|p| + 1] == p + [c[|p|]]
  {
    hide CycleState, IsInducedCycle, WellFormed, NoChords, IsPath;
    StateBasics(g, u, p, remaining);
    var m := |p|;
    PrefixOpen(g, p, c);
    OffPathInPool(g, u, p, remaining, c, |c| - 1);
    assert c[|c| - 1] in g[p[0]] * remaining;
    OffPathInPool(g, u, p, remaining, c, m);
    ChildCycleState(g, u, p, remaining, c[m]);
    assert c[..m + 1] == c[..m] + [c[m]];
  }

  /**
    A proper prefix of an induced cycle has non-adjacent ends, its last
    vertex is adjacent to the cycle's next one, and the cycle's last vertex
    is a neighbour of its first.
  */
  lemma PrefixOpen(g: Graph, p: seq<nat>, c: seq<nat>)
    requires WellFormed(g) && IsInducedCycle(g, c)
    requires 3 <= |p| < |c| && c[..|p|] == p
    ensures p[|p| - 1] !in g[p[0]]
    ensures c[|p|] in g[p[|p| - 1]]
    ensures c[|c| - 1] in g[p[0]]
  {
    var m := |p|;
    assert c[0] == p[0] && c[m - 1] == p[m - 1];
    assert !Adjacent(g, c[0], c[m - 1]);
    assert Adjacent(g, c[m - 1], c[m]);
    assert Adjacent(g, c[|c| - 1], c[0]);
  }

  /**
    Every induced cycle inside the universe that starts with the path is
    found and its number of vertices recorded.
  */
  lemma {:induction false} SuperCycleComplete(g: Graph, u: set<nat>, p: seq<nat>, remaining: set<nat>, c: seq<nat>)
    requires CycleState(g, u, p, remaining)
    requires IsInducedCycle(g, c) && Elems(c) <= u
    requires |p| <= |c| && c[..|p|] == p
    ensures |c| in SuperCycle(g, remaining, p[|p| - 1], p[0], |p|).lengths
    decreases |c| - |p|
  {
    hide SuperCycle, SuperCycleLoop, Summarises, Merge, CycleState, IsInducedCycle, Elems;
    StateBasics(g, u, p, remaining);
    var m := |p|;
    var last, first := p[m - 1], p[0];
    SuperCycleCases(g, remaining, last, first, m);
    if m == |c| {
      WholeCycleCloses(g, u, p, remaining, c);
    } else {
      PrefixStep(g, u, p, remaining, c);
      var next := c[m];
      var candidates := Ascending(g[last] * remaining, |g|);
      assert next in candidates;
      SuperCycleComplete(g, u, p + [next], remaining - g[last], c);
      SuperCycleLoopAny(g, remaining, last, first, m, candidates, |c|);
    }
  }

  /**
    A vertex of an induced cycle that comes after the path prefix is in the
    pool: it is off the path, and a chord would join it to any inner vertex
    it were adjacent to.
  */
  lemma OffPathInPool(g: Graph, u: set<nat>, p: seq<nat>, remaining: set<nat>, c: seq<nat>, t: nat)
    requires CycleState(g, u, p, remaining)
    requires IsInducedCycle(g, c) && Elems(c) <= u
    requires |p| <= t < |c| && c[..|p|] == p
    ensures c[t] in remaining
  {
    var m := |p|;
    assert forall j | 0 <= j < m :: c[j] == p[j];
    assert c[t] !in Elems(p) by {
      forall j | 0 <= j < m ensures p[j] != c[t] {
        assert c[j] == p[j];
      }
    }
    var inner := p[1..m - 1];
    forall j | 0 <= j < |inner| ensures c[t] !in g[inner[j]] {
      assert inner[j] == c[j + 1];
      assert !Adjacent(g, c[j + 1], c[t]);
    }
  }

  // ---------------------------------------------------------------------
  // getLongestInducedCycleLength.

  /**
    The two seed loops around i: second runs over the neighbours of i above
    i, last over those above second.
  */
  function UpperSeeds(g: Graph, included: set<nat>, i: nat): (ps: seq<(nat, nat)>)
    requires i < |g|
    ensures forall p {:trigger p in ps} :: p in ps <==> p.0 in g[i] * included && p.1 in g[i] * included && i < p.0 < p.1 && p.1 < |g|
    ensures forall j | 0 <= j < |ps| :: ps[j].0 < |g| && ps[j].1 < |g| && ps[j] in ps
  {
    var ps := OrderedPairs(AfterIndex(Ascending(g[i] * included, |g|), i));
    assert forall j | 0 <= j < |ps| :: ps[j] in ps;
    ps
  }

  function SeedCycles(g: Graph, remaining: set<nat>, seeds: seq<(nat, nat)>): (r: Census)
    requires remaining <= Range(|g|)
    requires forall j | 0 <= j < |seeds| :: seeds[j].0 < |g| && seeds[j].1 < |g|
    ensures Summarises(r)
  {
    if seeds == [] then Nothing()
    else
      var (second, last) := seeds[0];
      Merge(SuperCycle(g, remaining, last, second, 3), SeedCycles(g, remaining, seeds[1..]))
  }

  lemma {:induction false} SeedCyclesAny(g: Graph, remaining: set<nat>, seeds: seq<(nat, nat)>, k: nat)
    requires remaining <= Range(|g|)
    requires forall j | 0 <= j < |seeds| :: seeds[j].0 < |g| && seeds[j].1 < |g|
    ensures k in SeedCycles(g, remaining, seeds).lengths
      <==> exists j | 0 <= j < |seeds| :: k in SuperCycle(g, remaining, seeds[j].1, seeds[j].0, 3).lengths
  {
    hide SuperCycle, Summarises;
    if seeds != [] {
      var tail := seeds[1..];
      SeedCyclesAny(g, remaining, tail, k);
      assert forall j | 0 <= j < |tail| :: tail[j] == seeds[j + 1];
    }
  }

  /** The outer loop of getLongestInducedCycleLength over the vertices i, i+1, ... */
  function InducedCyclesFrom(g: Graph, i: nat): (r: Census)
    ensures Summarises(r)
    decreases |g| - i
  {
    if i >= |g| then Nothing()
    else
      var included := Included(g, {});
      Merge(SeedCycles(g, included - (g[i] + {i}), UpperSeeds(g, included, i)), InducedCyclesFrom(g, i + 1))
  }

  lemma {:induction false} InducedCyclesFromAny(g: Graph, i: nat, k: nat)
    ensures k in InducedCyclesFrom(g, i).lengths
      <==> exists v | i <= v < |g| ::
             k in SeedCycles(g, Included(g, {}) - (g[v] + {v}), UpperSeeds(g, Included(g, {}), v)).lengths
    decreases |g| - i
  {
    hide SeedCycles, UpperSeeds, Summarises;
    if i < |g| {
      InducedCyclesFromAny(g, i + 1, k);
    }
  }

  /**
    getLongestInducedCycleLength: the longest induced cycle length and the
    histogram numberOfLengths it fills.
  */
  function GetLongestInducedCycleLength(g: Graph): (r: Census)
    ensures Summarises(r)
  {
    InducedCyclesFrom(g, 0)
  }

  /** A seed recorded from vertex v leads to an induced cycle. */
  lemma SeedSound(g: Graph, v: nat, k: nat)
    requires WellFormed(g) && v < |g|
    requires k in SeedCycles(g, Included(g, {}) - (g[v] + {v}), UpperSeeds(g, Included(g, {}), v)).lengths
    ensures HasInducedCycleOfLength(g, k)
  {
    hide SeedCycles, SuperCycle, UpperSeeds, Summarises, CycleState, WellFormed, IsInducedCycle;
    var included := Included(g, {});
    var remaining := included - (g[v] + {v});
    var seeds := UpperSeeds(g, included, v);
    SeedCyclesAny(g, remaining, seeds, k);
    var j :| 0 <= j < |seeds| && k in SuperCycle(g, remaining, seeds[j].1, seeds[j].0, 3).lengths;
    var (second, last) := seeds[j];
    var p := [second, v, last];
    SeedState(g, v, second, last);
    SuperCycleSound(g, included, p, remaining, k);
  }

  /** The seed path second, v, last starts the search in its invariant, over all vertices. */
  lemma SeedState(g: Graph, v: nat, second: nat, last: nat)
    requires WellFormed(g) && v < |g|
    requires second in g[v] && last in g[v] && v < second < last
    ensures CycleState(g, Included(g, {}), [second, v, last], Included(g, {}) - (g[v] + {v}))
  {
    var p := [second, v, last];
    assert Adjacent(g, second, v) && Adjacent(g, v, last);
    assert IsPath(g, p);
    assert p[1..2] == [v];
    assert NeighboursOf(g, [v]) == g[v] by {
      assert [v][0] == v;
    }
    assert Elems(p) == {second, v, last};
    var all := Included(g, {});
    assert all - (g[v] + {v}) == all - Elems(p) - g[v];
  }

  /** An induced cycle, read from its least vertex towards its smaller neighbour, is recorded. */
  lemma CycleRecorded(g: Graph, c: seq<nat>)
    requires WellFormed(g) && IsInducedCycle(g, c)
    ensures |c| in GetLongestInducedCycleLength(g).lengths
  {
    hide SeedCycles, SuperCycle, InducedCyclesFrom, CycleState, Summarises, UpperSeeds;
    var included := Included(g, {});
    assert c[0] in Elems(c);
    var s := First(Elems(c), |g|);
    FirstIsLeast(Elems(c), |g|);
    var e := OrientAt(g, c, s, true);
    assert e[0] in Elems(c) && e[2] in Elems(c);
    assert Adjacent(g, e[0], e[1]) && Adjacent(g, e[1], e[2]);
    var second, last := e[0], e[2];
    assert second in g[s] && last in g[s];
    SeedState(g, s, second, last);
    var p := [second, s, last];
    assert e[..3] == p;
    var remaining := included - (g[s] + {s});
    SuperCycleComplete(g, included, p, remaining, e);
    var seeds := UpperSeeds(g, included, s);
    assert (second, last) in seeds;
    var j :| 0 <= j < |seeds| && seeds[j] == (second, last);
    SeedCyclesAny(g, remaining, seeds, |c|);
    assert |c| in SeedCycles(g, remaining, seeds).lengths;
    InducedCyclesFromAny(g, 0, |c|);
  }

  /**
    getLongestInducedCycleLength is exact: numberOfLengths[k] is non-zero iff
    the graph has an induced cycle with k vertices, and the value returned
    is the largest such k, or 0 when the graph has no induced cycle.
  */
  lemma GetLongestInducedCycleLengthCorrect(g: Graph)
    requires WellFormed(g)
    ensures var r := GetLongestInducedCycleLength(g);
      && (forall k: nat {:trigger r.lengths[k]} :: k in r.lengths <==> HasInducedCycleOfLength(g, k))
      && (r.longest == 0 <==> forall k: nat :: !HasInducedCycleOfLength(g, k))
      && (r.longest != 0 ==> HasInducedCycleOfLength(g, r.longest))
      && (forall k: nat | HasInducedCycleOfLength(g, k) :: k <= r.longest)
  {
    var r := GetLongestInducedCycleLength(g);
    forall k: nat ensures k in r.lengths <==> HasInducedCycleOfLength(g, k) {
      if k in r.lengths {
        InducedCyclesFromAny(g, 0, k);
        var v :| 0 <= v < |g| &&
          k in SeedCycles(g, Included(g, {}) - (g[v] + {v}), UpperSeeds(g, Included(g, {}), v)).lengths;
        SeedSound(g, v, k);
      }
      if HasInducedCycleOfLength(g, k) {
        var c :| IsInducedCycle(g, c) && |c| == k;
        CycleRecorded(g, c);
      }
    }
    if r.lengths != multiset{} {
      assert r.longest in r.lengths;
    }
  }
}
