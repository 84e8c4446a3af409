/**
  The longest induced path search of circumferenceChecker:
  lengthOfLongestInducedSuperPath records every path it visits and grows it
  at its last end through vertices adjacent to no earlier vertex;
  getLongestInducedPathLength starts it from every edge i, neighbour.

  Lengths of paths are numbers of edges. The C code keeps the longest
  number of vertices seen (0 at the start) and subtracts one at the end;
  the census here keeps edge counts directly, so the value returned is its
  maximum, or -1 when nothing was recorded, which is the same number.
*/
module InducedPaths {
  import opened VertexSets
  import opened Graphs
  import opened LengthCensus
  import opened InducedCycles

  /**
    lengthOfLongestInducedSuperPath. The path of pathLength vertices is
    recorded with pathLength - 1 edges, then each remaining neighbour of
    last is tried, the child getting the pool minus N(last).
  */
  function SuperPath(g: Graph, remaining: set<nat>, last: nat, pathLength: nat): (r: Census)
    requires last < |g| && remaining <= Range(|g|) && pathLength >= 1
    ensures Summarises(r)
    decreases |remaining|, 1, 0
  {
    Merge(Record(pathLength - 1), SuperPathLoop(g, remaining, last, pathLength, Ascending(g[last] * remaining, |g|)))
  }

  /** The forEach loop of lengthOfLongestInducedSuperPath. */
  function SuperPathLoop(g: Graph, remaining: set<nat>, last: nat, pathLength: nat, candidates: seq<nat>): (r: Census)
    requires last < |g| && remaining <= Range(|g|) && pathLength >= 1
    requires forall i | 0 <= i < |candidates| :: candidates[i] in g[last] * remaining
    ensures Summarises(r)
    decreases |remaining|, 0, |candidates|
  {
    if candidates == [] then Nothing()
    else
      var next := candidates[0];
      ShrinksPool(remaining, g[last], next);
      Merge(SuperPath(g, remaining - g[last], next, pathLength + 1),
            SuperPathLoop(g, remaining, last, pathLength, candidates[1..]))
  }

  /** A path's own edge count is recorded; every other count comes from its extensions. */
  lemma SuperPathCases(g: Graph, remaining: set<nat>, last: nat, pathLength: nat, k: nat)
    requires last < |g| && remaining <= Range(|g|) && pathLength >= 1
    ensures k in SuperPath(g, remaining, last, pathLength).lengths
      <==> k == pathLength - 1
           || k in SuperPathLoop(g, remaining, last, pathLength, Ascending(g[last] * remaining, |g|)).lengths
  {
  }

  lemma {:induction false} SuperPathLoopAny(g: Graph, remaining: set<nat>, last: nat, pathLength: nat, candidates: seq<nat>, k: nat)
    requires last < |g| && remaining <= Range(|g|) && pathLength >= 1
    requires forall i | 0 <= i < |candidates| :: candidates[i] in g[last] * remaining
    ensures k in SuperPathLoop(g, remaining, last, pathLength, candidates).lengths
      <==> exists i | 0 <= i < |candidates| ::
             k in SuperPath(g, remaining - g[last], candidates[i], pathLength + 1).lengths
    decreases |candidates|
  {
    hide SuperPath, Summarises;
    if candidates != [] {
      var tail := candidates[1..];
      SuperPathLoopAny(g, remaining, last, pathLength, tail, k);
      assert forall i | 0 <= i < |tail| :: tail[i] == candidates[i + 1];
    }
  }

  /**
    The invariant of the search for the path p it is extending: p is an
    induced path inside the universe u, and the pool is exactly the
    vertices of u off the path and adjacent to no vertex of it but the last.
  */
  predicate PathState(g: Graph, u: set<nat>, p: seq<nat>, remaining: set<nat>)
  {
    && WellFormed(g) && u <= Range(|g|)
    && |p| >= 1 && IsInducedPath(g, p) && Elems(p) <= u
    && remaining == u - Elems(p) - NeighboursOf(g, p[..|p| - 1])
  }

  lemma PathStateBasics(g: Graph, u: set<nat>, p: seq<nat>, remaining: set<nat>)
    requires PathState(g, u, p, remaining)
    ensures |p| >= 1 && p[|p| - 1] < |g| && remaining <= Range(|g|)
    ensures IsInducedPath(g, p) && Elems(p) <= u
  {
  }

  /** Appending a candidate keeps the invariant. */
  lemma ChildPathState(g: Graph, u: set<nat>, p: seq<nat>, remaining: set<nat>, next: nat)
    requires PathState(g, u, p, remaining)
    requires next in g[p[|p| - 1]] * remaining
    ensures PathState(g, u, p + [next], remaining - g[p[|p| - 1]])
  {
    var m := |p|;
    var q := p + [next];
    var last := p[m - 1];
    SnocInduced(g, p, next);
    assert q[..|q| - 1] == p;
    assert p == p[..m - 1] + [last];
    NeighboursOfSnoc(g, p[..m - 1], last);
  }

  /** An induced path stays induced when extended by a neighbour of its last vertex adjacent to no earlier one. */
  lemma SnocInduced(g: Graph, p: seq<nat>, next: nat)
    requires WellFormed(g) && |p| >= 1 && IsInducedPath(g, p)
    requires next in g[p[|p| - 1]] && next !in Elems(p) && next !in NeighboursOf(g, p[..|p| - 1])
    ensures IsInducedPath(g, p + [next])
  {
    var m := |p|;
    var q := p + [next];
    assert IsPath(g, q) by {
      assert forall i | 0 <= i < m :: q[i] == p[i];
      assert Adjacent(g, p[m - 1], next);
    }
    forall i, j | 0 <= i && i + 1 < j < |q| ensures !Adjacent(g, q[i], q[j]) {
      if j == m {
        assert q[i] == p[i] && i <= m - 2;
        assert p[i] == p[..m - 1][i];
      } else {
        assert q[i] == p[i] && q[j] == p[j];
      }
    }
  }

  /** Every recorded edge count is that of an induced path inside the universe. */
  lemma {:induction false} SuperPathSound(g: Graph, u: set<nat>, p: seq<nat>, remaining: set<nat>, k: nat)
    requires PathState(g, u, p, remaining)
    requires k in SuperPath(g, remaining, p[|p| - 1], |p|).lengths
    ensures k + 1 >= |p|
    ensures exists q :: IsInducedPath(g, q) && Elems(q) <= u && |q| == k + 1
    decreases |remaining|
  {
    hide SuperPath, SuperPathLoop, Summarises, Merge, PathState, IsInducedPath, Elems;
    PathStateBasics(g, u, p, remaining);
    var last := p[|p| - 1];
    var candidates := Ascending(g[last] * remaining, |g|);
    SuperPathCases(g, remaining, last, |p|, k);
    if k != |p| - 1 {
      SuperPathLoopAny(g, remaining, last, |p|, candidates, k);
      var i :| 0 <= i < |candidates| &&
        k in SuperPath(g, remaining - g[last], candidates[i], |p| + 1).lengths;
      var next := candidates[i];
      var rest := remaining - g[last];
      ChildPathState(g, u, p, remaining, next);
      var q := p + [next];
      assert q[|q| - 1] == next && |q| == |p| + 1;
      assert k in SuperPath(g, rest, q[|q| - 1], |q|).lengths;
      SuperPathSound(g, u, q, rest, k);
    }
  }

  /** A proper prefix of an induced path inside the universe has the path's next vertex as a candidate. */
  lemma PathPrefixStep(g: Graph, u: set<nat>, p: seq<nat>, remaining: set<nat>, q: seq<nat>)
    requires PathState(g, u, p, remaining)
    requires IsInducedPath(g, q) && Elems(q) <= u
    requires |p| < |q| && q[..|p|] == p
    ensures q[|p|] in g[p[|p| - 1]] * remaining
    ensures PathState(g, u, p + [q[|p|]], remaining - g[p[|p| - 1]])
    ensures q[..|p| + 1] == p + [q[|p|]]
  {
    var m := |p|;
    var next := q[m];
    assert forall j | 0 <= j < m :: q[j] == p[j];
    assert next !in Elems(p) by {
      forall j | 0 <= j < m ensures p[j] != next {
        assert q[j] == p[j];
      }
    }
    var earlier := p[..m - 1];
    forall j | 0 <= j < |earlier| ensures next !in g[earlier[j]] {
      assert earlier[j] == q[j];
      assert !Adjacent(g, q[j], q[m]);
    }
    assert Adjacent(g, q[m - 1], next);
    ChildPathState(g, u, p, remaining, next);
    assert q[..m + 1] == p + [next];
  }

  /** Every induced path inside the universe that starts with the path is visited and recorded. */
  lemma {:induction false} SuperPathComplete(g: Graph, u: set<nat>, p: seq<nat>, remaining: set<nat>, q: seq<nat>)
    requires PathState(g, u, p, remaining)
    requires IsInducedPath(g, q) && Elems(q) <= u
    requires |p| <= |q| && q[..|p|] == p
    ensures |q| - 1 in SuperPath(g, remaining, p[|p| - 1], |p|).lengths
    decreases |q| - |p|
  {
    hide SuperPath, SuperPathLoop, Summarises, Merge, PathState, IsInducedPath, Elems;
    PathStateBasics(g, u, p, remaining);
    var m := |p|;
    var last := p[m - 1];
    SuperPathCases(g, remaining, last, m, |q| - 1);
    if m < |q| {
      PathPrefixStep(g, u, p, remaining, q);
      var next := q[m];
      var candidates := Ascending(g[last] * remaining, |g|);
      assert next in candidates;
      SuperPathComplete(g, u, p + [next], remaining - g[last], q);
      SuperPathLoopAny(g, remaining, last, m, candidates, |q| - 1);
    }
  }

  // ---------------------------------------------------------------------
  // getLongestInducedPathLength.

  /** The forEach loop over the neighbours of i, each starting the path i, neighbour. */
  function EdgePaths(g: Graph, remaining: set<nat>, neighbours: seq<nat>): (r: Census)
    requires remaining <= Range(|g|)
    requires forall j | 0 <= j < |neighbours| :: neighbours[j] < |g|
    ensures Summarises(r)
  {
    if neighbours == [] then Nothing()
    else Merge(SuperPath(g, remaining, neighbours[0], 2), EdgePaths(g, remaining, neighbours[1..]))
  }

  lemma {:induction false} EdgePathsAny(g: Graph, remaining: set<nat>, neighbours: seq<nat>, k: nat)
    requires remaining <= Range(|g|)
    requires forall j | 0 <= j < |neighbours| :: neighbours[j] < |g|
    ensures k in EdgePaths(g, remaining, neighbours).lengths
      <==> exists j | 0 <= j < |neighbours| :: k in SuperPath(g, remaining, neighbours[j], 2).lengths
  {
    hide SuperPath, Summarises;
    if neighbours != [] {
      var tail := neighbours[1..];
      EdgePathsAny(g, remaining, tail, k);
      assert forall j | 0 <= j < |tail| :: tail[j] == neighbours[j + 1];
    }
  }

  /** The pool of the paths starting at i: every vertex but i and its neighbours. */
  function StartPool(g: Graph, i: nat): (r: set<nat>)
    requires i < |g|
    ensures r <= Range(|g|)
    ensures forall v: nat {:trigger v in r} :: v in r <==> v < |g| && v != i && v !in g[i]
  {
    Complement(g[i], |g|) - {i}
  }

  /** The outer loop of getLongestInducedPathLength over the vertices i, i+1, ... */
  function InducedPathsFrom(g: Graph, i: nat): (r: Census)
    ensures Summarises(r)
    decreases |g| - i
  {
    if i >= |g| then Nothing()
    else Merge(EdgePaths(g, StartPool(g, i), Ascending(g[i], |g|)), InducedPathsFrom(g, i + 1))
  }

  lemma {:induction false} InducedPathsFromAny(g: Graph, i: nat, k: nat)
    ensures k in InducedPathsFrom(g, i).lengths
      <==> exists v | i <= v < |g| :: k in EdgePaths(g, StartPool(g, v), Ascending(g[v], |g|)).lengths
    decreases |g| - i
  {
    hide EdgePaths, Summarises;
    if i < |g| {
      InducedPathsFromAny(g, i + 1, k);
    }
  }

  /**
    getLongestInducedPathLength: the number of edges of a longest induced
    path (-1 when nothing was recorded) and the histogram numberOfLengths
    by number of edges.
  */
  function GetLongestInducedPathLength(g: Graph): (r: (int, multiset<nat>))
    ensures r.0 >= -1
  {
    var c := InducedPathsFrom(g, 0);
    (if c.lengths == multiset{} then -1 else c.longest, c.lengths)
  }

  /** The path i, v starts the search in its invariant, over all vertices. */
  lemma EdgeState(g: Graph, i: nat, v: nat)
    requires WellFormed(g) && i < |g| && v in g[i]
    ensures PathState(g, Range(|g|), [i, v], StartPool(g, i))
  {
    var p := [i, v];
    assert Adjacent(g, i, v);
    assert IsInducedPath(g, p);
    assert p[..1] == [i];
    assert NeighboursOf(g, [i]) == g[i] by {
      assert [i][0] == i;
    }
    assert Elems(p) == {i, v};
    assert StartPool(g, i) == Range(|g|) - Elems(p) - g[i];
  }

  /** A recorded edge count from the edges at vertex i is that of an induced path. */
  lemma StartSound(g: Graph, i: nat, k: nat)
    requires WellFormed(g) && i < |g|
    requires k in EdgePaths(g, StartPool(g, i), Ascending(g[i], |g|)).lengths
    ensures k >= 1 && HasInducedPathOfLength(g, k)
  {
    hide EdgePaths, SuperPath, Summarises, PathState;
    var nbrs := Ascending(g[i], |g|);
    EdgePathsAny(g, StartPool(g, i), nbrs, k);
    var j :| 0 <= j < |nbrs| && k in SuperPath(g, StartPool(g, i), nbrs[j], 2).lengths;
    EdgeState(g, i, nbrs[j]);
    var p := [i, nbrs[j]];
    assert p[|p| - 1] == nbrs[j];
    SuperPathSound(g, Range(|g|), p, StartPool(g, i), k);
  }

  /** An induced path with an edge starts with an edge and stays inside the graph. */
  lemma InducedPathStart(g: Graph, q: seq<nat>)
    requires IsInducedPath(g, q) && |q| >= 2
    ensures IsPath(g, q) && Adjacent(g, q[0], q[1]) && Elems(q) <= Range(|g|)
  {
  }

  /** An induced path with at least one edge is recorded from its first edge. */
  lemma PathRecorded(g: Graph, q: seq<nat>)
    requires WellFormed(g) && IsInducedPath(g, q) && |q| >= 2
    ensures |q| - 1 in InducedPathsFrom(g, 0).lengths
  {
    hide EdgePaths, SuperPath, Summarises, PathState, IsInducedPath;
    InducedPathStart(g, q);
    var i, v := q[0], q[1];
    EdgeState(g, i, v);
    var p := [i, v];
    assert q[..2] == p;
    SuperPathComplete(g, Range(|g|), p, StartPool(g, i), q);
    var nbrs := Ascending(g[i], |g|);
    assert v in nbrs;
    EdgePathsAny(g, StartPool(g, i), nbrs, |q| - 1);
    InducedPathsFromAny(g, 0, |q| - 1);
  }

  /** One edge count: recorded iff some induced path has that many edges, at least one. */
  lemma RecordedIffPath(g: Graph, k: nat)
    requires WellFormed(g)
    ensures k in InducedPathsFrom(g, 0).lengths <==> k >= 1 && HasInducedPathOfLength(g, k)
  {
    hide InducedPathsFrom, EdgePaths, SuperPath, Summarises;
    if k in InducedPathsFrom(g, 0).lengths {
      InducedPathsFromAny(g, 0, k);
      var v :| 0 <= v < |g| && k in EdgePaths(g, StartPool(g, v), Ascending(g[v], |g|)).lengths;
      StartSound(g, v, k);
    }
    if k >= 1 && HasInducedPathOfLength(g, k) {
      var q :| IsInducedPath(g, q) && |q| == k + 1;
      PathRecorded(g, q);
    }
  }

  /**
    getLongestInducedPathLength is exact: numberOfLengths[k] is non-zero iff
    the graph has an induced path with k >= 1 edges, and the value returned
    is the largest such k, or -1 for a graph without edges.
  */
  lemma GetLongestInducedPathLengthCorrect(g: Graph)
    requires WellFormed(g)
    ensures var (length, lengths) := GetLongestInducedPathLength(g);
      && (forall k: nat {:trigger lengths[k]} :: k in lengths <==> k >= 1 && HasInducedPathOfLength(g, k))
      && (length == -1 <==> forall k: nat | k >= 1 :: !HasInducedPathOfLength(g, k))
      && (length != -1 ==> length >= 1 && HasInducedPathOfLength(g, length))
      && (forall k: nat | k >= 1 && HasInducedPathOfLength(g, k) :: k <= length)
  {
    var c := InducedPathsFrom(g, 0);
    forall k: nat ensures k in c.lengths <==> k >= 1 && HasInducedPathOfLength(g, k) {
      RecordedIffPath(g, k);
    }
    if c.lengths != multiset{} {
      assert c.longest in c.lengths;
    }
  }
}
