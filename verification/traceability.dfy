/**
  Hamiltonian paths: containsHamiltonianPathWithEnds runs the cycle search
  from the two-vertex "path" end, start (extended at start, closed at end),
  and the traceability drivers isTraceable and isK1Traceable loop over it.
*/
module Traceability {
  import opened VertexSets
  import opened Graphs
  import opened Seeds
  import opened HamiltonSearch

  /**
    containsHamiltonianPathWithEnds: 0 when an end is excluded; otherwise the
    search from start towards end over the rest of the included vertices,
    as 1/0 without flags and as the number of paths found with them.
  */
  function ContainsHamiltonianPathWithEnds(g: Graph, excluded: set<nat>, start: nat, end: nat,
                                           allCycles: bool, verbose: bool): (r: nat)
    requires start < |g| && end < |g|
    ensures start in excluded || end in excluded ==> r == 0
    ensures !allCycles && !verbose ==> r <= 1
  {
    if start in excluded || end in excluded then 0
    else
      var included := Included(g, excluded);
      var remaining := included - {start, end};
      if !verbose && !allCycles then
        (if CanBeHamiltonian(g, remaining, start, end, |included|, 2) then 1 else 0)
      else CanBeHamiltonianCounting(g, remaining, start, end, |included|, 2, 0, allCycles).count
  }

  /** A search extending start that visits the pool and closes at end spells a start-end Hamiltonian path. */
  lemma CompletionGivesPath(g: Graph, included: set<nat>, start: nat, end: nat, ext: seq<nat>)
    requires WellFormed(g) && included <= Range(|g|)
    requires start in included && end in included && start != end
    requires Completes(g, included - {start, end}, start, end, ext)
    ensures HamiltonianPath(g, included, start, end, [start] + ext + [end])
  {
    var p := [start] + ext + [end];
    var m := |p|;
    assert Extends(g, included - {start, end}, start, ext) && Elems(ext) == included - {start, end};
    assert Adjacent(g, end, End(start, ext));
    BracketDistinct(start, end, included - {start, end}, ext);
    BracketWalk(g, start, end, ext);
    BracketElems(start, end, ext);
    assert Elems(p) == included by {
      assert {start} + (included - {start, end}) + {end} == included;
    }
    hide Completes, Elems, WellFormed, Range, Walk, Distinct;
    ElemsBelow(p, included, |g|);
    assert p[0] == start && p[m - 1] == end;
  }

  lemma ElemsBelow(p: seq<nat>, s: set<nat>, n: nat)
    requires Elems(p) == s && s <= Range(n)
    ensures forall i | 0 <= i < |p| :: p[i] < n
  {
    forall i | 0 <= i < |p| ensures p[i] < n {
      assert p[i] in Elems(p);
    }
  }

  lemma BracketDistinct(start: nat, end: nat, pool: set<nat>, ext: seq<nat>)
    requires start != end && start !in pool && end !in pool
    requires Distinct(ext) && forall i | 0 <= i < |ext| :: ext[i] in pool
    ensures Distinct([start] + ext + [end])
  {
    var p := [start] + ext + [end];
    forall i, j | 0 <= i < j < |p| ensures p[i] != p[j] {
      if 0 < i { assert p[i] == ext[i - 1]; }
      if j < |p| - 1 { assert p[j] == ext[j - 1]; }
    }
  }

  lemma BracketWalk(g: Graph, start: nat, end: nat, ext: seq<nat>)
    requires WellFormed(g) && end < |g|
    requires Walk(g, [start] + ext) && Adjacent(g, end, End(start, ext))
    ensures Walk(g, [start] + ext + [end])
  {
    var w := [start] + ext;
    var p := w + [end];
    assert [start] + ext + [end] == p;
    var m := |p|;
    assert End(start, ext) == w[m - 2];
    assert Adjacent(g, w[m - 2], end);
    forall i | 0 <= i < m - 1 ensures Adjacent(g, p[i], p[i + 1]) {
      if i < m - 2 {
        assert p[i] == w[i] && p[i + 1] == w[i + 1];
      }
    }
  }

  lemma BracketElems(start: nat, end: nat, ext: seq<nat>)
    ensures Elems([start] + ext + [end]) == {start} + Elems(ext) + {end}
  {
    var p := [start] + ext + [end];
    forall x | x in Elems(ext) ensures x in Elems(p) {
      var k :| 0 <= k < |ext| && ext[k] == x;
      assert p[k + 1] == x;
    }
  }

  /** Conversely, the inner vertices of a start-end Hamiltonian path are a completion of the search. */
  lemma PathGivesCompletion(g: Graph, included: set<nat>, start: nat, end: nat, p: seq<nat>)
    requires WellFormed(g)
    requires HamiltonianPath(g, included, start, end, p)
    ensures Completes(g, included - {start, end}, start, end, p[1..|p| - 1])
  {
    var m := |p|;
    var ext := p[1..m - 1];
    assert [start] + ext == p[..m - 1];
    assert forall k | 0 <= k < |ext| :: ext[k] == p[k + 1];
    assert Extends(g, included - {start, end}, start, ext) by {
      forall k | 0 <= k < |ext| ensures ext[k] in included - {start, end} {
        assert ext[k] == p[k + 1];
        assert p[k + 1] != p[0] && p[k + 1] != p[m - 1];
      }
      assert Walk(g, [start] + ext) by {
        forall i | 0 <= i < |ext| ensures Adjacent(g, ([start] + ext)[i], ([start] + ext)[i + 1]) {
          assert ([start] + ext)[i] == p[i] && ([start] + ext)[i + 1] == p[i + 1];
        }
      }
    }
    assert Elems(ext) == included - {start, end} by {
      forall x | x in included - {start, end} ensures x in Elems(ext) {
        var k :| 0 <= k < m && p[k] == x;
        assert 0 < k < m - 1;
        assert ext[k - 1] == x;
      }
    }
    assert End(start, ext) == p[m - 2];
    assert Adjacent(g, p[m - 2], p[m - 1]);
    assert p[m - 2] < |g| && end < |g|;
  }

  /** Hamiltonian start-end paths are exactly the completions of the search from start closing at end. */
  lemma PathsAreCompletions(g: Graph, included: set<nat>, start: nat, end: nat)
    requires WellFormed(g) && included <= Range(|g|)
    requires start in included && end in included && start != end
    ensures HasHamiltonianPath(g, included, start, end) <==> exists ext :: Completes(g, included - {start, end}, start, end, ext)
  {
    if HasHamiltonianPath(g, included, start, end) {
      var p :| HamiltonianPath(g, included, start, end, p);
      PathGivesCompletion(g, included, start, end, p);
    }
    if exists ext :: Completes(g, included - {start, end}, start, end, ext) {
      var ext :| Completes(g, included - {start, end}, start, end, ext);
      CompletionGivesPath(g, included, start, end, ext);
    }
  }

  /**
    With distinct ends, containsHamiltonianPathWithEnds is non-zero exactly
    when the included subgraph has a Hamiltonian path between them, in every
    mode; with allCycles it is the number of such paths.
  */
  lemma ContainsHamiltonianPathWithEndsCorrect(g: Graph, excluded: set<nat>, start: nat, end: nat, allCycles: bool, verbose: bool)
    requires WellFormed(g) && start < |g| && end < |g| && start != end
    ensures ContainsHamiltonianPathWithEnds(g, excluded, start, end, allCycles, verbose) != 0
      <==> HasHamiltonianPath(g, Included(g, excluded), start, end)
    ensures allCycles && start !in excluded && end !in excluded ==>
      ContainsHamiltonianPathWithEnds(g, excluded, start, end, allCycles, verbose)
        == NumberOfCompletions(g, Included(g, excluded) - {start, end}, start, end)
  {
    var included := Included(g, excluded);
    if start in excluded || end in excluded {
      forall p | HamiltonianPath(g, included, start, end, p) ensures false {
      }
    } else {
      var remaining := included - {start, end};
      assert |remaining| == |included| - 2 by {
        assert {start, end} <= included;
        assert |{start, end}| == 2;
        assert included == remaining + {start, end};
      }
      assert SearchState(g, remaining, start, end, |included|, 2);
      PathsAreCompletions(g, included, start, end);
      CanBeHamiltonianCorrect(g, remaining, start, end, |included|, 2);
      if !allCycles {
        FirstCycleCounting(g, remaining, start, end, |included|, 2);
      } else {
        AllCyclesCounting(g, remaining, start, end, |included|, 2, 0);
        CompletionsPositive(g, remaining, start, end);
      }
    }
  }

  /** Pairs of vertices i < j of the graph. */
  predicate EndPairs(g: Graph, pairs: seq<(nat, nat)>)
  {
    forall k | 0 <= k < |pairs| :: pairs[k].0 < pairs[k].1 < |g|
  }

  /**
    isTraceable's double loop from the given pairs on, with the running total
    of paths: without allCycles the first pair with a path ends it.
  */
  function TracePairs(g: Graph, excluded: set<nat>, pairs: seq<(nat, nat)>, total: nat, allCycles: bool, verbose: bool): bool
    requires EndPairs(g, pairs)
  {
    if pairs == [] then total != 0
    else
      var p := pairs[0];
      var found := ContainsHamiltonianPathWithEnds(g, excluded, p.0, p.1, allCycles, verbose);
      if found != 0 && !allCycles then true
      else TracePairs(g, excluded, pairs[1..], total + found, allCycles, verbose)
  }

  /** The pairs i < j over all vertices, in the order of the two nested loops. */
  function AllEndPairs(g: Graph): (ps: seq<(nat, nat)>)
    ensures EndPairs(g, ps)
    ensures forall p {:trigger p in ps} :: p in ps <==> p.0 < p.1 < |g|
  {
    var ps := OrderedPairs(Ascending(Range(|g|), |g|));
    assert forall k | 0 <= k < |ps| :: ps[k] in ps;
    ps
  }

  /** isTraceable. */
  function IsTraceable(g: Graph, excluded: set<nat>, allCycles: bool, verbose: bool): bool
  {
    TracePairs(g, excluded, AllEndPairs(g), 0, allCycles, verbose)
  }

  /** The included subgraph has a Hamiltonian path (between two distinct vertices). */
  ghost predicate Traceable(g: Graph, included: set<nat>)
  {
    exists i: nat, j: nat :: i < j < |g| && HasHamiltonianPath(g, included, i, j)
  }

  lemma {:induction false} TracePairsCorrect(g: Graph, excluded: set<nat>, pairs: seq<(nat, nat)>, total: nat, allCycles: bool, verbose: bool)
    requires WellFormed(g) && EndPairs(g, pairs)
    ensures TracePairs(g, excluded, pairs, total, allCycles, verbose)
      <==> total != 0 || exists p | p in pairs :: HasHamiltonianPath(g, Included(g, excluded), p.0, p.1)
  {
    hide ContainsHamiltonianPathWithEnds, TracePairs, HasHamiltonianPath, WellFormed;
    if pairs != [] {
      var p := pairs[0];
      ContainsHamiltonianPathWithEndsCorrect(g, excluded, p.0, p.1, allCycles, verbose);
      var found := ContainsHamiltonianPathWithEnds(g, excluded, p.0, p.1, allCycles, verbose);
      TracePairsStep(g, excluded, pairs, total, allCycles, verbose);
      TracePairsCorrect(g, excluded, pairs[1..], total + found, allCycles, verbose);
      assert forall q | q in pairs :: q == p || q in pairs[1..];
    } else {
      TracePairsDone(g, excluded, total, allCycles, verbose);
    }
  }

  /** One pair of the double loop: stop on a path unless counting, otherwise add to the total. */
  lemma TracePairsStep(g: Graph, excluded: set<nat>, pairs: seq<(nat, nat)>, total: nat, allCycles: bool, verbose: bool)
    requires EndPairs(g, pairs) && pairs != []
    ensures var found := ContainsHamiltonianPathWithEnds(g, excluded, pairs[0].0, pairs[0].1, allCycles, verbose);
      TracePairs(g, excluded, pairs, total, allCycles, verbose)
      <==> (found != 0 && !allCycles) || TracePairs(g, excluded, pairs[1..], total + found, allCycles, verbose)
  {
    hide ContainsHamiltonianPathWithEnds;
  }

  /** After the last pair the answer is whether any path was counted. */
  lemma TracePairsDone(g: Graph, excluded: set<nat>, total: nat, allCycles: bool, verbose: bool)
    ensures TracePairs(g, excluded, [], total, allCycles, verbose) <==> total != 0
  {
  }

  /** isTraceable answers whether the included subgraph has a Hamiltonian path, whatever the flags. */
  lemma IsTraceableCorrect(g: Graph, excluded: set<nat>, allCycles: bool, verbose: bool)
    requires WellFormed(g)
    ensures IsTraceable(g, excluded, allCycles, verbose) <==> Traceable(g, Included(g, excluded))
  {
    var included := Included(g, excluded);
    TracePairsCorrect(g, excluded, AllEndPairs(g), 0, allCycles, verbose);
    if Traceable(g, included) {
      var i: nat, j: nat :| i < j < |g| && HasHamiltonianPath(g, included, i, j);
      assert (i, j) in AllEndPairs(g);
    }
  }

  /** The non-verbose loop of isK1Traceable: stop at the first non-traceable G - i. */
  function AllVertexDeletedTraceable(g: Graph, i: nat): bool
    decreases |g| - i
  {
    if i >= |g| then true
    else if !IsTraceable(g, {i}, false, false) then false
    else AllVertexDeletedTraceable(g, i + 1)
  }

  /** The verbose loop of isK1Traceable: the vertices from i on whose deletion leaves a non-traceable graph. */
  function NonTraceableDeletions(g: Graph, i: nat, allCycles: bool, vertexToCheck: int): set<nat>
    decreases |g| - i
  {
    if i >= |g| then {}
    else
      var verbose := vertexToCheck == i;
      var here: set<nat> := if !IsTraceable(g, {i}, verbose && allCycles, verbose) then {i} else {};
      here + NonTraceableDeletions(g, i + 1, allCycles, vertexToCheck)
  }

  /** isK1Traceable (argument order of the definition: allCycles before verbose). */
  function IsK1Traceable(g: Graph, allCycles: bool, verbose: bool, vertexToCheck: int): bool
  {
    if !verbose then AllVertexDeletedTraceable(g, 0)
    else NonTraceableDeletions(g, 0, allCycles, vertexToCheck) == {}
  }

  lemma {:induction false} AllVertexDeletedTraceableCorrect(g: Graph, i: nat)
    requires WellFormed(g)
    ensures AllVertexDeletedTraceable(g, i) <==> forall v | i <= v < |g| :: Traceable(g, Included(g, {v}))
    decreases |g| - i
  {
    hide IsTraceable;
    if i < |g| {
      IsTraceableCorrect(g, {i}, false, false);
      AllVertexDeletedTraceableCorrect(g, i + 1);
    }
  }

  lemma {:induction false} NonTraceableDeletionsCorrect(g: Graph, i: nat, allCycles: bool, vertexToCheck: int)
    requires WellFormed(g)
    ensures forall v: nat :: (v in NonTraceableDeletions(g, i, allCycles, vertexToCheck)
      <==> i <= v < |g| && !Traceable(g, Included(g, {v})))
    decreases |g| - i
  {
    hide IsTraceable, NonTraceableDeletions, Traceable, WellFormed;
    if i < |g| {
      var verbose := vertexToCheck == i;
      IsTraceableCorrect(g, {i}, verbose && allCycles, verbose);
      NonTraceableDeletionsCorrect(g, i + 1, allCycles, vertexToCheck);
      forall v: nat ensures v in NonTraceableDeletions(g, i, allCycles, vertexToCheck)
        <==> i <= v < |g| && !Traceable(g, Included(g, {v})) {
        NonTraceableDeletionsStep(g, i, allCycles, vertexToCheck, v);
      }
    } else {
      NonTraceableDeletionsDone(g, i, allCycles, vertexToCheck);
    }
  }

  /** One step of the verbose loop: vertex i is listed or not, the rest come from i + 1 on. */
  lemma NonTraceableDeletionsStep(g: Graph, i: nat, allCycles: bool, vertexToCheck: int, v: nat)
    requires i < |g|
    ensures var verbose := vertexToCheck == i;
      v in NonTraceableDeletions(g, i, allCycles, vertexToCheck)
      <==> (v == i && !IsTraceable(g, {i}, verbose && allCycles, verbose))
           || v in NonTraceableDeletions(g, i + 1, allCycles, vertexToCheck)
  {
    hide IsTraceable;
  }

  /** Past the last vertex the loop lists nothing. */
  lemma NonTraceableDeletionsDone(g: Graph, i: nat, allCycles: bool, vertexToCheck: int)
    requires |g| <= i
    ensures NonTraceableDeletions(g, i, allCycles, vertexToCheck) == {}
  {
  }

  /** isK1Traceable: every vertex-deleted subgraph is traceable; the flags only change what is reported. */
  lemma IsK1TraceableCorrect(g: Graph, allCycles: bool, verbose: bool, vertexToCheck: int)
    requires WellFormed(g)
    ensures IsK1Traceable(g, allCycles, verbose, vertexToCheck) <==> forall v | 0 <= v < |g| :: Traceable(g, Included(g, {v}))
  {
    AllVertexDeletedTraceableCorrect(g, 0);
    NonTraceableDeletionsCorrect(g, 0, allCycles, vertexToCheck);
    if verbose && NonTraceableDeletions(g, 0, allCycles, vertexToCheck) != {} {
      var v :| v in NonTraceableDeletions(g, 0, allCycles, vertexToCheck);
    }
  }

  // ---------------------------------------------------------------------
  // Traceable in the two-end sense of the pair loop.

  /**
    The pair loop of isTraceable only tries ends i < j, so a path needs two
    distinct ends: a subgraph of at most one vertex is not traceable.
  */
  lemma SmallSubgraphNotTraceable(g: Graph, included: set<nat>)
    requires |included| <= 1
    ensures !Traceable(g, included)
  {
    if Traceable(g, included) {
      var i: nat, j: nat :| i < j < |g| && HasHamiltonianPath(g, included, i, j);
      var p :| HamiltonianPath(g, included, i, j, p);
      assert p[0] in Elems(p) && p[|p| - 1] in Elems(p);
      SubsetCard({i, j}, included);
      assert false;
    }
  }

  /** isTraceable rejects a graph with at most one included vertex, whatever the flags. */
  lemma TinyGraphNotTraceable(g: Graph, excluded: set<nat>, allCycles: bool, verbose: bool)
    requires WellFormed(g) && |Included(g, excluded)| <= 1
    ensures !IsTraceable(g, excluded, allCycles, verbose)
  {
    IsTraceableCorrect(g, excluded, allCycles, verbose);
    SmallSubgraphNotTraceable(g, Included(g, excluded));
  }

  /**
    A graph of one or two vertices is not K1-traceable: deleting a vertex
    leaves at most one, which the pair loop cannot use as both ends.
  */
  lemma TinyGraphNotK1Traceable(g: Graph, allCycles: bool, verbose: bool, vertexToCheck: int)
    requires WellFormed(g) && 1 <= |g| <= 2
    ensures !IsK1Traceable(g, allCycles, verbose, vertexToCheck)
  {
    IsK1TraceableCorrect(g, allCycles, verbose, vertexToCheck);
    ComplementSize({0}, |g|);
    SmallSubgraphNotTraceable(g, Included(g, {0}));
  }
}
