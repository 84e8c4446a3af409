/**
  containsDisjointSpanningPathsWithEnds: path 1 is grown from its start
  vertex by depth-first search, never through the ends or the required
  vertices of path 2; whenever it can close at its other end and holds its
  required vertices, a Hamiltonian-path search for path 2 runs over every
  included vertex path 1 left over.
*/
module DisjointPaths {
  import opened VertexSets
  import opened Graphs
  import opened HamiltonSearch
  import opened Traceability

  /**
    The arguments isPartOfDisjointSpanningPaths passes down unchanged:
    close1 is path 1's closing end (firstElemOfPath), the rest name the ends
    and required vertices of the two paths.
  */
  datatype Demand = Demand(excluded: set<nat>, close1: nat, required1: set<nat>,
                           start2: nat, end2: nat, required2: set<nat>)

  predicate ValidDemand(g: Graph, d: Demand)
  {
    d.close1 < |g| && d.start2 < |g| && d.end2 < |g|
  }

  /** The vertices path 1 may still grow into. */
  function GrowPool(g: Graph, d: Demand, path: set<nat>): set<nat>
  {
    Complement(d.excluded + path + d.required2 + {d.start2, d.end2}, |g|)
  }

  /** The vertices path 2 must visit between its ends: every included vertex off path 1. */
  function SecondPool(g: Graph, d: Demand, path: set<nat>): set<nat>
  {
    Complement(path + d.excluded, |g|) - {d.start2, d.end2}
  }

  /** The neighbours of last that path 1 may grow into, in scan order. */
  function GrowCandidates(g: Graph, d: Demand, path: set<nat>, last: nat): (cs: seq<nat>)
    requires last < |g|
    ensures forall x {:trigger x in cs} :: x in cs <==> x in g[last] && x in GrowPool(g, d, path)
    ensures forall i | 0 <= i < |cs| :: cs[i] < |g| && cs[i] !in path
  {
    Ascending(g[last] - (d.excluded + (path + (d.required2 + {d.start2, d.end2}))), |g|)
  }

  /**
    The search for path 2 from end2 (extended) to start2 (closing), over the
    pool path 1 leaves, with its own counter started at zero.
  */
  function SecondPath(g: Graph, d: Demand, path: set<nat>, allCycles: bool, verbose: bool): (t: Tally)
    requires ValidDemand(g, d)
    ensures !verbose && !allCycles ==> t.count == 0
  {
    var remaining := SecondPool(g, d, path);
    if !verbose && !allCycles then Tally(CanBeHamiltonian(g, remaining, d.end2, d.start2, |remaining| + 2, 2), 0)
    else CanBeHamiltonianCounting(g, remaining, d.end2, d.start2, |remaining| + 2, 2, 0, allCycles)
  }

  lemma AddShrinksRest(n: nat, path: set<nat>, x: nat)
    requires x < n && x !in path
    ensures |Range(n) - (path + {x})| < |Range(n) - path|
  {
    assert Range(n) - (path + {x}) == (Range(n) - path) - {x};
  }

  /**
    isPartOfDisjointSpanningPaths: path 1 holds path and ends at last; count
    is the shared counter of spanning-path pairs.
  */
  function PartOfDisjointSpanningPaths(g: Graph, d: Demand, path: set<nat>, last: nat, count: nat,
                                       allCycles: bool, verbose: bool): Tally
    requires ValidDemand(g, d) && last < |g| && path <= Range(|g|)
    decreases |Range(|g|) - path|, 1, 0
  {
    var closes := d.close1 in g[last] && d.required1 <= path;
    var t := if closes then SecondPath(g, d, path, allCycles, verbose) else Tally(false, 0);
    if t.found && !allCycles then Tally(true, count + t.count)
    else
      GrowPath(g, d, path, if t.found then count + t.count else count, allCycles, verbose,
               GrowCandidates(g, d, path, last))
  }

  /** The forEach loop of isPartOfDisjointSpanningPaths over the neighbours path 1 may grow into. */
  function GrowPath(g: Graph, d: Demand, path: set<nat>, count: nat, allCycles: bool, verbose: bool,
                    candidates: seq<nat>): Tally
    requires ValidDemand(g, d) && path <= Range(|g|)
    requires forall i | 0 <= i < |candidates| :: candidates[i] < |g| && candidates[i] !in path
    decreases |Range(|g|) - path|, 0, |candidates|
  {
    if candidates == [] then Tally(count != 0, count)
    else
      var x := candidates[0];
      AddShrinksRest(|g|, path, x);
      var t := PartOfDisjointSpanningPaths(g, d, path + {x}, x, count, allCycles, verbose);
      if t.found && !allCycles then Tally(true, t.count)
      else GrowPath(g, d, path, t.count, allCycles, verbose, candidates[1..])
  }

  /** containsDisjointSpanningPathsWithEnds: path 1 starts as {start1, end1} and grows from start1. */
  function ContainsDisjointSpanningPathsWithEnds(g: Graph, excluded: set<nat>, start1: nat, end1: nat, required1: set<nat>,
                                                 start2: nat, end2: nat, required2: set<nat>,
                                                 allCycles: bool, verbose: bool): bool
    requires start1 < |g| && end1 < |g| && start2 < |g| && end2 < |g|
  {
    var d := Demand(excluded, end1, required1, start2, end2, required2);
    PartOfDisjointSpanningPaths(g, d, {start1, end1}, start1, 0, allCycles, verbose).found
  }

  // ---------------------------------------------------------------------
  // What the search looks for.

  /**
    Path 1 (path, then ext1 from last) stays in the grow pool, closes at
    close1 and holds its required vertices; ext2 is a Hamiltonian completion
    of path 2 over what path 1 leaves.
  */
  ghost predicate CompletesPair(g: Graph, d: Demand, path: set<nat>, last: nat, ext1: seq<nat>, ext2: seq<nat>)
  {
    && Extends(g, GrowPool(g, d, path), last, ext1)
    && Closes(g, d.close1, last, ext1)
    && d.required1 <= path + Elems(ext1)
    && Completes(g, SecondPool(g, d, path + Elems(ext1)), d.end2, d.start2, ext2)
  }

  ghost predicate CanComplete(g: Graph, d: Demand, path: set<nat>, last: nat)
  {
    exists ext1, ext2 :: CompletesPair(g, d, path, last, ext1, ext2)
  }

  /** Path 2 can be found over what path already leaves. */
  ghost predicate SecondCompletes(g: Graph, d: Demand, path: set<nat>)
  {
    exists ext2 :: Completes(g, SecondPool(g, d, path), d.end2, d.start2, ext2)
  }

  /** Closing here, or growing by some candidate neighbour and completing from there. */
  lemma CanCompleteUnfold(g: Graph, d: Demand, path: set<nat>, last: nat)
    requires WellFormed(g) && ValidDemand(g, d) && last < |g|
    ensures CanComplete(g, d, path, last) <==>
      (d.close1 in g[last] && d.required1 <= path && SecondCompletes(g, d, path))
      || exists x | x in g[last] && x in GrowPool(g, d, path) :: CanComplete(g, d, path + {x}, x)
  {
    if CanComplete(g, d, path, last) {
      var ext1, ext2 :| CompletesPair(g, d, path, last, ext1, ext2);
      CompletionSplits(g, d, path, last, ext1, ext2);
    }
    if d.close1 in g[last] && d.required1 <= path && SecondCompletes(g, d, path) {
      ClosingHere(g, d, path, last);
    }
    if exists x | x in g[last] && x in GrowPool(g, d, path) :: CanComplete(g, d, path + {x}, x) {
      var x :| x in g[last] && x in GrowPool(g, d, path) && CanComplete(g, d, path + {x}, x);
      GrowingCompletes(g, d, path, last, x);
    }
  }

  /** A completion either closes at once or begins with a neighbour path 1 may grow into. */
  lemma CompletionSplits(g: Graph, d: Demand, path: set<nat>, last: nat, ext1: seq<nat>, ext2: seq<nat>)
    requires WellFormed(g) && ValidDemand(g, d) && last < |g|
    requires CompletesPair(g, d, path, last, ext1, ext2)
    ensures (d.close1 in g[last] && d.required1 <= path && SecondCompletes(g, d, path))
      || exists x | x in g[last] && x in GrowPool(g, d, path) :: CanComplete(g, d, path + {x}, x)
  {
    hide WellFormed, Completes, Extends;
    if ext1 == [] {
      assert path + Elems(ext1) == path;
      AdjacentSymmetric(g, d.close1, last);
    } else {
      FirstStepOfCompletion(g, d, path, last, ext1, ext2);
      assert CanComplete(g, d, path + {ext1[0]}, ext1[0]);
    }
  }

  /** The first vertex of a non-empty ext1 is a candidate, and the rest completes from it. */
  lemma FirstStepOfCompletion(g: Graph, d: Demand, path: set<nat>, last: nat, ext1: seq<nat>, ext2: seq<nat>)
    requires last < |g| && CompletesPair(g, d, path, last, ext1, ext2) && ext1 != []
    ensures ext1[0] in g[last] && ext1[0] in GrowPool(g, d, path)
    ensures CompletesPair(g, d, path + {ext1[0]}, ext1[0], ext1[1..], ext2)
  {
    hide Completes;
    var x := ext1[0];
    var rest := ext1[1..];
    SplitExtends(g, GrowPool(g, d, path), last, ext1);
    assert GrowPool(g, d, path + {x}) == GrowPool(g, d, path) - {x};
    assert path + {x} + Elems(rest) == path + Elems(ext1);
  }

  lemma ClosingHere(g: Graph, d: Demand, path: set<nat>, last: nat)
    requires WellFormed(g) && ValidDemand(g, d) && last < |g|
    requires d.close1 in g[last] && d.required1 <= path && SecondCompletes(g, d, path)
    ensures CanComplete(g, d, path, last)
  {
    var ext2 :| Completes(g, SecondPool(g, d, path), d.end2, d.start2, ext2);
    var e: seq<nat> := [];
    assert path + Elems(e) == path;
    assert Walk(g, [last] + e);
    assert CompletesPair(g, d, path, last, e, ext2);
  }

  lemma GrowingCompletes(g: Graph, d: Demand, path: set<nat>, last: nat, x: nat)
    requires WellFormed(g) && ValidDemand(g, d) && last < |g|
    requires x in g[last] && x in GrowPool(g, d, path) && CanComplete(g, d, path + {x}, x)
    ensures CanComplete(g, d, path, last)
  {
    var rest, ext2 :| CompletesPair(g, d, path + {x}, x, rest, ext2);
    hide Completes, WellFormed;
    assert GrowPool(g, d, path + {x}) == GrowPool(g, d, path) - {x};
    ConsExtends(g, GrowPool(g, d, path), last, x, rest);
    assert path + {x} + Elems(rest) == path + Elems([x] + rest);
    assert CompletesPair(g, d, path, last, [x] + rest, ext2);
  }

  /** The path-2 search answers whether path 2 can be completed, and counts only when it succeeds. */
  lemma SecondPathCorrect(g: Graph, d: Demand, path: set<nat>, allCycles: bool, verbose: bool)
    requires WellFormed(g) && ValidDemand(g, d) && d.start2 != d.end2
    ensures var t := SecondPath(g, d, path, allCycles, verbose);
      && (t.found <==> SecondCompletes(g, d, path))
      && (!t.found ==> t.count == 0)
      && ((verbose || allCycles) ==> (t.found <==> t.count > 0))
  {
    var remaining := SecondPool(g, d, path);
    assert SearchState(g, remaining, d.end2, d.start2, |remaining| + 2, 2);
    CanBeHamiltonianCorrect(g, remaining, d.end2, d.start2, |remaining| + 2, 2);
    if !allCycles {
      FirstCycleCounting(g, remaining, d.end2, d.start2, |remaining| + 2, 2);
    } else {
      AllCyclesCounting(g, remaining, d.end2, d.start2, |remaining| + 2, 2, 0);
      CompletionsPositive(g, remaining, d.end2, d.start2);
    }
  }

  /** Some candidate, appended to path 1, leads to a completion. */
  ghost predicate SomeChild(g: Graph, d: Demand, path: set<nat>, candidates: seq<nat>)
  {
    candidates != [] && (CanComplete(g, d, path + {candidates[0]}, candidates[0]) || SomeChild(g, d, path, candidates[1..]))
  }

  lemma {:induction false} SomeChildAny(g: Graph, d: Demand, path: set<nat>, candidates: seq<nat>)
    ensures SomeChild(g, d, path, candidates) <==> exists x | x in candidates :: CanComplete(g, d, path + {x}, x)
  {
    hide CanComplete;
    if candidates != [] {
      SomeChildAny(g, d, path, candidates[1..]);
      assert forall x | x in candidates :: x == candidates[0] || x in candidates[1..];
    }
  }

  /** CanCompleteUnfold with the candidate scan in place of the neighbour set. */
  lemma UnfoldByCandidates(g: Graph, d: Demand, path: set<nat>, last: nat)
    requires WellFormed(g) && ValidDemand(g, d) && last < |g|
    ensures CanComplete(g, d, path, last) <==>
      (d.close1 in g[last] && d.required1 <= path && SecondCompletes(g, d, path))
      || SomeChild(g, d, path, GrowCandidates(g, d, path, last))
  {
    var candidates := GrowCandidates(g, d, path, last);
    CanCompleteUnfold(g, d, path, last);
    SomeChildAny(g, d, path, candidates);
    hide CanComplete, SecondCompletes, SomeChild, WellFormed;
    assert (exists x | x in candidates :: CanComplete(g, d, path + {x}, x))
      <==> exists x | x in g[last] && x in GrowPool(g, d, path) :: CanComplete(g, d, path + {x}, x);
  }

  /**
    The search from path/last reports a pair exactly when one can be
    completed from there (or the counter was already non-zero); with
    allCycles the counter grows exactly when a pair exists.
  */
  lemma {:induction false} PartOfDisjointSpanningPathsCorrect(g: Graph, d: Demand, path: set<nat>, last: nat, count: nat,
                                                              allCycles: bool, verbose: bool)
    requires WellFormed(g) && ValidDemand(g, d) && d.start2 != d.end2
    requires last < |g| && path <= Range(|g|)
    requires !allCycles ==> count == 0
    ensures var r := PartOfDisjointSpanningPaths(g, d, path, last, count, allCycles, verbose);
      && (r.found <==> count != 0 || CanComplete(g, d, path, last))
      && (!r.found ==> r.count == count)
      && (allCycles ==> r.count >= count && (r.count > count <==> CanComplete(g, d, path, last)))
    decreases |Range(|g|) - path|, 1, 0
  {
    hide CanComplete, SecondCompletes, GrowPath, SecondPath, WellFormed, SomeChild;
    var candidates := GrowCandidates(g, d, path, last);
    UnfoldByCandidates(g, d, path, last);
    SecondPathCorrect(g, d, path, allCycles, verbose);
    var closes := d.close1 in g[last] && d.required1 <= path;
    var t := if closes then SecondPath(g, d, path, allCycles, verbose) else Tally(false, 0);
    var next := if t.found then count + t.count else count;
    if !(t.found && !allCycles) {
      GrowPathCorrect(g, d, path, next, allCycles, verbose, candidates);
    }
  }

  lemma {:induction false} GrowPathCorrect(g: Graph, d: Demand, path: set<nat>, count: nat, allCycles: bool, verbose: bool,
                                           candidates: seq<nat>)
    requires WellFormed(g) && ValidDemand(g, d) && d.start2 != d.end2 && path <= Range(|g|)
    requires forall i | 0 <= i < |candidates| :: candidates[i] < |g| && candidates[i] !in path
    requires !allCycles ==> count == 0
    ensures var r := GrowPath(g, d, path, count, allCycles, verbose, candidates);
      && (r.found <==> count != 0 || SomeChild(g, d, path, candidates))
      && (!r.found ==> r.count == count)
      && (allCycles ==> r.count >= count && (r.count > count <==> SomeChild(g, d, path, candidates)))
    decreases |Range(|g|) - path|, 0, |candidates|
  {
    hide CanComplete, PartOfDisjointSpanningPaths, WellFormed;
    if candidates != [] {
      var x := candidates[0];
      AddShrinksRest(|g|, path, x);
      PartOfDisjointSpanningPathsCorrect(g, d, path + {x}, x, count, allCycles, verbose);
      var t := PartOfDisjointSpanningPaths(g, d, path + {x}, x, count, allCycles, verbose);
      if !(t.found && !allCycles) {
        GrowPathCorrect(g, d, path, t.count, allCycles, verbose, candidates[1..]);
      }
    }
  }

  /**
    containsDisjointSpanningPathsWithEnds reports a pair exactly when path 1
    can be grown from start1 and closed at end1 so that path 2 completes
    over what it leaves, whatever the flags.
  */
  lemma ContainsDisjointSearchCorrect(g: Graph, excluded: set<nat>, start1: nat, end1: nat, required1: set<nat>,
                                      start2: nat, end2: nat, required2: set<nat>, allCycles: bool, verbose: bool)
    requires WellFormed(g) && start1 < |g| && end1 < |g| && start2 < |g| && end2 < |g| && start2 != end2
    ensures ContainsDisjointSpanningPathsWithEnds(g, excluded, start1, end1, required1, start2, end2, required2, allCycles, verbose)
      <==> CanComplete(g, Demand(excluded, end1, required1, start2, end2, required2), {start1, end1}, start1)
  {
    var d := Demand(excluded, end1, required1, start2, end2, required2);
    PartOfDisjointSpanningPathsCorrect(g, d, {start1, end1}, start1, 0, allCycles, verbose);
  }

  // ---------------------------------------------------------------------
  // The same as a statement about two paths.

  /**
    p1 runs from start1 to end1 and p2 between end2 and start2; they share no
    vertex, together cover the included vertices, and hold their required ones.
  */
  predicate DisjointSpanningPair(g: Graph, included: set<nat>, start1: nat, end1: nat, required1: set<nat>,
                                 start2: nat, end2: nat, required2: set<nat>, p1: seq<nat>, p2: seq<nat>)
  {
    && HamiltonianPath(g, Elems(p1), start1, end1, p1)
    && HamiltonianPath(g, Elems(p2), end2, start2, p2)
    && Elems(p1) !! Elems(p2)
    && Elems(p1) + Elems(p2) == included
    && required1 <= Elems(p1) && required2 <= Elems(p2)
  }

  ghost predicate HasDisjointSpanningPaths(g: Graph, included: set<nat>, start1: nat, end1: nat, required1: set<nat>,
                                           start2: nat, end2: nat, required2: set<nat>)
  {
    exists p1, p2 :: DisjointSpanningPair(g, included, start1, end1, required1, start2, end2, required2, p1, p2)
  }

  /** The inputs for which the search answers the two-path question: four distinct included ends, path 2's required vertices included and off path 1's ends. */
  predicate SaneEnds(g: Graph, excluded: set<nat>, start1: nat, end1: nat, start2: nat, end2: nat, required2: set<nat>)
  {
    && start1 < |g| && end1 < |g| && start2 < |g| && end2 < |g|
    && start1 !in excluded && end1 !in excluded && start2 !in excluded && end2 !in excluded
    && start1 != end1 && start2 != end2
    && start1 != start2 && start1 != end2 && end1 != start2 && end1 != end2
    && required2 <= Included(g, excluded) && start1 !in required2 && end1 !in required2
  }

  lemma ExtendsOwnElems(g: Graph, pool: set<nat>, last: nat, ext: seq<nat>)
    requires Extends(g, pool, last, ext)
    ensures Extends(g, Elems(ext), last, ext)
    ensures Elems(ext) <= pool
  {
    assert forall i | 0 <= i < |ext| :: ext[i] in Elems(ext);
  }

  /** A completion of the search spells two disjoint spanning paths. */
  lemma CompletionGivesPaths(g: Graph, excluded: set<nat>, start1: nat, end1: nat, required1: set<nat>,
                             start2: nat, end2: nat, required2: set<nat>, ext1: seq<nat>, ext2: seq<nat>)
    requires WellFormed(g) && SaneEnds(g, excluded, start1, end1, start2, end2, required2)
    requires CompletesPair(g, Demand(excluded, end1, required1, start2, end2, required2), {start1, end1}, start1, ext1, ext2)
    ensures DisjointSpanningPair(g, Included(g, excluded), start1, end1, required1, start2, end2, required2,
                                 [start1] + ext1 + [end1], [end2] + ext2 + [start2])
  {
    hide WellFormed, Completes, Extends, HamiltonianPath, Closes;
    var d := Demand(excluded, end1, required1, start2, end2, required2);
    var pool := GrowPool(g, d, {start1, end1});
    var i1 := {start1, end1} + Elems(ext1);
    var rem := SecondPool(g, d, i1);
    var i2 := rem + {end2, start2};
    FirstPathOfCompletion(g, pool, start1, end1, ext1);
    assert i2 - {end2, start2} == rem;
    CompletionGivesPath(g, i2, end2, start2, ext2);
    HamiltonianPathElems(g, i1, start1, end1, [start1] + ext1 + [end1]);
    HamiltonianPathElems(g, i2, end2, start2, [end2] + ext2 + [start2]);
    assert Elems(ext1) <= pool;
    assert i1 !! i2;
    assert i1 + i2 == Included(g, excluded);
  }

  /** Path 1 of a completion: start1, then ext1, then end1. */
  lemma FirstPathOfCompletion(g: Graph, pool: set<nat>, start1: nat, end1: nat, ext1: seq<nat>)
    requires WellFormed(g) && start1 < |g| && end1 < |g| && start1 != end1
    requires start1 !in pool && end1 !in pool && pool <= Range(|g|)
    requires Extends(g, pool, start1, ext1) && Closes(g, end1, start1, ext1)
    ensures HamiltonianPath(g, {start1, end1} + Elems(ext1), start1, end1, [start1] + ext1 + [end1])
    ensures Elems(ext1) <= pool
  {
    var i1 := {start1, end1} + Elems(ext1);
    ExtendsOwnElems(g, pool, start1, ext1);
    assert i1 - {start1, end1} == Elems(ext1);
    CompletionGivesPath(g, i1, start1, end1, ext1);
  }

  /** Two disjoint spanning paths give a completion of the search. */
  lemma PathsGiveCompletion(g: Graph, excluded: set<nat>, start1: nat, end1: nat, required1: set<nat>,
                            start2: nat, end2: nat, required2: set<nat>, p1: seq<nat>, p2: seq<nat>)
    requires WellFormed(g) && SaneEnds(g, excluded, start1, end1, start2, end2, required2)
    requires DisjointSpanningPair(g, Included(g, excluded), start1, end1, required1, start2, end2, required2, p1, p2)
    ensures CanComplete(g, Demand(excluded, end1, required1, start2, end2, required2), {start1, end1}, start1)
  {
    var d := Demand(excluded, end1, required1, start2, end2, required2);
    var ext1 := p1[1..|p1| - 1];
    var ext2 := p2[1..|p2| - 1];
    PathGivesCompletion(g, Elems(p1), start1, end1, p1);
    PathGivesCompletion(g, Elems(p2), end2, start2, p2);
    assert p2[0] in Elems(p2) && p2[|p2| - 1] in Elems(p2);
    assert p1[0] in Elems(p1) && p1[|p1| - 1] in Elems(p1);
    assert Elems(p1) - {start1, end1} <= GrowPool(g, d, {start1, end1});
    ExtendsWider(g, Elems(p1) - {start1, end1}, GrowPool(g, d, {start1, end1}), start1, ext1);
    assert {start1, end1} + Elems(ext1) == Elems(p1);
    assert SecondPool(g, d, Elems(p1)) == Elems(p2) - {end2, start2};
    assert CompletesPair(g, d, {start1, end1}, start1, ext1, ext2);
  }

  /**
    On sane inputs containsDisjointSpanningPathsWithEnds answers whether the
    included subgraph splits into a start1-end1 path and an end2-start2 path
    that hold their required vertices, whatever the flags.
  */
  lemma ContainsDisjointSpanningPathsWithEndsCorrect(g: Graph, excluded: set<nat>, start1: nat, end1: nat, required1: set<nat>,
                                                     start2: nat, end2: nat, required2: set<nat>, allCycles: bool, verbose: bool)
    requires WellFormed(g) && SaneEnds(g, excluded, start1, end1, start2, end2, required2)
    ensures ContainsDisjointSpanningPathsWithEnds(g, excluded, start1, end1, required1, start2, end2, required2, allCycles, verbose)
      <==> HasDisjointSpanningPaths(g, Included(g, excluded), start1, end1, required1, start2, end2, required2)
  {
    hide ContainsDisjointSpanningPathsWithEnds, CanComplete, HasDisjointSpanningPaths;
    var d := Demand(excluded, end1, required1, start2, end2, required2);
    ContainsDisjointSearchCorrect(g, excluded, start1, end1, required1, start2, end2, required2, allCycles, verbose);
    if CanComplete(g, d, {start1, end1}, start1) {
      SearchGivesPaths(g, excluded, start1, end1, required1, start2, end2, required2);
    }
    if HasDisjointSpanningPaths(g, Included(g, excluded), start1, end1, required1, start2, end2, required2) {
      PathsGiveSearch(g, excluded, start1, end1, required1, start2, end2, required2);
    }
  }

  lemma SearchGivesPaths(g: Graph, excluded: set<nat>, start1: nat, end1: nat, required1: set<nat>,
                         start2: nat, end2: nat, required2: set<nat>)
    requires WellFormed(g) && SaneEnds(g, excluded, start1, end1, start2, end2, required2)
    requires CanComplete(g, Demand(excluded, end1, required1, start2, end2, required2), {start1, end1}, start1)
    ensures HasDisjointSpanningPaths(g, Included(g, excluded), start1, end1, required1, start2, end2, required2)
  {
    var d := Demand(excluded, end1, required1, start2, end2, required2);
    var ext1, ext2 :| CompletesPair(g, d, {start1, end1}, start1, ext1, ext2);
    hide CompletesPair, DisjointSpanningPair, WellFormed, SaneEnds;
    CompletionGivesPaths(g, excluded, start1, end1, required1, start2, end2, required2, ext1, ext2);
  }

  lemma PathsGiveSearch(g: Graph, excluded: set<nat>, start1: nat, end1: nat, required1: set<nat>,
                        start2: nat, end2: nat, required2: set<nat>)
    requires WellFormed(g) && SaneEnds(g, excluded, start1, end1, start2, end2, required2)
    requires HasDisjointSpanningPaths(g, Included(g, excluded), start1, end1, required1, start2, end2, required2)
    ensures CanComplete(g, Demand(excluded, end1, required1, start2, end2, required2), {start1, end1}, start1)
  {
    var p1, p2 :| DisjointSpanningPair(g, Included(g, excluded), start1, end1, required1, start2, end2, required2, p1, p2);
    hide CanComplete, DisjointSpanningPair, WellFormed, SaneEnds;
    PathsGiveCompletion(g, excluded, start1, end1, required1, start2, end2, required2, p1, p2);
  }
}
