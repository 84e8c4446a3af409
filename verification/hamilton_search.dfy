/**
  The backtracking core of the Hamiltonicity family: canBeHamiltonian and its
  counting twin canBeHamiltonianPrintCycle. A path is represented by its
  first and last vertex, its length, and the pool `remaining` of vertices
  that may still be appended; only the last end is ever extended.

  The C code mutates `remainingVertices` and `lastElemOfPath` in place and
  undoes the change after each child call; bitsets are passed by value, so
  each child sees exactly the parent's pool minus the appended neighbour.
  Here that is modelled directly: the child receives `remaining - {next}`.
*/
module HamiltonSearch {
  import opened VertexSets
  import opened Graphs

  /** The state a search call is entered in is consistent with a path being extended. */
  predicate SearchState(g: Graph, remaining: set<nat>, last: nat, first: nat, order: int, pathLength: int)
  {
    && WellFormed(g)
    && last < |g| && first < |g| && remaining <= Range(|g|)
    && pathLength + |remaining| == order
    && first !in remaining && last !in remaining && first != last
  }

  /**
    The path can be completed to a Hamiltonian cycle: ext visits every
    remaining vertex exactly once, starting next to last, and ends next to first.
  */
  predicate Completes(g: Graph, remaining: set<nat>, last: nat, first: nat, ext: seq<nat>)
  {
    && Extends(g, remaining, last, ext)
    && Elems(ext) == remaining
    && Closes(g, first, last, ext)
  }

  /**
    Second prune: some unvisited vertex has fewer than two neighbours among
    the remaining vertices and the two path ends.
  */
  predicate HasStrandedVertex(g: Graph, remaining: set<nat>, first: nat, last: nat)
    requires remaining <= Range(|g|)
  {
    exists v {:trigger Links(g, remaining, first, last, v)} | v in remaining :: Links(g, remaining, first, last, v) < 2
  }

  /** The neighbours v can still use: remaining vertices and the two path ends. */
  function Links(g: Graph, remaining: set<nat>, first: nat, last: nat, v: nat): nat
    requires v < |g|
  {
    |g[v] * (remaining + {first, last})|
  }

  /** canBeHamiltonian. */
  function CanBeHamiltonian(g: Graph, remaining: set<nat>, last: nat, first: nat, order: int, pathLength: int): bool
    requires last < |g| && first < |g| && remaining <= Range(|g|)
    decreases |remaining|, 1, 0
  {
    if pathLength == order && last in g[first] then true
    else if g[first] * remaining == {} then false
    else if HasStrandedVertex(g, remaining, first, last) then false
    else TryNeighbours(g, remaining, first, order, pathLength, Ascending(g[last] * remaining, |g|))
  }

  /** The forEach loop of canBeHamiltonian over the remaining neighbours of last. */
  function TryNeighbours(g: Graph, remaining: set<nat>, first: nat, order: int, pathLength: int, candidates: seq<nat>): bool
    requires first < |g| && remaining <= Range(|g|)
    requires forall i | 0 <= i < |candidates| :: candidates[i] in remaining
    decreases |remaining|, 0, |candidates|
  {
    if candidates == [] then false
    else
      var next := candidates[0];
      CanBeHamiltonian(g, remaining - {next}, next, first, order, pathLength + 1)
      || TryNeighbours(g, remaining, first, order, pathLength, candidates[1..])
  }

  lemma {:induction false} TryNeighboursAny(g: Graph, remaining: set<nat>, first: nat, order: int, pathLength: int, candidates: seq<nat>)
    requires first < |g| && remaining <= Range(|g|)
    requires forall i | 0 <= i < |candidates| :: candidates[i] in remaining
    ensures TryNeighbours(g, remaining, first, order, pathLength, candidates)
      <==> exists i | 0 <= i < |candidates| ::
             CanBeHamiltonian(g, remaining - {candidates[i]}, candidates[i], first, order, pathLength + 1)
    decreases |candidates|
  {
    if candidates != [] {
      TryNeighboursAny(g, remaining, first, order, pathLength, candidates[1..]);
      var tail := candidates[1..];
      assert forall i | 0 <= i < |tail| :: tail[i] == candidates[i + 1];
    }
  }

  // ---------------------------------------------------------------------
  // Completions: building and splitting them one vertex at a time.

  /** A completion of the child call, prefixed with the appended vertex, completes the parent. */
  lemma ConsCompletes(g: Graph, remaining: set<nat>, last: nat, first: nat, next: nat, ext: seq<nat>)
    requires next in remaining && Adjacent(g, last, next)
    requires Completes(g, remaining - {next}, next, first, ext)
    ensures Completes(g, remaining, last, first, [next] + ext)
  {
    ConsExtends(g, remaining, last, next, ext);
  }

  /** A non-empty completion of the parent starts with a child whose completion is the rest. */
  lemma SplitCompletes(g: Graph, remaining: set<nat>, last: nat, first: nat, ext: seq<nat>)
    requires Completes(g, remaining, last, first, ext) && ext != []
    ensures ext[0] in remaining && Adjacent(g, last, ext[0])
    ensures Completes(g, remaining - {ext[0]}, ext[0], first, ext[1..])
  {
    SplitExtends(g, remaining, last, ext);
  }

  /** The empty extension completes exactly when the pool is empty and the path closes. */
  lemma EmptyCompletes(g: Graph, remaining: set<nat>, last: nat, first: nat)
    requires remaining == {} && Adjacent(g, first, last)
    ensures Completes(g, remaining, last, first, [])
  {
    assert Elems([]) == {};
  }

  lemma TwoElements(s: set<nat>, a: nat, b: nat)
    requires a in s && b in s && a != b
    ensures |s| >= 2
  {
    SubsetCard({a, b}, s);
  }

  /**
    Both prunes are sound: a path that has a non-empty completion keeps a
    neighbour of first in the pool, and every remaining vertex keeps two
    neighbours among the pool and the path ends.
  */
  lemma CompletionPassesPrunes(g: Graph, remaining: set<nat>, last: nat, first: nat, order: int, pathLength: int, ext: seq<nat>)
    requires SearchState(g, remaining, last, first, order, pathLength)
    requires Completes(g, remaining, last, first, ext) && ext != []
    ensures g[first] * remaining != {}
    ensures !HasStrandedVertex(g, remaining, first, last)
  {
    var m := |ext|;
    var w := [last] + ext;
    assert w[m] == ext[m - 1] && ext[m - 1] in remaining;
    assert ext[m - 1] in g[first];
    forall v | v in remaining ensures Links(g, remaining, first, last, v) >= 2 {
      CompletionLinks(g, remaining, last, first, order, pathLength, ext, v);
    }
  }

  /** Every remaining vertex has its two neighbours on the completed cycle among the pool and the ends. */
  lemma CompletionLinks(g: Graph, remaining: set<nat>, last: nat, first: nat, order: int, pathLength: int, ext: seq<nat>, v: nat)
    requires SearchState(g, remaining, last, first, order, pathLength)
    requires Completes(g, remaining, last, first, ext) && ext != []
    requires v in remaining
    ensures Links(g, remaining, first, last, v) >= 2
  {
    var m := |ext|;
    var w := [last] + ext;
    var pool := remaining + {first, last};
    assert v in Elems(ext);
    var j :| 0 <= j < m && ext[j] == v;
    assert w[j + 1] == v;
    var pred := w[j];
    assert Adjacent(g, pred, v);
    assert pred in pool by {
      if j > 0 { assert w[j] == ext[j - 1]; }
    }
    var succ := if j == m - 1 then first else ext[j + 1];
    if j < m - 1 {
      assert w[j + 2] == ext[j + 1];
      assert Adjacent(g, v, succ);
    } else {
      assert Adjacent(g, first, v);
    }
    assert pred != succ by {
      if j == 0 && j == m - 1 {
      } else if j == 0 {
        assert succ in remaining;
      } else if j == m - 1 {
        assert pred == ext[j - 1];
      } else {
        assert pred == ext[j - 1];
      }
    }
    assert pred in g[v] && succ in g[v];
    TwoElements(g[v] * pool, pred, succ);
  }

  /** The empty completion closes a path that already covers everything. */
  lemma EmptyCompletion(g: Graph, remaining: set<nat>, last: nat, first: nat, order: int, pathLength: int)
    requires SearchState(g, remaining, last, first, order, pathLength)
    requires Completes(g, remaining, last, first, [])
    ensures pathLength == order && last in g[first]
  {
    assert remaining == {} by { assert Elems([]) == {}; }
  }

  /** Appending a remaining neighbour of last yields a consistent child state. */
  lemma ChildState(g: Graph, remaining: set<nat>, last: nat, first: nat, order: int, pathLength: int, next: nat)
    requires SearchState(g, remaining, last, first, order, pathLength)
    requires next in remaining
    ensures SearchState(g, remaining - {next}, next, first, order, pathLength + 1)
  {
    assert |remaining - {next}| == |remaining| - 1;
  }

  lemma {:induction false} CanBeHamiltonianSound(g: Graph, remaining: set<nat>, last: nat, first: nat, order: int, pathLength: int)
    requires SearchState(g, remaining, last, first, order, pathLength)
    requires CanBeHamiltonian(g, remaining, last, first, order, pathLength)
    ensures exists ext :: Completes(g, remaining, last, first, ext)
    decreases |remaining|
  {
    if pathLength == order && last in g[first] {
      assert remaining == {};
      EmptyCompletes(g, remaining, last, first);
    } else {
      var candidates := Ascending(g[last] * remaining, |g|);
      TryNeighboursAny(g, remaining, first, order, pathLength, candidates);
      var i :| 0 <= i < |candidates| &&
        CanBeHamiltonian(g, remaining - {candidates[i]}, candidates[i], first, order, pathLength + 1);
      var next := candidates[i];
      ChildState(g, remaining, last, first, order, pathLength, next);
      CanBeHamiltonianSound(g, remaining - {next}, next, first, order, pathLength + 1);
      var rest :| Completes(g, remaining - {next}, next, first, rest);
      ConsCompletes(g, remaining, last, first, next, rest);
    }
  }

  /** One unfolding of canBeHamiltonian. */
  lemma CanBeHamiltonianCases(g: Graph, remaining: set<nat>, last: nat, first: nat, order: int, pathLength: int)
    requires last < |g| && first < |g| && remaining <= Range(|g|)
    ensures CanBeHamiltonian(g, remaining, last, first, order, pathLength)
      <==> (pathLength == order && last in g[first])
           || (&& g[first] * remaining != {}
               && !HasStrandedVertex(g, remaining, first, last)
               && TryNeighbours(g, remaining, first, order, pathLength, Ascending(g[last] * remaining, |g|)))
  {
  }

  lemma {:induction false} CanBeHamiltonianComplete(g: Graph, remaining: set<nat>, last: nat, first: nat, order: int, pathLength: int, ext: seq<nat>)
    requires SearchState(g, remaining, last, first, order, pathLength)
    requires Completes(g, remaining, last, first, ext)
    ensures CanBeHamiltonian(g, remaining, last, first, order, pathLength)
    decreases |remaining|
  {
    hide CanBeHamiltonian, TryNeighbours, HasStrandedVertex, Completes, WellFormed;
    CanBeHamiltonianCases(g, remaining, last, first, order, pathLength);
    if ext == [] {
      EmptyCompletion(g, remaining, last, first, order, pathLength);
    } else if !(pathLength == order && last in g[first]) {
      CompletionPassesPrunes(g, remaining, last, first, order, pathLength, ext);
      SplitCompletes(g, remaining, last, first, ext);
      var next := ext[0];
      var candidates := Ascending(g[last] * remaining, |g|);
      assert next in candidates;
      var i :| 0 <= i < |candidates| && candidates[i] == next;
      ChildState(g, remaining, last, first, order, pathLength, next);
      CanBeHamiltonianComplete(g, remaining - {next}, next, first, order, pathLength + 1, ext[1..]);
      TryNeighboursAny(g, remaining, first, order, pathLength, candidates);
    }
  }

  /**
    canBeHamiltonian is exact: from a consistent state it returns true iff the
    path can be completed to a Hamiltonian cycle of the vertices on the path
    and in the pool. Vertices left out of the pool never appear on the cycle.
  */
  lemma CanBeHamiltonianCorrect(g: Graph, remaining: set<nat>, last: nat, first: nat, order: int, pathLength: int)
    requires SearchState(g, remaining, last, first, order, pathLength)
    ensures CanBeHamiltonian(g, remaining, last, first, order, pathLength)
      <==> exists ext :: Completes(g, remaining, last, first, ext)
  {
    if CanBeHamiltonian(g, remaining, last, first, order, pathLength) {
      CanBeHamiltonianSound(g, remaining, last, first, order, pathLength);
    }
    forall ext | Completes(g, remaining, last, first, ext)
      ensures CanBeHamiltonian(g, remaining, last, first, order, pathLength)
    {
      CanBeHamiltonianComplete(g, remaining, last, first, order, pathLength, ext);
    }
  }

  // ---------------------------------------------------------------------
  // canBeHamiltonianPrintCycle: the counting variant.

  /** The shared counter (*numberOfHamiltonianCycles) and the boolean returned. */
  datatype Tally = Tally(found: bool, count: nat)

  /**
    canBeHamiltonianPrintCycle. A completed cycle bumps the counter; without
    allCycles the first success is propagated straight up, with allCycles
    every branch is explored. An exhausted loop answers "counter is non-zero",
    which is the running total, not whether this subtree succeeded.
  */
  function CanBeHamiltonianCounting(g: Graph, remaining: set<nat>, last: nat, first: nat, order: int, pathLength: int,
                                    count: nat, allCycles: bool): Tally
    requires last < |g| && first < |g| && remaining <= Range(|g|)
    decreases |remaining|, 1, 0
  {
    if pathLength == order && last in g[first] then Tally(true, count + 1)
    else if g[first] * remaining == {} then Tally(false, count)
    else if HasStrandedVertex(g, remaining, first, last) then Tally(false, count)
    else CountNeighbours(g, remaining, first, order, pathLength, count, allCycles, Ascending(g[last] * remaining, |g|))
  }

  /** The forEach loop of canBeHamiltonianPrintCycle. */
  function CountNeighbours(g: Graph, remaining: set<nat>, first: nat, order: int, pathLength: int,
                           count: nat, allCycles: bool, candidates: seq<nat>): Tally
    requires first < |g| && remaining <= Range(|g|)
    requires forall i | 0 <= i < |candidates| :: candidates[i] in remaining
    decreases |remaining|, 0, |candidates|
  {
    if candidates == [] then Tally(count != 0, count)
    else
      var next := candidates[0];
      var t := CanBeHamiltonianCounting(g, remaining - {next}, next, first, order, pathLength + 1, count, allCycles);
      if t.found && !allCycles then Tally(true, t.count)
      else CountNeighbours(g, remaining, first, order, pathLength, t.count, allCycles, candidates[1..])
  }

  /**
    Reference count of Hamiltonian completions: every way to visit the whole
    pool from last, one neighbour at a time, and close at first; no pruning.
  */
  function NumberOfCompletions(g: Graph, remaining: set<nat>, last: nat, first: nat): nat
    requires last < |g| && first < |g| && remaining <= Range(|g|)
    decreases |remaining|, 1, 0
  {
    if remaining == {} then (if last in g[first] then 1 else 0)
    else SumCompletions(g, remaining, first, Ascending(g[last] * remaining, |g|))
  }

  function SumCompletions(g: Graph, remaining: set<nat>, first: nat, candidates: seq<nat>): nat
    requires first < |g| && remaining <= Range(|g|)
    requires forall i | 0 <= i < |candidates| :: candidates[i] in remaining
    decreases |remaining|, 0, |candidates|
  {
    if candidates == [] then 0
    else
      var next := candidates[0];
      NumberOfCompletions(g, remaining - {next}, next, first) + SumCompletions(g, remaining, first, candidates[1..])
  }

  lemma {:induction false} SumCompletionsPositive(g: Graph, remaining: set<nat>, first: nat, candidates: seq<nat>)
    requires first < |g| && remaining <= Range(|g|)
    requires forall i | 0 <= i < |candidates| :: candidates[i] in remaining
    ensures SumCompletions(g, remaining, first, candidates) > 0
      <==> exists i | 0 <= i < |candidates| :: NumberOfCompletions(g, remaining - {candidates[i]}, candidates[i], first) > 0
    decreases |candidates|
  {
    if candidates != [] {
      SumCompletionsPositive(g, remaining, first, candidates[1..]);
      var tail := candidates[1..];
      assert forall i | 0 <= i < |tail| :: tail[i] == candidates[i + 1];
    }
  }

  /** The reference count is positive exactly when a completion exists. */
  lemma {:induction false} CompletionsPositive(g: Graph, remaining: set<nat>, last: nat, first: nat)
    requires last < |g| && first < |g| && remaining <= Range(|g|)
    ensures NumberOfCompletions(g, remaining, last, first) > 0
      <==> exists ext :: Completes(g, remaining, last, first, ext)
    decreases |remaining|
  {
    var candidates := Ascending(g[last] * remaining, |g|);
    if remaining == {} {
      if last in g[first] {
        EmptyCompletes(g, remaining, last, first);
      }
      forall ext | Completes(g, remaining, last, first, ext) ensures last in g[first] {
        assert ext == [] by { DistinctCard(ext); }
      }
    } else {
      SumCompletionsPositive(g, remaining, first, candidates);
      if NumberOfCompletions(g, remaining, last, first) > 0 {
        var i :| 0 <= i < |candidates| && NumberOfCompletions(g, remaining - {candidates[i]}, candidates[i], first) > 0;
        var next := candidates[i];
        CompletionsPositive(g, remaining - {next}, next, first);
        var rest :| Completes(g, remaining - {next}, next, first, rest);
        ConsCompletes(g, remaining, last, first, next, rest);
      }
      forall ext | Completes(g, remaining, last, first, ext)
        ensures NumberOfCompletions(g, remaining, last, first) > 0
      {
        assert ext != [] by {
          var x :| x in remaining;
          assert x in Elems(ext);
        }
        SplitCompletes(g, remaining, last, first, ext);
        var next := ext[0];
        assert next in candidates;
        var i :| 0 <= i < |candidates| && candidates[i] == next;
        CompletionsPositive(g, remaining - {next}, next, first);
      }
    }
  }

  /**
    Without allCycles and with a zero counter, canBeHamiltonianPrintCycle
    returns what canBeHamiltonian returns, and counts that one cycle.
  */
  lemma {:induction false} FirstCycleCounting(g: Graph, remaining: set<nat>, last: nat, first: nat, order: int, pathLength: int)
    requires last < |g| && first < |g| && remaining <= Range(|g|)
    ensures var found := CanBeHamiltonian(g, remaining, last, first, order, pathLength);
      CanBeHamiltonianCounting(g, remaining, last, first, order, pathLength, 0, false)
        == Tally(found, if found then 1 else 0)
    decreases |remaining|, 1, 0
  {
    if !(pathLength == order && last in g[first]) && g[first] * remaining != {}
       && !HasStrandedVertex(g, remaining, first, last)
    {
      FirstCycleLoop(g, remaining, first, order, pathLength, Ascending(g[last] * remaining, |g|));
    }
  }

  lemma {:induction false} FirstCycleLoop(g: Graph, remaining: set<nat>, first: nat, order: int, pathLength: int, candidates: seq<nat>)
    requires first < |g| && remaining <= Range(|g|)
    requires forall i | 0 <= i < |candidates| :: candidates[i] in remaining
    ensures var found := TryNeighbours(g, remaining, first, order, pathLength, candidates);
      CountNeighbours(g, remaining, first, order, pathLength, 0, false, candidates)
        == Tally(found, if found then 1 else 0)
    decreases |remaining|, 0, |candidates|
  {
    if candidates != [] {
      var next := candidates[0];
      FirstCycleCounting(g, remaining - {next}, next, first, order, pathLength + 1);
      FirstCycleLoop(g, remaining, first, order, pathLength, candidates[1..]);
    }
  }

  /**
    With allCycles, canBeHamiltonianPrintCycle adds to the counter exactly the
    number of Hamiltonian completions (the prunes lose none), and started
    from zero it answers whether that number is non-zero.
  */
  lemma {:induction false} AllCyclesCounting(g: Graph, remaining: set<nat>, last: nat, first: nat, order: int, pathLength: int, count: nat)
    requires SearchState(g, remaining, last, first, order, pathLength)
    ensures var t := CanBeHamiltonianCounting(g, remaining, last, first, order, pathLength, count, true);
      && t.count == count + NumberOfCompletions(g, remaining, last, first)
      && (count == 0 ==> t.found == (t.count != 0))
    decreases |remaining|, 1, 0
  {
    var candidates := Ascending(g[last] * remaining, |g|);
    if pathLength == order && last in g[first] {
      assert remaining == {};
    } else if remaining == {} {
    } else if g[first] * remaining == {} || HasStrandedVertex(g, remaining, first, last) {
      CompletionsPositive(g, remaining, last, first);
      if NumberOfCompletions(g, remaining, last, first) > 0 {
        var ext :| Completes(g, remaining, last, first, ext);
        assert ext != [] by {
          var x :| x in remaining;
          assert x in Elems(ext);
        }
        CompletionPassesPrunes(g, remaining, last, first, order, pathLength, ext);
      }
    } else {
      AllCyclesLoop(g, remaining, last, first, order, pathLength, count, candidates);
    }
  }

  lemma {:induction false} AllCyclesLoop(g: Graph, remaining: set<nat>, last: nat, first: nat, order: int, pathLength: int,
                                         count: nat, candidates: seq<nat>)
    requires SearchState(g, remaining, last, first, order, pathLength)
    requires forall i | 0 <= i < |candidates| :: candidates[i] in remaining
    ensures var t := CountNeighbours(g, remaining, first, order, pathLength, count, true, candidates);
      && t.count == count + SumCompletions(g, remaining, first, candidates)
      && t.found == (t.count != 0)
    decreases |remaining|, 0, |candidates|
  {
    if candidates != [] {
      var next := candidates[0];
      ChildState(g, remaining, last, first, order, pathLength, next);
      AllCyclesCounting(g, remaining - {next}, next, first, order, pathLength + 1, count);
      var t := CanBeHamiltonianCounting(g, remaining - {next}, next, first, order, pathLength + 1, count, true);
      AllCyclesLoop(g, remaining, last, first, order, pathLength, t.count, candidates[1..]);
    }
  }
}
