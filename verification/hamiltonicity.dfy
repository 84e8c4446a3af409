/**
  The Hamiltonicity drivers: isHamiltonian on the subgraph spanned by the
  included vertices, the minimum-degree filter, and the vertex- and
  edge-deleted checks isK1Hamiltonian and isK2Hamiltonian.
*/
module Hamiltonicity {
  import opened VertexSets
  import opened Graphs
  import opened Seeds
  import opened HamiltonSearch

  /** The pool a seed (second, last) around s leaves to the search. */
  function SeedPool(included: set<nat>, s: nat, p: (nat, nat)): set<nat>
  {
    included - {s, p.0, p.1}
  }

  /**
    isHamiltonian's non-flag loop: canBeHamiltonian from the path
    last, s, second (last = p.1, the larger seed), closing at second.
  */
  function SomeSeedCloses(g: Graph, included: set<nat>, s: nat, seeds: seq<(nat, nat)>): bool
    requires SeedsAround(g, included, s, seeds)
  {
    if seeds == [] then false
    else
      var p := seeds[0];
      CanBeHamiltonian(g, SeedPool(included, s, p), p.1, p.0, |included|, 3)
      || SomeSeedCloses(g, included, s, seeds[1..])
  }

  /**
    isHamiltonian's flag loop: canBeHamiltonianPrintCycle from the path
    second, s, last, closing at last, sharing one counter; without allCycles
    it stops at the first seed that leaves the counter non-zero.
  */
  function SeedCount(g: Graph, included: set<nat>, s: nat, seeds: seq<(nat, nat)>, count: nat, allCycles: bool): nat
    requires SeedsAround(g, included, s, seeds)
  {
    if seeds == [] then count
    else
      var p := seeds[0];
      var t := CanBeHamiltonianCounting(g, SeedPool(included, s, p), p.0, p.1, |included|, 3, count, allCycles);
      if !allCycles && t.count != 0 then t.count
      else SeedCount(g, included, s, seeds[1..], t.count, allCycles)
  }

  /** isHamiltonian: is the subgraph spanned by the vertices outside excluded Hamiltonian? */
  function IsHamiltonian(g: Graph, excluded: set<nat>, allCycles: bool, verbose: bool): bool
  {
    var included := Included(g, excluded);
    if included == {} then false
    else
      var s := LowestDegreeVertex(g, included);
      var seeds := SeedPairs(g, included, s);
      if !allCycles && !verbose then SomeSeedCloses(g, included, s, seeds)
      else SeedCount(g, included, s, seeds, 0, allCycles) != 0
  }

  /** The number of Hamiltonian cycles isHamiltonian reports with allCycles. */
  function HamiltonianCycleCount(g: Graph, excluded: set<nat>): nat
  {
    var included := Included(g, excluded);
    if included == {} then 0
    else
      var s := LowestDegreeVertex(g, included);
      SeedCount(g, included, s, SeedPairs(g, included, s), 0, true)
  }

  /** Reference count: Hamiltonian completions summed over the seeds, in the flag direction. */
  function SeedCompletions(g: Graph, included: set<nat>, s: nat, seeds: seq<(nat, nat)>): nat
    requires SeedsAround(g, included, s, seeds)
  {
    if seeds == [] then 0
    else
      var p := seeds[0];
      NumberOfCompletions(g, SeedPool(included, s, p), p.0, p.1) + SeedCompletions(g, included, s, seeds[1..])
  }

  // ---------------------------------------------------------------------
  // From seeds to Hamiltonian cycles.

  /** A seed v1, s, v3 whose extension from v3 covers the rest of included and closes at v1. */
  ghost predicate SeedCompletes(g: Graph, included: set<nat>, s: nat, v1: nat, v3: nat)
  {
    exists ext :: Completes(g, included - {s, v1, v3}, v3, v1, ext)
  }

  /** Searching from a seed is a search in a consistent state. */
  lemma SeedSearchState(g: Graph, included: set<nat>, s: nat, v1: nat, v3: nat)
    requires WellFormed(g) && included <= Range(|g|) && s in included
    requires v1 in g[s] * included && v3 in g[s] * included && v1 != v3
    ensures SearchState(g, included - {s, v1, v3}, v3, v1, |included|, 3)
  {
    SeedCard(g, included, s, v1, v3);
  }

  /**
    With s in the included set, the spanned subgraph is Hamiltonian exactly
    when some seed completes; up chooses which of the two outer seed vertices
    is the smaller.
  */
  lemma SeedsCoverHamiltonian(g: Graph, included: set<nat>, s: nat, up: bool)
    requires WellFormed(g) && included <= Range(|g|) && s in included
    ensures Hamiltonian(g, included) <==>
      exists p | p in SeedPairs(g, included, s) ::
        if up then SeedCompletes(g, included, s, p.0, p.1) else SeedCompletes(g, included, s, p.1, p.0)
  {
    if Hamiltonian(g, included) {
      HamiltonianGivesSeed(g, included, s, up);
    }
    forall p | p in SeedPairs(g, included, s) && (if up then SeedCompletes(g, included, s, p.0, p.1) else SeedCompletes(g, included, s, p.1, p.0))
      ensures Hamiltonian(g, included)
    {
      if up {
        SeedGivesHamiltonian(g, included, s, p.0, p.1);
      } else {
        SeedGivesHamiltonian(g, included, s, p.1, p.0);
      }
    }
  }

  lemma HamiltonianGivesSeed(g: Graph, included: set<nat>, s: nat, up: bool)
    requires WellFormed(g) && included <= Range(|g|) && s in included
    requires Hamiltonian(g, included)
    ensures exists p | p in SeedPairs(g, included, s) ::
      if up then SeedCompletes(g, included, s, p.0, p.1) else SeedCompletes(g, included, s, p.1, p.0)
  {
    hide SeedPairs;
    var c :| HamiltonianCycle(g, included, c);
    var v1, v3, ext := SeedOfCycle(g, c, s, up);
    assert Completes(g, included - {s, v1, v3}, v3, v1, ext);
    assert SeedCompletes(g, included, s, v1, v3);
    var p := if up then (v1, v3) else (v3, v1);
    assert p.0 in g[s] * included && p.1 in g[s] * included && p.0 < p.1;
    var ps := SeedPairs(g, included, s);
    assert p in ps;
    assert if up then SeedCompletes(g, included, s, p.0, p.1) else SeedCompletes(g, included, s, p.1, p.0);
  }

  lemma SeedGivesHamiltonian(g: Graph, included: set<nat>, s: nat, v1: nat, v3: nat)
    requires WellFormed(g) && included <= Range(|g|) && s in included
    requires v1 in g[s] * included && v3 in g[s] * included && v1 != v3
    requires SeedCompletes(g, included, s, v1, v3)
    ensures Hamiltonian(g, included)
  {
    hide IsCycle, WellFormed, Extends, Closes, Hamiltonian, SeedCompletes, Completes;
    var pool := included - {s, v1, v3};
    var ext := SeedExtension(g, included, s, v1, v3);
    SeedCard(g, included, s, v1, v3);
    Cycles.ExtensionGivesCycle(g, v1, s, v3, pool, ext);
    var c := [v1, s, v3] + ext;
    assert Elems(c) == included by {
      assert {v1, s, v3} + pool == included;
    }
    HamiltonianWitness(g, included, c);
  }

  /** The completion a seed promises. */
  lemma SeedExtension(g: Graph, included: set<nat>, s: nat, v1: nat, v3: nat) returns (ext: seq<nat>)
    requires SeedCompletes(g, included, s, v1, v3)
    ensures var pool := included - {s, v1, v3};
      Extends(g, pool, v3, ext) && Closes(g, v1, v3, ext) && Elems(ext) == pool
  {
    ext :| Completes(g, included - {s, v1, v3}, v3, v1, ext);
  }

  /** A Hamiltonian cycle makes the subgraph Hamiltonian. */
  lemma HamiltonianWitness(g: Graph, included: set<nat>, c: seq<nat>)
    requires IsCycle(g, c) && Elems(c) == included
    ensures Hamiltonian(g, included)
  {
    assert HamiltonianCycle(g, included, c);
  }

  lemma {:induction false} SomeSeedClosesCorrect(g: Graph, included: set<nat>, s: nat, seeds: seq<(nat, nat)>)
    requires WellFormed(g) && s in included && SeedsAround(g, included, s, seeds)
    ensures SomeSeedCloses(g, included, s, seeds) <==> exists p | p in seeds :: SeedCompletes(g, included, s, p.0, p.1)
  {
    if seeds != [] {
      var p := seeds[0];
      SeedSearchState(g, included, s, p.0, p.1);
      CanBeHamiltonianCorrect(g, SeedPool(included, s, p), p.1, p.0, |included|, 3);
      SomeSeedClosesCorrect(g, included, s, seeds[1..]);
      assert forall q | q in seeds :: q == p || q in seeds[1..];
    }
  }

  /** Without allCycles, starting from zero, the flag loop reports one cycle iff some seed completes. */
  lemma {:induction false} FirstSeedCount(g: Graph, included: set<nat>, s: nat, seeds: seq<(nat, nat)>)
    requires WellFormed(g) && s in included && SeedsAround(g, included, s, seeds)
    ensures SeedCount(g, included, s, seeds, 0, false) == if exists p | p in seeds :: SeedCompletes(g, included, s, p.1, p.0) then 1 else 0
  {
    if seeds != [] {
      var p := seeds[0];
      SeedSearchState(g, included, s, p.1, p.0);
      FirstCycleCounting(g, SeedPool(included, s, p), p.0, p.1, |included|, 3);
      CanBeHamiltonianCorrect(g, SeedPool(included, s, p), p.0, p.1, |included|, 3);
      assert SeedPool(included, s, p) == included - {s, p.1, p.0};
      FirstSeedCount(g, included, s, seeds[1..]);
      assert forall q | q in seeds :: q == p || q in seeds[1..];
    }
  }

  /** With allCycles the flag loop adds up the reference counts of all seeds. */
  lemma {:induction false} AllSeedCount(g: Graph, included: set<nat>, s: nat, seeds: seq<(nat, nat)>, count: nat)
    requires WellFormed(g) && s in included && SeedsAround(g, included, s, seeds)
    ensures SeedCount(g, included, s, seeds, count, true) == count + SeedCompletions(g, included, s, seeds)
  {
    if seeds != [] {
      var p := seeds[0];
      SeedSearchState(g, included, s, p.1, p.0);
      assert SeedPool(included, s, p) == included - {s, p.1, p.0};
      AllCyclesCounting(g, SeedPool(included, s, p), p.0, p.1, |included|, 3, count);
      var t := CanBeHamiltonianCounting(g, SeedPool(included, s, p), p.0, p.1, |included|, 3, count, true);
      AllSeedCount(g, included, s, seeds[1..], t.count);
    }
  }

  lemma {:induction false} SeedCompletionsPositive(g: Graph, included: set<nat>, s: nat, seeds: seq<(nat, nat)>)
    requires WellFormed(g) && s in included && SeedsAround(g, included, s, seeds)
    ensures SeedCompletions(g, included, s, seeds) > 0 <==> exists p | p in seeds :: SeedCompletes(g, included, s, p.1, p.0)
  {
    if seeds != [] {
      var p := seeds[0];
      assert SeedPool(included, s, p) == included - {s, p.1, p.0};
      CompletionsPositive(g, SeedPool(included, s, p), p.0, p.1);
      SeedCompletionsPositive(g, included, s, seeds[1..]);
      assert forall q | q in seeds :: q == p || q in seeds[1..];
    }
  }

  /**
    isHamiltonian answers whether the subgraph spanned by the included
    vertices has a Hamiltonian cycle, whichever flags it runs with.
  */
  lemma IsHamiltonianCorrect(g: Graph, excluded: set<nat>, allCycles: bool, verbose: bool)
    requires WellFormed(g)
    ensures IsHamiltonian(g, excluded, allCycles, verbose) <==> Hamiltonian(g, Included(g, excluded))
  {
    var included := Included(g, excluded);
    if included == {} {
      forall c | IsCycle(g, c) ensures Elems(c) != {} {
        assert c[0] in Elems(c);
      }
    } else {
      var s := LowestDegreeVertex(g, included);
      var seeds := SeedPairs(g, included, s);
      if !allCycles && !verbose {
        SomeSeedClosesCorrect(g, included, s, seeds);
        SeedsCoverHamiltonian(g, included, s, true);
      } else if !allCycles {
        FirstSeedCount(g, included, s, seeds);
        SeedsCoverHamiltonian(g, included, s, false);
      } else {
        AllSeedCount(g, included, s, seeds, 0);
        SeedCompletionsPositive(g, included, s, seeds);
        SeedsCoverHamiltonian(g, included, s, false);
      }
    }
  }

  /**
    The count reported with allCycles is the number of seed completions:
    positive exactly when the subgraph is Hamiltonian.
  */
  lemma HamiltonianCycleCountCorrect(g: Graph, excluded: set<nat>)
    requires WellFormed(g)
    ensures var included := Included(g, excluded);
      HamiltonianCycleCount(g, excluded)
        == if included == {} then 0 else
             var s := LowestDegreeVertex(g, included);
             SeedCompletions(g, included, s, SeedPairs(g, included, s))
    ensures HamiltonianCycleCount(g, excluded) > 0 <==> Hamiltonian(g, Included(g, excluded))
  {
    var included := Included(g, excluded);
    IsHamiltonianCorrect(g, excluded, true, false);
    if included != {} {
      var s := LowestDegreeVertex(g, included);
      AllSeedCount(g, included, s, SeedPairs(g, included, s), 0);
    }
  }

  // ---------------------------------------------------------------------
  // Minimum degree and the vertex- and edge-deleted checks.

  /** hasMinimumDegree's loop from vertex i on. */
  function MinimumDegreeFrom(g: Graph, degree: int, i: nat): (r: bool)
    ensures r <==> forall v | i <= v < |g| :: |g[v]| >= degree
    decreases |g| - i
  {
    if i >= |g| then true
    else if |g[i]| < degree then false
    else MinimumDegreeFrom(g, degree, i + 1)
  }

  /** hasMinimumDegree. */
  function HasMinimumDegree(g: Graph, degree: int): (r: bool)
    ensures r <==> forall v | 0 <= v < |g| :: |g[v]| >= degree
  {
    MinimumDegreeFrom(g, degree, 0)
  }

  /** The non-verbose loop of isK1Hamiltonian: stop at the first non-Hamiltonian G - i. */
  function AllVertexDeletedHamiltonian(g: Graph, i: nat): (r: bool)
    decreases |g| - i
  {
    if i >= |g| then true
    else if !IsHamiltonian(g, {i}, false, false) then false
    else AllVertexDeletedHamiltonian(g, i + 1)
  }

  /**
    The verbose loop of isK1Hamiltonian: the exceptional vertices from i on;
    G - vertexToCheck is examined with the diagnostic flags.
  */
  function ExceptionalVertices(g: Graph, i: nat, allCycles: bool, vertexToCheck: int): (r: set<nat>)
    decreases |g| - i
  {
    if i >= |g| then {}
    else
      var verbose := vertexToCheck == i;
      var cycles := verbose && allCycles;
      var here: set<nat> := if !IsHamiltonian(g, {i}, cycles, verbose) then {i} else {};
      here + ExceptionalVertices(g, i + 1, allCycles, vertexToCheck)
  }

  /** isK1Hamiltonian. */
  function IsK1Hamiltonian(g: Graph, verbose: bool, allCycles: bool, vertexToCheck: int): bool
  {
    if !HasMinimumDegree(g, 3) then false
    else if !verbose then AllVertexDeletedHamiltonian(g, 0)
    else ExceptionalVertices(g, 0, allCycles, vertexToCheck) == {}
  }

  /** G - v: the subgraph spanned by every vertex but v. */
  ghost predicate VertexDeletedHamiltonian(g: Graph, v: nat)
  {
    Hamiltonian(g, Included(g, {v}))
  }

  lemma {:induction false} AllVertexDeletedCorrect(g: Graph, i: nat)
    requires WellFormed(g)
    ensures AllVertexDeletedHamiltonian(g, i) <==> forall v | i <= v < |g| :: VertexDeletedHamiltonian(g, v)
    decreases |g| - i
  {
    hide IsHamiltonian;
    if i < |g| {
      IsHamiltonianCorrect(g, {i}, false, false);
      assert IsHamiltonian(g, {i}, false, false) == VertexDeletedHamiltonian(g, i);
      AllVertexDeletedCorrect(g, i + 1);
    }
  }

  /** One step of the verbose loop: vertex i is exceptional or not, the rest come from i + 1 on. */
  lemma ExceptionalVerticesStep(g: Graph, i: nat, allCycles: bool, vertexToCheck: int, v: nat)
    requires i < |g|
    ensures var verbose := vertexToCheck == i;
      v in ExceptionalVertices(g, i, allCycles, vertexToCheck)
      <==> (v == i && !IsHamiltonian(g, {i}, verbose && allCycles, verbose))
           || v in ExceptionalVertices(g, i + 1, allCycles, vertexToCheck)
  {
    hide IsHamiltonian;
  }

  lemma {:induction false} ExceptionalVerticesCorrect(g: Graph, i: nat, allCycles: bool, vertexToCheck: int)
    requires WellFormed(g)
    ensures forall v: nat :: (v in ExceptionalVertices(g, i, allCycles, vertexToCheck)
      <==> i <= v < |g| && !VertexDeletedHamiltonian(g, v))
    decreases |g| - i
  {
    hide IsHamiltonian, ExceptionalVertices;
    if i < |g| {
      var verbose := vertexToCheck == i;
      IsHamiltonianCorrect(g, {i}, verbose && allCycles, verbose);
      assert IsHamiltonian(g, {i}, verbose && allCycles, verbose) == VertexDeletedHamiltonian(g, i);
      ExceptionalVerticesCorrect(g, i + 1, allCycles, vertexToCheck);
      forall v: nat ensures v in ExceptionalVertices(g, i, allCycles, vertexToCheck)
        <==> i <= v < |g| && !VertexDeletedHamiltonian(g, v) {
        ExceptionalVerticesStep(g, i, allCycles, vertexToCheck, v);
      }
    } else {
      ExceptionalVerticesDone(g, i, allCycles, vertexToCheck);
    }
  }

  /** Past the last vertex the loop finds nothing. */
  lemma ExceptionalVerticesDone(g: Graph, i: nat, allCycles: bool, vertexToCheck: int)
    requires |g| <= i
    ensures ExceptionalVertices(g, i, allCycles, vertexToCheck) == {}
  {
  }

  /**
    isK1Hamiltonian: minimum degree at least 3 and every vertex-deleted
    subgraph Hamiltonian; the verbose flags only change what is reported.
  */
  lemma IsK1HamiltonianCorrect(g: Graph, verbose: bool, allCycles: bool, vertexToCheck: int)
    requires WellFormed(g)
    ensures IsK1Hamiltonian(g, verbose, allCycles, vertexToCheck) <==>
      HasMinimumDegree(g, 3) && forall v | 0 <= v < |g| :: VertexDeletedHamiltonian(g, v)
  {
    AllVertexDeletedCorrect(g, 0);
    ExceptionalVerticesCorrect(g, 0, allCycles, vertexToCheck);
    if HasMinimumDegree(g, 3) && verbose && ExceptionalVertices(g, 0, allCycles, vertexToCheck) != {} {
      var v :| v in ExceptionalVertices(g, 0, allCycles, vertexToCheck);
    }
  }

  /** G - v - w. */
  ghost predicate EdgeDeletedHamiltonian(g: Graph, v: nat, w: nat)
  {
    Hamiltonian(g, Included(g, {v, w}))
  }

  /**
    The inner loop of isK2Hamiltonian over the neighbours w > i of i: the
    excluded set gains w for the call and loses it again afterwards. Returns
    whether every G - i - w was Hamiltonian.
  */
  function EdgesFromAllHamiltonian(g: Graph, i: nat, excluded: set<nat>, neighbours: seq<nat>,
                                   verbose: bool, allCycles: bool, pairToCheck: (int, int)): (r: bool)
  {
    if neighbours == [] then true
    else
      var w := neighbours[0];
      var withW := excluded + {w};
      var pick := verbose && ((i == pairToCheck.0 && w == pairToCheck.1) || (i == pairToCheck.1 && w == pairToCheck.0));
      var ham := if verbose then IsHamiltonian(g, withW, pick && allCycles, pick) else IsHamiltonian(g, withW, false, false);
      if !verbose && !ham then false
      else
        var rest := EdgesFromAllHamiltonian(g, i, withW - {w}, neighbours[1..], verbose, allCycles, pairToCheck);
        ham && rest
  }

  /** The outer loop of isK2Hamiltonian over i, starting from excluded = {i}. */
  function EdgesAllHamiltonian(g: Graph, i: nat, verbose: bool, allCycles: bool, pairToCheck: (int, int)): (r: bool)
    decreases |g| - i
  {
    if i >= |g| then true
    else
      var here := EdgesFromAllHamiltonian(g, i, {i}, AfterIndex(Ascending(g[i], |g|), i), verbose, allCycles, pairToCheck);
      if !verbose && !here then false
      else here && EdgesAllHamiltonian(g, i + 1, verbose, allCycles, pairToCheck)
  }

  /** isK2Hamiltonian. */
  function IsK2Hamiltonian(g: Graph, verbose: bool, allCycles: bool, pairToCheck: (int, int)): bool
  {
    if !HasMinimumDegree(g, 3) then false
    else EdgesAllHamiltonian(g, 0, verbose, allCycles, pairToCheck)
  }

  /**
    The restoring removeElement gives back exactly {i} before each call, so
    every call sees excluded = {i, w}.
  */
  lemma {:induction false} EdgesFromCorrect(g: Graph, i: nat, neighbours: seq<nat>, verbose: bool, allCycles: bool, pairToCheck: (int, int))
    requires WellFormed(g)
    requires forall k | 0 <= k < |neighbours| :: neighbours[k] > i
    ensures EdgesFromAllHamiltonian(g, i, {i}, neighbours, verbose, allCycles, pairToCheck)
      <==> forall w | w in neighbours :: EdgeDeletedHamiltonian(g, i, w)
  {
    hide IsHamiltonian;
    if neighbours != [] {
      var w := neighbours[0];
      assert {i} + {w} - {w} == {i};
      assert {i} + {w} == {i, w};
      var pick := verbose && ((i == pairToCheck.0 && w == pairToCheck.1) || (i == pairToCheck.1 && w == pairToCheck.0));
      IsHamiltonianCorrect(g, {i, w}, pick && allCycles, pick);
      IsHamiltonianCorrect(g, {i, w}, false, false);
      assert IsHamiltonian(g, {i} + {w}, pick && allCycles, pick) == EdgeDeletedHamiltonian(g, i, w);
      assert IsHamiltonian(g, {i} + {w}, false, false) == EdgeDeletedHamiltonian(g, i, w);
      EdgesFromCorrect(g, i, neighbours[1..], verbose, allCycles, pairToCheck);
      assert forall x | x in neighbours :: x == w || x in neighbours[1..];
    }
  }

  lemma {:induction false} EdgesAllCorrect(g: Graph, i: nat, verbose: bool, allCycles: bool, pairToCheck: (int, int))
    requires WellFormed(g)
    ensures EdgesAllHamiltonian(g, i, verbose, allCycles, pairToCheck)
      <==> forall v, w | i <= v < w < |g| && w in g[v] :: EdgeDeletedHamiltonian(g, v, w)
    decreases |g| - i
  {
    hide IsHamiltonian, EdgeDeletedHamiltonian, EdgesFromAllHamiltonian, WellFormed;
    if i < |g| {
      var neighbours := AfterIndex(Ascending(g[i], |g|), i);
      assert forall k | 0 <= k < |neighbours| :: neighbours[k] in neighbours;
      EdgesFromCorrect(g, i, neighbours, verbose, allCycles, pairToCheck);
      EdgesAllCorrect(g, i + 1, verbose, allCycles, pairToCheck);
      assert forall w :: w in neighbours <==> i < w < |g| && w in g[i];
    }
  }

  /**
    isK2Hamiltonian: minimum degree at least 3 and G - v - w Hamiltonian for
    every edge vw; the verbose flags only change what is reported.
  */
  lemma IsK2HamiltonianCorrect(g: Graph, verbose: bool, allCycles: bool, pairToCheck: (int, int))
    requires WellFormed(g)
    ensures IsK2Hamiltonian(g, verbose, allCycles, pairToCheck) <==>
      HasMinimumDegree(g, 3) && forall v, w | 0 <= v < w < |g| && w in g[v] :: EdgeDeletedHamiltonian(g, v, w)
  {
    EdgesAllCorrect(g, 0, verbose, allCycles, pairToCheck);
  }
}
