/**
  The circumference computation of circumferenceChecker: canBeCycleOfLength
  looks for a cycle with an exact number of vertices by extending a path at
  its last end, and getCircumference tries the target lengths from the order
  downwards, each time from the seed paths around a vertex of lowest degree,
  forbidding that vertex once its seeds are exhausted.
*/
module Circumference {
  import opened VertexSets
  import opened Graphs
  import opened Cycles
  import opened Seeds

  /**
    canBeCycleOfLength. Success only when the path has exactly cycleLength
    vertices and closes; the single prune gives up when first has no
    neighbour left in the pool. Longer paths are not cut off.
  */
  function CanBeCycleOfLength(g: Graph, remaining: set<nat>, last: nat, first: nat, cycleLength: int, pathLength: int): bool
    requires last < |g| && first < |g| && remaining <= Range(|g|)
    decreases |remaining|, 1, 0
  {
    if pathLength == cycleLength && last in g[first] then true
    else if g[first] * remaining == {} then false
    else TryLengthNeighbours(g, remaining, first, cycleLength, pathLength, Ascending(g[last] * remaining, |g|))
  }

  /** The forEach loop of canBeCycleOfLength over the remaining neighbours of last. */
  function TryLengthNeighbours(g: Graph, remaining: set<nat>, first: nat, cycleLength: int, pathLength: int, candidates: seq<nat>): bool
    requires first < |g| && remaining <= Range(|g|)
    requires forall i | 0 <= i < |candidates| :: candidates[i] in remaining
    decreases |remaining|, 0, |candidates|
  {
    if candidates == [] then false
    else
      var next := candidates[0];
      CanBeCycleOfLength(g, remaining - {next}, next, first, cycleLength, pathLength + 1)
      || TryLengthNeighbours(g, remaining, first, cycleLength, pathLength, candidates[1..])
  }

  lemma {:induction false} TryLengthNeighboursAny(g: Graph, remaining: set<nat>, first: nat, cycleLength: int, pathLength: int, candidates: seq<nat>)
    requires first < |g| && remaining <= Range(|g|)
    requires forall i | 0 <= i < |candidates| :: candidates[i] in remaining
    ensures TryLengthNeighbours(g, remaining, first, cycleLength, pathLength, candidates)
      <==> exists i | 0 <= i < |candidates| ::
             CanBeCycleOfLength(g, remaining - {candidates[i]}, candidates[i], first, cycleLength, pathLength + 1)
    decreases |candidates|
  {
    if candidates != [] {
      TryLengthNeighboursAny(g, remaining, first, cycleLength, pathLength, candidates[1..]);
      var tail := candidates[1..];
      assert forall i | 0 <= i < |tail| :: tail[i] == candidates[i + 1];
    }
  }

  /**
    The path of pathLength vertices ending at last is continued by ext,
    drawn from the pool, into a closing path of exactly cycleLength vertices.
  */
  predicate ClosesAtLength(g: Graph, remaining: set<nat>, last: nat, first: nat, cycleLength: int, pathLength: int, ext: seq<nat>)
  {
    && Extends(g, remaining, last, ext)
    && Closes(g, first, last, ext)
    && pathLength + |ext| == cycleLength
  }

  lemma {:induction false} CanBeCycleOfLengthSound(g: Graph, remaining: set<nat>, last: nat, first: nat, cycleLength: int, pathLength: int)
    requires last < |g| && first < |g| && remaining <= Range(|g|)
    requires CanBeCycleOfLength(g, remaining, last, first, cycleLength, pathLength)
    ensures exists ext :: ClosesAtLength(g, remaining, last, first, cycleLength, pathLength, ext)
    decreases |remaining|
  {
    if pathLength == cycleLength && last in g[first] {
      assert ClosesAtLength(g, remaining, last, first, cycleLength, pathLength, []);
    } else {
      var candidates := Ascending(g[last] * remaining, |g|);
      TryLengthNeighboursAny(g, remaining, first, cycleLength, pathLength, candidates);
      var i :| 0 <= i < |candidates| &&
        CanBeCycleOfLength(g, remaining - {candidates[i]}, candidates[i], first, cycleLength, pathLength + 1);
      var next := candidates[i];
      CanBeCycleOfLengthSound(g, remaining - {next}, next, first, cycleLength, pathLength + 1);
      var rest :| ClosesAtLength(g, remaining - {next}, next, first, cycleLength, pathLength + 1, rest);
      ConsExtends(g, remaining, last, next, rest);
      assert ClosesAtLength(g, remaining, last, first, cycleLength, pathLength, [next] + rest);
    }
  }

  /** One unfolding of canBeCycleOfLength. */
  lemma CanBeCycleOfLengthCases(g: Graph, remaining: set<nat>, last: nat, first: nat, cycleLength: int, pathLength: int)
    requires last < |g| && first < |g| && remaining <= Range(|g|)
    ensures CanBeCycleOfLength(g, remaining, last, first, cycleLength, pathLength)
      <==> (pathLength == cycleLength && last in g[first])
           || (g[first] * remaining != {}
               && TryLengthNeighbours(g, remaining, first, cycleLength, pathLength, Ascending(g[last] * remaining, |g|)))
  {
  }

  /**
    A continuation either is empty, and then the path already closes at the
    target length, or starts with a pool neighbour of last, ends next to
    first, and its rest continues the child path.
  */
  lemma SplitClosesAtLength(g: Graph, remaining: set<nat>, last: nat, first: nat, cycleLength: int, pathLength: int, ext: seq<nat>)
    requires ClosesAtLength(g, remaining, last, first, cycleLength, pathLength, ext)
    ensures ext == [] ==> pathLength == cycleLength && last in g[first]
    ensures ext != [] ==>
      && g[first] * remaining != {}
      && ext[0] in remaining && Adjacent(g, last, ext[0])
      && ClosesAtLength(g, remaining - {ext[0]}, ext[0], first, cycleLength, pathLength + 1, ext[1..])
  {
    if ext != [] {
      var m := |ext|;
      assert ext[m - 1] in remaining && ext[m - 1] in g[first];
      assert ext[m - 1] in g[first] * remaining;
      SplitExtends(g, remaining, last, ext);
    }
  }

  lemma {:induction false} CanBeCycleOfLengthComplete(g: Graph, remaining: set<nat>, last: nat, first: nat, cycleLength: int, pathLength: int, ext: seq<nat>)
    requires last < |g| && first < |g| && remaining <= Range(|g|)
    requires ClosesAtLength(g, remaining, last, first, cycleLength, pathLength, ext)
    ensures CanBeCycleOfLength(g, remaining, last, first, cycleLength, pathLength)
    decreases |remaining|
  {
    hide CanBeCycleOfLength, TryLengthNeighbours, ClosesAtLength;
    CanBeCycleOfLengthCases(g, remaining, last, first, cycleLength, pathLength);
    SplitClosesAtLength(g, remaining, last, first, cycleLength, pathLength, ext);
    if !(pathLength == cycleLength && last in g[first]) {
      var next := ext[0];
      var candidates := Ascending(g[last] * remaining, |g|);
      assert next in candidates;
      CanBeCycleOfLengthComplete(g, remaining - {next}, next, first, cycleLength, pathLength + 1, ext[1..]);
      TryLengthNeighboursAny(g, remaining, first, cycleLength, pathLength, candidates);
    }
  }

  /**
    canBeCycleOfLength is exact: it returns true iff the path can be
    continued through pool vertices to a path of exactly cycleLength vertices
    whose end is a neighbour of first.
  */
  lemma CanBeCycleOfLengthCorrect(g: Graph, remaining: set<nat>, last: nat, first: nat, cycleLength: int, pathLength: int)
    requires last < |g| && first < |g| && remaining <= Range(|g|)
    ensures CanBeCycleOfLength(g, remaining, last, first, cycleLength, pathLength)
      <==> exists ext :: ClosesAtLength(g, remaining, last, first, cycleLength, pathLength, ext)
  {
    if CanBeCycleOfLength(g, remaining, last, first, cycleLength, pathLength) {
      CanBeCycleOfLengthSound(g, remaining, last, first, cycleLength, pathLength);
    }
    forall ext | ClosesAtLength(g, remaining, last, first, cycleLength, pathLength, ext)
      ensures CanBeCycleOfLength(g, remaining, last, first, cycleLength, pathLength)
    {
      CanBeCycleOfLengthComplete(g, remaining, last, first, cycleLength, pathLength, ext);
    }
  }

  /** A path already longer than the target is explored but never succeeds. */
  lemma PastTargetFails(g: Graph, remaining: set<nat>, last: nat, first: nat, cycleLength: int, pathLength: int)
    requires last < |g| && first < |g| && remaining <= Range(|g|)
    requires pathLength > cycleLength
    ensures !CanBeCycleOfLength(g, remaining, last, first, cycleLength, pathLength)
  {
    CanBeCycleOfLengthCorrect(g, remaining, last, first, cycleLength, pathLength);
  }

  // ---------------------------------------------------------------------
  // One start vertex: the seed paths last, s, second with second < last.

  /** The two nested seed loops of getCircumference around s, for one target length. */
  function TryLengthSeeds(g: Graph, included: set<nat>, s: nat, seeds: seq<(nat, nat)>, cycleLength: int): bool
    requires SeedsAround(g, included, s, seeds)
  {
    if seeds == [] then false
    else
      var (second, last) := seeds[0];
      CanBeCycleOfLength(g, included - {s, last, second}, last, second, cycleLength, 3)
      || TryLengthSeeds(g, included, s, seeds[1..], cycleLength)
  }

  lemma {:induction false} TryLengthSeedsAny(g: Graph, included: set<nat>, s: nat, seeds: seq<(nat, nat)>, cycleLength: int)
    requires SeedsAround(g, included, s, seeds)
    ensures TryLengthSeeds(g, included, s, seeds, cycleLength)
      <==> exists i | 0 <= i < |seeds| ::
             CanBeCycleOfLength(g, included - {s, seeds[i].1, seeds[i].0}, seeds[i].1, seeds[i].0, cycleLength, 3)
  {
    if seeds != [] {
      var tail := seeds[1..];
      assert SeedsAround(g, included, s, tail) by {
        assert forall i | 0 <= i < |tail| :: tail[i] == seeds[i + 1];
      }
      TryLengthSeedsAny(g, included, s, tail, cycleLength);
      assert forall i | 0 <= i < |tail| :: tail[i] == seeds[i + 1];
    }
  }

  /** Some cycle with exactly k vertices passes through s and stays inside included. */
  ghost predicate CycleThroughOfLength(g: Graph, included: set<nat>, s: nat, k: int)
  {
    exists c :: IsCycle(g, c) && Elems(c) <= included && s in c && |c| == k
  }

  /** Some cycle with exactly k vertices stays inside included. */
  ghost predicate HasCycleIn(g: Graph, included: set<nat>, k: int)
  {
    exists c :: IsCycle(g, c) && Elems(c) <= included && |c| == k
  }

  /** Whether the seeds around s reach a cycle of the target length. */
  function CycleThrough(g: Graph, included: set<nat>, s: nat, cycleLength: int): bool
    requires s < |g| && included <= Range(|g|)
  {
    TryLengthSeeds(g, included, s, SeedPairs(g, included, s), cycleLength)
  }

  lemma CycleThroughSound(g: Graph, included: set<nat>, s: nat, cycleLength: int)
    requires WellFormed(g) && s < |g| && included <= Range(|g|) && s in included
    requires CycleThrough(g, included, s, cycleLength)
    ensures CycleThroughOfLength(g, included, s, cycleLength)
  {
    hide CanBeCycleOfLength, TryLengthSeeds, IsCycle, WellFormed, ClosesAtLength, CycleThroughOfLength;
    var seeds := SeedPairs(g, included, s);
    TryLengthSeedsAny(g, included, s, seeds, cycleLength);
    var i :| 0 <= i < |seeds| &&
      CanBeCycleOfLength(g, included - {s, seeds[i].1, seeds[i].0}, seeds[i].1, seeds[i].0, cycleLength, 3);
    var (v1, v3) := seeds[i];
    assert (v1, v3) in seeds;
    var pool := included - {s, v3, v1};
    CanBeCycleOfLengthCorrect(g, pool, v3, v1, cycleLength, 3);
    var ext :| ClosesAtLength(g, pool, v3, v1, cycleLength, 3, ext);
    SeedCycleThrough(g, included, s, v1, v3, cycleLength, ext);
  }

  /** A seed pair with an extension closing at the target length gives a cycle through s of that length. */
  lemma SeedCycleThrough(g: Graph, included: set<nat>, s: nat, v1: nat, v3: nat, cycleLength: int, ext: seq<nat>)
    requires WellFormed(g) && s < |g| && included <= Range(|g|) && s in included
    requires v1 in g[s] * included && v3 in g[s] * included && v1 < v3
    requires ClosesAtLength(g, included - {s, v3, v1}, v3, v1, cycleLength, 3, ext)
    ensures CycleThroughOfLength(g, included, s, cycleLength)
  {
    var pool := included - {s, v3, v1};
    ExtensionGivesCycle(g, v1, s, v3, pool, ext);
    hide WellFormed, IsCycle;
    var c := [v1, s, v3] + ext;
    assert c[1] == s;
    assert Elems(ext) <= pool;
    assert IsCycle(g, c) && Elems(c) <= included && s in c && |c| == cycleLength;
  }

  lemma CycleThroughComplete(g: Graph, included: set<nat>, s: nat, c: seq<nat>)
    requires WellFormed(g) && s < |g| && included <= Range(|g|) && s in included
    requires IsCycle(g, c) && Elems(c) <= included && s in c
    ensures CycleThrough(g, included, s, |c|)
  {
    var v1, v3, ext := SeedOfCycle(g, c, s, true);
    var pool := included - {s, v3, v1};
    ExtendsWider(g, Elems(c) - {s, v1, v3}, pool, v3, ext);
    assert ClosesAtLength(g, pool, v3, v1, |c|, 3, ext);
    CanBeCycleOfLengthCorrect(g, pool, v3, v1, |c|, 3);
    var seeds := SeedPairs(g, included, s);
    assert (v1, v3) in seeds;
    var i :| 0 <= i < |seeds| && seeds[i] == (v1, v3);
    TryLengthSeedsAny(g, included, s, seeds, |c|);
  }

  /**
    The seeds around s find a cycle of the target length iff one passes
    through s inside the included vertices: fixing second < last loses no
    cycle, since every cycle can be read in the direction that puts its
    smaller s-neighbour first.
  */
  lemma CycleThroughCorrect(g: Graph, included: set<nat>, s: nat, cycleLength: int)
    requires WellFormed(g) && s < |g| && included <= Range(|g|) && s in included
    ensures CycleThrough(g, included, s, cycleLength) <==> CycleThroughOfLength(g, included, s, cycleLength)
  {
    if CycleThrough(g, included, s, cycleLength) {
      CycleThroughSound(g, included, s, cycleLength);
    }
    if CycleThroughOfLength(g, included, s, cycleLength) {
      var c :| IsCycle(g, c) && Elems(c) <= included && s in c && |c| == cycleLength;
      CycleThroughComplete(g, included, s, c);
    }
  }

  // ---------------------------------------------------------------------
  // getCircumference.

  /**
    How the j-loop of getCircumference ends for one target length: a cycle
    is found, the included set ran empty (the function then returns 0), or
    every try failed.
  */
  datatype Attempt = Found | Emptied | Exhausted

  /**
    The j-loop: tries start vertices of lowest degree one by one, forbidding
    each after its seeds are exhausted, for at most `tries` rounds.
  */
  function Attempts(g: Graph, forbidden: set<nat>, cycleLength: int, tries: nat): Attempt
    decreases tries
  {
    if tries == 0 then Exhausted
    else
      var included := Included(g, forbidden);
      if included == {} then Emptied
      else
        var s := LowestDegreeVertex(g, included);
        if CycleThrough(g, included, s, cycleLength) then Found
        else Attempts(g, forbidden + {s}, cycleLength, tries - 1)
  }

  /** The i-loop of getCircumference from target i downwards. */
  function CircumferenceFrom(g: Graph, excluded: set<nat>, i: int): (r: int)
    requires i <= |g|
    ensures r == 0 || 3 <= r <= i
    decreases i
  {
    if i <= 2 then 0
    else
      match Attempts(g, excluded, i - |excluded|, |g| - i + 1)
      case Found => i
      case Emptied => 0
      case Exhausted => CircumferenceFrom(g, excluded, i - 1)
  }

  /**
    getCircumference. The target length is i - |excluded| but the value
    returned is i; the only caller passes an empty excluded set.
  */
  function GetCircumference(g: Graph, excluded: set<nat>): (r: int)
    ensures r == 0 || 3 <= r <= |g|
  {
    CircumferenceFrom(g, excluded, |g|)
  }

  /** Found means a cycle of the target length among the vertices not forbidden. */
  lemma {:induction false} AttemptsFound(g: Graph, forbidden: set<nat>, cycleLength: int, tries: nat)
    requires WellFormed(g)
    requires Attempts(g, forbidden, cycleLength, tries) == Found
    ensures HasCycleIn(g, Included(g, forbidden), cycleLength)
    decreases tries
  {
    hide CycleThrough, LowestDegreeVertex;
    var included := Included(g, forbidden);
    var s := LowestDegreeVertex(g, included);
    if CycleThrough(g, included, s, cycleLength) {
      CycleThroughSound(g, included, s, cycleLength);
    } else {
      AttemptsFound(g, forbidden + {s}, cycleLength, tries - 1);
      var c :| IsCycle(g, c) && Elems(c) <= Included(g, forbidden + {s}) && |c| == cycleLength;
      assert Elems(c) <= included;
    }
  }

  /** Forbidding an included vertex off the cycle keeps the cycle and leaves one vertex fewer off it. */
  lemma ForbidOffCycle(g: Graph, forbidden: set<nat>, s: nat, onCycle: set<nat>)
    requires s in Included(g, forbidden) && s !in onCycle
    ensures Included(g, forbidden + {s}) == Included(g, forbidden) - {s}
    ensures |Included(g, forbidden + {s}) - onCycle| == |Included(g, forbidden) - onCycle| - 1
  {
    var smaller := Included(g, forbidden + {s});
    var off := smaller - onCycle;
    assert smaller == Included(g, forbidden) - {s};
    assert Included(g, forbidden) - onCycle == off + {s} && s !in off;
  }

  /**
    A cycle among the vertices not forbidden is found as long as fewer
    vertices lie off it than there are tries left: each exhausted start
    vertex is off every cycle of the target length, and forbidding it uses
    up one of those off-cycle vertices.
  */
  lemma {:induction false} AttemptsComplete(g: Graph, forbidden: set<nat>, c: seq<nat>, tries: nat)
    requires WellFormed(g)
    requires IsCycle(g, c) && Elems(c) <= Included(g, forbidden)
    requires |Included(g, forbidden) - Elems(c)| < tries
    ensures Attempts(g, forbidden, |c|, tries) == Found
    decreases tries
  {
    hide CycleThrough, LowestDegreeVertex, Included, Complement;
    var included := Included(g, forbidden);
    assert c[0] in included;
    var s := LowestDegreeVertex(g, included);
    if CycleThrough(g, included, s, |c|) {
      assert included != {};
      assert Attempts(g, forbidden, |c|, tries) == Found;
    } else {
      assert s !in Elems(c) by {
        if s in c {
          CycleThroughComplete(g, included, s, c);
        }
      }
      ForbidOffCycle(g, forbidden, s, Elems(c));
      AttemptsComplete(g, forbidden + {s}, c, tries - 1);
      assert Attempts(g, forbidden, |c|, tries) == Attempts(g, forbidden + {s}, |c|, tries - 1);
    }
  }

  /** The included set runs empty only if it had fewer vertices than there were tries. */
  lemma {:induction false} AttemptsEmptied(g: Graph, forbidden: set<nat>, cycleLength: int, tries: nat)
    requires Attempts(g, forbidden, cycleLength, tries) == Emptied
    ensures |Included(g, forbidden)| < tries
    decreases tries
  {
    hide CycleThrough, LowestDegreeVertex;
    var included := Included(g, forbidden);
    if included != {} {
      var s := LowestDegreeVertex(g, included);
      AttemptsEmptied(g, forbidden + {s}, cycleLength, tries - 1);
      assert Included(g, forbidden + {s}) == included - {s};
    }
  }

  /** A cycle inside included has at most |included| vertices. */
  lemma CycleFits(g: Graph, included: set<nat>, c: seq<nat>)
    requires IsCycle(g, c) && Elems(c) <= included
    ensures |c| <= |included|
  {
    DistinctNotInSmaller(c, included);
  }

  /**
    The i-loop, entered when no cycle of the included vertices is longer than
    the current target, returns the largest target length that has a cycle,
    or 0 when there is none.
  */
  lemma {:induction false} CircumferenceFromCorrect(g: Graph, excluded: set<nat>, i: int)
    requires WellFormed(g) && excluded <= Range(|g|) && i <= |g|
    requires forall k | HasCycleIn(g, Included(g, excluded), k) :: k <= i - |excluded|
    ensures var r := CircumferenceFrom(g, excluded, i);
      && (r != 0 ==> HasCycleIn(g, Included(g, excluded), r - |excluded|))
      && (r != 0 ==> forall k | HasCycleIn(g, Included(g, excluded), k) :: k <= r - |excluded|)
      && (r == 0 ==> forall k :: !HasCycleIn(g, Included(g, excluded), k))
    decreases i
  {
    hide Attempts, CycleThrough, LowestDegreeVertex;
    var included := Included(g, excluded);
    if i <= 2 {
      forall k | HasCycleIn(g, included, k) ensures false {
      }
    } else {
      var target := i - |excluded|;
      var tries := |g| - i + 1;
      match Attempts(g, excluded, target, tries)
      case Found =>
        AttemptsFound(g, excluded, target, tries);
      case Emptied =>
        EmptiedBelowExcluded(g, excluded, i);
        forall k | HasCycleIn(g, included, k) ensures false {
        }
      case Exhausted =>
        NoCycleAtTarget(g, excluded, i);
        CircumferenceFromCorrect(g, excluded, i - 1);
    }
  }

  /** When no start vertex gives a cycle of the target length, the included vertices hold none. */
  lemma NoCycleAtTarget(g: Graph, excluded: set<nat>, i: int)
    requires WellFormed(g) && excluded <= Range(|g|) && 2 < i <= |g|
    requires Attempts(g, excluded, i - |excluded|, |g| - i + 1) != Found
    ensures !HasCycleIn(g, Included(g, excluded), i - |excluded|)
  {
    hide Attempts;
    var included := Included(g, excluded);
    if HasCycleIn(g, included, i - |excluded|) {
      var c :| IsCycle(g, c) && Elems(c) <= included && |c| == i - |excluded|;
      ComplementSize(excluded, |g|);
      DistinctCard(c);
      assert |included - Elems(c)| == |included| - |c|;
      AttemptsComplete(g, excluded, c, |g| - i + 1);
    }
  }

  /** The included set can only run empty once the target length is no longer positive. */
  lemma EmptiedBelowExcluded(g: Graph, excluded: set<nat>, i: int)
    requires excluded <= Range(|g|) && i <= |g|
    requires Attempts(g, excluded, i - |excluded|, |g| - i + 1) == Emptied
    ensures i <= |excluded|
  {
    hide Attempts;
    AttemptsEmptied(g, excluded, i - |excluded|, |g| - i + 1);
    ComplementSize(excluded, |g|);
  }


  /**
    getCircumference is the length of a longest cycle among the vertices
    not excluded, shifted up by |excluded|, and 0 exactly when those
    vertices hold no cycle.
  */
  lemma GetCircumferenceCorrect(g: Graph, excluded: set<nat>)
    requires WellFormed(g) && excluded <= Range(|g|)
    ensures var r := GetCircumference(g, excluded);
      && (r != 0 ==> HasCycleIn(g, Included(g, excluded), r - |excluded|))
      && (r != 0 ==> forall k | HasCycleIn(g, Included(g, excluded), k) :: k <= r - |excluded|)
      && (r == 0 <==> forall k :: !HasCycleIn(g, Included(g, excluded), k))
  {
    var included := Included(g, excluded);
    ComplementSize(excluded, |g|);
    forall k | HasCycleIn(g, included, k) ensures k <= |g| - |excluded| {
      var c :| IsCycle(g, c) && Elems(c) <= included && |c| == k;
      CycleFits(g, included, c);
    }
    CircumferenceFromCorrect(g, excluded, |g|);
  }

  /**
    The call the program makes: with nothing excluded the result is the
    circumference, the largest number of vertices on a cycle, or 0 for an
    acyclic graph.
  */
  lemma CircumferenceOfGraph(g: Graph)
    requires WellFormed(g)
    ensures var r := GetCircumference(g, {});
      && (r != 0 ==> 3 <= r <= |g| && HasCycleOfLength(g, r))
      && (forall k: nat | HasCycleOfLength(g, k) :: k <= r)
      && (r == 0 <==> forall k: nat :: !HasCycleOfLength(g, k))
  {
    var r := GetCircumference(g, {});
    GetCircumferenceCorrect(g, {});
    var all := Included(g, {});
    forall k: nat ensures HasCycleOfLength(g, k) <==> HasCycleIn(g, all, k) {
      if HasCycleOfLength(g, k) {
        var c :| IsCycle(g, c) && |c| == k;
        assert Elems(c) <= all;
      }
    }
  }
}
