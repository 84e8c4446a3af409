/**
  How the drivers start a cycle search: a vertex of lowest degree among the
  included vertices, and the ordered pairs of its included neighbours that
  flank it on the initial three-vertex path. Every cycle through the start
  vertex is found from exactly such a pair.
*/
module Seeds {
  import opened VertexSets
  import opened Graphs
  import opened Cycles

  /**
    The degree the start-vertex scan compares: the first included vertex is
    scored by its full degree, every later one by its degree inside the
    included vertices.
  */
  function ScanDegree(g: Graph, included: set<nat>, first: nat, v: nat): nat
    requires v < |g|
  {
    if v == first then |g[v]| else |g[v] * included|
  }

  /** The starting vertex of isHamiltonian and getCircumference. */
  function LowestDegreeVertex(g: Graph, included: set<nat>): (s: nat)
    requires included != {} && included <= Range(|g|)
    ensures s in included
  {
    var first := First(included, |g|);
    LowestFrom(g, included, first, first + 1, first)
  }

  /**
    The forEachAfterIndex scan over the bit positions i, i+1, ... of the
    included set: best is replaced only by a strictly smaller scan degree.
  */
  function LowestFrom(g: Graph, included: set<nat>, first: nat, i: nat, best: nat): (s: nat)
    requires included <= Range(|g|) && best in included
    ensures s in included && (s == best || i <= s)
    decreases |g| - i
  {
    if i >= |g| then best
    else if i in included && ScanDegree(g, included, first, best) > ScanDegree(g, included, first, i) then
      LowestFrom(g, included, first, i + 1, i)
    else LowestFrom(g, included, first, i + 1, best)
  }

  /** The scan from i on ends at the earliest vertex of least scan degree among best and the vertices it visits. */
  lemma {:induction false} LowestFromIsEarliestMinimum(g: Graph, included: set<nat>, first: nat, i: nat, best: nat)
    requires included <= Range(|g|) && best in included && best < i
    ensures var s := LowestFrom(g, included, first, i, best);
      && ScanDegree(g, included, first, s) <= ScanDegree(g, included, first, best)
      && (s != best ==> ScanDegree(g, included, first, s) < ScanDegree(g, included, first, best))
      && (forall v | v in included && i <= v :: ScanDegree(g, included, first, s) <= ScanDegree(g, included, first, v))
      && (forall v | v in included && i <= v < s :: ScanDegree(g, included, first, s) < ScanDegree(g, included, first, v))
    decreases |g| - i
  {
    hide ScanDegree;
    if i < |g| {
      if i in included && ScanDegree(g, included, first, best) > ScanDegree(g, included, first, i) {
        LowestFromIsEarliestMinimum(g, included, first, i + 1, i);
      } else {
        LowestFromIsEarliestMinimum(g, included, first, i + 1, best);
      }
    }
  }

  /**
    The start vertex is the earliest included vertex of least scan degree:
    no included vertex scores lower, and every earlier one scores higher.
  */
  lemma LowestDegreeVertexIsEarliestMinimum(g: Graph, included: set<nat>)
    requires included != {} && included <= Range(|g|)
    ensures var first := First(included, |g|);
      var s := LowestDegreeVertex(g, included);
      && (forall v | v in included :: ScanDegree(g, included, first, s) <= ScanDegree(g, included, first, v))
      && (forall v | v in included && v < s :: ScanDegree(g, included, first, s) < ScanDegree(g, included, first, v))
  {
    var first := First(included, |g|);
    FirstIsLeast(included, |g|);
    LowestFromIsEarliestMinimum(g, included, first, first + 1, first);
  }

  /** (a, b) followed by (a, ys[i]) for each i. */
  function PairsWith(a: nat, ys: seq<nat>): (ps: seq<(nat, nat)>)
    ensures forall p {:trigger p in ps} :: p in ps <==> p.0 == a && p.1 in ys
  {
    if ys == [] then [] else [(a, ys[0])] + PairsWith(a, ys[1..])
  }

  /**
    The nested loops forEach(second, N) forEachAfterIndex(last, N, second):
    every pair of members of N with the first below the second, once each.
  */
  function OrderedPairs(xs: seq<nat>): (ps: seq<(nat, nat)>)
    requires Increasing(xs)
    ensures forall p {:trigger p in ps} :: p in ps <==> p.0 in xs && p.1 in xs && p.0 < p.1
  {
    if xs == [] then []
    else
      var rest := OrderedPairs(xs[1..]);
      assert forall x | x in xs :: x == xs[0] || x in xs[1..];
      assert forall x | x in xs[1..] :: x > xs[0];
      PairsWith(xs[0], AfterIndex(xs, xs[0])) + rest
  }

  /** Every seed (second, last) holds two included neighbours of s, second < last. */
  predicate SeedsAround(g: Graph, included: set<nat>, s: nat, seeds: seq<(nat, nat)>)
  {
    && s < |g| && included <= Range(|g|)
    && forall i | 0 <= i < |seeds| :: seeds[i].0 in g[s] * included && seeds[i].1 in g[s] * included && seeds[i].0 < seeds[i].1
  }

  /** The seed pairs (second, last) around s with second < last, both included neighbours of s. */
  function SeedPairs(g: Graph, included: set<nat>, s: nat): (ps: seq<(nat, nat)>)
    requires s < |g| && included <= Range(|g|)
    ensures forall p {:trigger p in ps} :: p in ps <==> p.0 in g[s] * included && p.1 in g[s] * included && p.0 < p.1
    ensures SeedsAround(g, included, s, ps)
  {
    var ps := OrderedPairs(Ascending(g[s] * included, |g|));
    assert forall i | 0 <= i < |ps| :: ps[i] in ps;
    ps
  }

  /**
    A cycle through s, read from s's neighbour v1 round to its other
    neighbour v3 (v1 < v3 when up, v1 > v3 otherwise): the part after v3 is
    an extension of v3 through the rest of the cycle that closes at v1.
  */
  lemma SeedOfCycle(g: Graph, c: seq<nat>, s: nat, up: bool) returns (v1: nat, v3: nat, ext: seq<nat>)
    requires WellFormed(g)
    requires IsCycle(g, c) && s in c
    ensures Adjacent(g, s, v1) && Adjacent(g, s, v3)
    ensures v1 in Elems(c) && v3 in Elems(c) && v1 != s && v3 != s
    ensures up ==> v1 < v3
    ensures !up ==> v1 > v3
    ensures Extends(g, Elems(c) - {s, v1, v3}, v3, ext)
    ensures Elems(ext) == Elems(c) - {s, v1, v3}
    ensures Closes(g, v1, v3, ext)
    ensures |ext| == |c| - 3
  {
    var e := OrientAt(g, c, s, up);
    CycleGivesExtension(g, e);
    assert e[0] in Elems(e) && e[2] in Elems(e);
    v1, v3, ext := e[0], e[2], e[3..];
  }

  /** The three seed vertices are distinct members of the included set. */
  lemma SeedCard(g: Graph, included: set<nat>, s: nat, v1: nat, v3: nat)
    requires WellFormed(g) && s < |g|
    requires v1 in g[s] * included && v3 in g[s] * included && v1 != v3 && s in included
    ensures s != v1 && s != v3
    ensures {s, v1, v3} <= included
    ensures |included - {s, v1, v3}| == |included| - 3
  {
    assert s !in g[s];
    assert |{s, v1, v3}| == 3;
    assert included == (included - {s, v1, v3}) + {s, v1, v3};
  }
}
