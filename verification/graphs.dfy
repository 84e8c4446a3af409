/**
  Simple undirected graphs as adjacency sets, and the path and cycle notions
  the searches are about.
*/
module Graphs {
  import opened VertexSets

  /** g[v] is the neighbour set (adjacencyList[v]) of vertex v; |g| is the order. */
  type Graph = seq<set<nat>>

  /** Neighbour sets stay inside the order, there are no loops, and adjacency is symmetric. */
  predicate WellFormed(g: Graph)
  {
    && (forall v | 0 <= v < |g| :: g[v] <= Range(|g|) && v !in g[v])
    && (forall u, v | 0 <= u < |g| && 0 <= v < |g| :: v in g[u] <==> u in g[v])
  }

  /** contains(adjacencyList[u], v). */
  predicate Adjacent(g: Graph, u: nat, v: nat)
  {
    u < |g| && v in g[u]
  }

  /** In a well-formed graph adjacency goes both ways. */
  lemma AdjacentSymmetric(g: Graph, u: nat, v: nat)
    requires WellFormed(g) && Adjacent(g, u, v)
    ensures Adjacent(g, v, u)
  {
  }

  /** The vertices not banned by the excluded-vertex mask. */
  function Included(g: Graph, excluded: set<nat>): (r: set<nat>)
    ensures r <= Range(|g|)
  {
    Complement(excluded, |g|)
  }

  function Elems(s: seq<nat>): set<nat>
  {
    set x | x in s
  }

  predicate Distinct(s: seq<nat>)
  {
    forall i, j | 0 <= i < j < |s| :: s[i] != s[j]
  }

  /** Consecutive entries are adjacent. */
  predicate Walk(g: Graph, p: seq<nat>)
  {
    forall i | 0 <= i < |p| - 1 :: Adjacent(g, p[i], p[i + 1])
  }

  predicate IsPath(g: Graph, p: seq<nat>)
  {
    && Distinct(p)
    && (forall i | 0 <= i < |p| :: p[i] < |g|)
    && Walk(g, p)
  }

  /** A cycle with |c| vertices, listed in order; the last one is adjacent to the first. */
  predicate IsCycle(g: Graph, c: seq<nat>)
  {
    && |c| >= 3
    && IsPath(g, c)
    && Adjacent(g, c[|c| - 1], c[0])
  }

  /** A cycle through exactly the vertices of s. */
  predicate HamiltonianCycle(g: Graph, s: set<nat>, c: seq<nat>)
  {
    IsCycle(g, c) && Elems(c) == s
  }

  /** The subgraph spanned by s is Hamiltonian. */
  ghost predicate Hamiltonian(g: Graph, s: set<nat>)
  {
    exists c :: HamiltonianCycle(g, s, c)
  }

  /** A path from a to b through exactly the vertices of s. */
  predicate HamiltonianPath(g: Graph, s: set<nat>, a: nat, b: nat, p: seq<nat>)
  {
    && IsPath(g, p)
    && |p| >= 2
    && p[0] == a
    && p[|p| - 1] == b
    && Elems(p) == s
  }

  lemma HamiltonianPathElems(g: Graph, s: set<nat>, a: nat, b: nat, p: seq<nat>)
    requires HamiltonianPath(g, s, a, b, p)
    ensures Elems(p) == s
  {
  }

  ghost predicate HasHamiltonianPath(g: Graph, s: set<nat>, a: nat, b: nat)
  {
    exists p :: HamiltonianPath(g, s, a, b, p)
  }

  ghost predicate HasCycleOfLength(g: Graph, k: nat)
  {
    exists c :: IsCycle(g, c) && |c| == k
  }

  /** A path without chords: only consecutive vertices are adjacent. */
  predicate IsInducedPath(g: Graph, p: seq<nat>)
  {
    && IsPath(g, p)
    && forall i, j | 0 <= i && i + 1 < j < |p| :: !Adjacent(g, p[i], p[j])
  }

  /**
    Read as a cycle, c has no chord: two of its vertices are adjacent only
    when they are consecutive, or the first and the last.
  */
  predicate NoChords(g: Graph, c: seq<nat>)
  {
    forall i, j | 0 <= i && i + 1 < j < |c| && !(i == 0 && j == |c| - 1) :: !Adjacent(g, c[i], c[j])
  }

  /** A cycle without chords: only cyclically consecutive vertices are adjacent. */
  predicate IsInducedCycle(g: Graph, c: seq<nat>)
  {
    IsCycle(g, c) && NoChords(g, c)
  }

  ghost predicate HasInducedCycleOfLength(g: Graph, k: nat)
  {
    exists c :: IsInducedCycle(g, c) && |c| == k
  }

  ghost predicate HasInducedPathOfLength(g: Graph, edges: nat)
  {
    exists p :: IsInducedPath(g, p) && |p| == edges + 1
  }

  /** The union of the neighbour sets of the vertices in q. */
  function NeighboursOf(g: Graph, q: seq<nat>): (r: set<nat>)
    requires forall k | 0 <= k < |q| :: q[k] < |g|
    ensures forall v {:trigger v in r} :: v in r <==> exists k | 0 <= k < |q| :: v in g[q[k]]
  {
    if q == [] then {}
    else
      var rest := NeighboursOf(g, q[1..]);
      assert forall k | 1 <= k < |q| :: q[k] == q[1..][k - 1];
      g[q[0]] + rest
  }

  /**
    A path ending at `last` can be continued by ext: the new vertices are
    distinct, drawn from pool, and each is adjacent to its predecessor.
  */
  predicate Extends(g: Graph, pool: set<nat>, last: nat, ext: seq<nat>)
  {
    && Distinct(ext)
    && (forall i | 0 <= i < |ext| :: ext[i] in pool)
    && Walk(g, [last] + ext)
  }

  /** An extension drawn from a pool is also drawn from any larger pool. */
  lemma ExtendsWider(g: Graph, pool: set<nat>, wider: set<nat>, last: nat, ext: seq<nat>)
    requires Extends(g, pool, last, ext) && pool <= wider
    ensures Extends(g, wider, last, ext)
  {
  }

  /** The end vertex of a path ending at last once ext is appended. */
  function End(last: nat, ext: seq<nat>): nat
  {
    if ext == [] then last else ext[|ext| - 1]
  }

  /** The extended path closes up: its end is a neighbour of first. */
  predicate Closes(g: Graph, first: nat, last: nat, ext: seq<nat>)
  {
    Adjacent(g, first, End(last, ext))
  }

  lemma DistinctCard(s: seq<nat>)
    requires Distinct(s)
    ensures |Elems(s)| == |s|
  {
    if s != [] {
      var t := s[1..];
      assert Distinct(t);
      DistinctCard(t);
      assert Elems(s) == Elems(t) + {s[0]};
      assert s[0] !in Elems(t);
    }
  }

  /** A set of vertices strictly smaller than a distinct sequence cannot hold all of it. */
  lemma DistinctNotInSmaller(s: seq<nat>, pool: set<nat>)
    requires Distinct(s)
    requires Elems(s) <= pool
    ensures |s| <= |pool|
  {
    DistinctCard(s);
    assert |Elems(s)| <= |pool| by {
      SubsetCard(Elems(s), pool);
    }
  }

  lemma SubsetCard(a: set<nat>, b: set<nat>)
    requires a <= b
    ensures |a| <= |b|
  {
    assert b == a + (b - a);
  }

  // ---------------------------------------------------------------------
  // Growing and shrinking an extension by its first vertex.

  lemma ConsDistinct(next: nat, ext: seq<nat>)
    requires Distinct(ext) && next !in Elems(ext)
    ensures Distinct([next] + ext)
  {
    var e := [next] + ext;
    forall i, j | 0 <= i < j < |e| ensures e[i] != e[j] {
      assert e[j] == ext[j - 1];
      if i > 0 { assert e[i] == ext[i - 1]; } else { assert ext[j - 1] in Elems(ext); }
    }
  }

  lemma ConsWalk(g: Graph, last: nat, next: nat, ext: seq<nat>)
    requires Adjacent(g, last, next) && Walk(g, [next] + ext)
    ensures Walk(g, [last, next] + ext)
  {
    var w := [next] + ext;
    var v := [last, next] + ext;
    forall i | 0 <= i < |v| - 1 ensures Adjacent(g, v[i], v[i + 1]) {
      if i > 0 {
        assert v[i] == w[i - 1] && v[i + 1] == w[i];
      }
    }
  }

  lemma ConsElems(next: nat, ext: seq<nat>)
    ensures Elems([next] + ext) == {next} + Elems(ext)
    ensures End(next, ext) == End(next, ext) && |[next] + ext| == |ext| + 1
  {
    var e := [next] + ext;
    forall x | x in Elems(ext) ensures x in Elems(e) {
      var k :| 0 <= k < |ext| && ext[k] == x;
      assert e[k + 1] == x;
    }
  }

  /** Prefixing an extension of next (avoiding next) with next extends last. */
  lemma ConsExtends(g: Graph, pool: set<nat>, last: nat, next: nat, ext: seq<nat>)
    requires next in pool && Adjacent(g, last, next)
    requires Extends(g, pool - {next}, next, ext)
    ensures Extends(g, pool, last, [next] + ext)
    ensures Elems([next] + ext) == {next} + Elems(ext)
    ensures End(last, [next] + ext) == End(next, ext)
  {
    assert next !in Elems(ext);
    ConsDistinct(next, ext);
    ConsWalk(g, last, next, ext);
    assert [last] + ([next] + ext) == [last, next] + ext;
    ConsElems(next, ext);
    var e := [next] + ext;
    assert forall i | 0 <= i < |e| :: e[i] in pool by {
      forall i | 0 <= i < |e| ensures e[i] in pool {
        if i > 0 { assert e[i] == ext[i - 1]; }
      }
    }
  }

  /** The first vertex of an extension is a neighbour of last, and the rest extends it. */
  lemma SplitExtends(g: Graph, pool: set<nat>, last: nat, ext: seq<nat>)
    requires Extends(g, pool, last, ext) && ext != []
    ensures ext[0] in pool && Adjacent(g, last, ext[0])
    ensures Extends(g, pool - {ext[0]}, ext[0], ext[1..])
    ensures Elems(ext) == {ext[0]} + Elems(ext[1..]) && ext[0] !in Elems(ext[1..])
    ensures End(last, ext) == End(ext[0], ext[1..])
  {
    var rest := ext[1..];
    var w := [last] + ext;
    assert w[0] == last && w[1] == ext[0];
    assert Adjacent(g, w[0], w[1]);
    assert [ext[0]] + rest == ext;
    assert Walk(g, ext) by {
      forall i | 0 <= i < |ext| - 1 ensures Adjacent(g, ext[i], ext[i + 1]) {
        assert w[i + 1] == ext[i] && w[i + 2] == ext[i + 1];
      }
    }
    assert forall i | 0 <= i < |rest| :: rest[i] == ext[i + 1];
    assert ext[0] !in Elems(rest) by {
      forall k | 0 <= k < |rest| ensures rest[k] != ext[0] {
        assert rest[k] == ext[k + 1];
      }
    }
    ConsElems(ext[0], rest);
  }
}
