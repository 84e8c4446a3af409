/**
  Facts about cycles written as vertex sequences: rotating and re-orienting a
  cycle, and cutting a cycle open at a seed path v1, v2, v3 so that the rest
  of it is an extension a search can find. These justify the seed choices
  of the drivers (a vertex of lowest degree in the middle, the outer seed
  vertices in a fixed order).
*/
module Cycles {
  import opened VertexSets
  import opened Graphs

  function RotateLeft(c: seq<nat>): (d: seq<nat>)
    requires |c| > 0
    ensures |d| == |c|
  {
    c[1..] + [c[0]]
  }

  lemma RotateLeftCycle(g: Graph, c: seq<nat>)
    requires IsCycle(g, c)
    ensures IsCycle(g, RotateLeft(c))
    ensures Elems(RotateLeft(c)) == Elems(c)
  {
    var d := RotateLeft(c);
    var m := |c|;
    assert forall k | 0 <= k < m - 1 :: d[k] == c[k + 1];
    assert d[m - 1] == c[0];
    assert Distinct(d) by {
      forall i, j | 0 <= i < j < m ensures d[i] != d[j] {
        if j == m - 1 {
          assert d[i] == c[i + 1];
        } else {
          assert d[i] == c[i + 1] && d[j] == c[j + 1];
        }
      }
    }
    assert Walk(g, d) by {
      forall i | 0 <= i < m - 1 ensures Adjacent(g, d[i], d[i + 1]) {
        if i < m - 2 {
          assert d[i] == c[i + 1] && d[i + 1] == c[i + 2];
        }
      }
    }
    assert Elems(d) == Elems(c) by {
      forall x | x in Elems(c) ensures x in Elems(d) {
        var k :| 0 <= k < m && c[k] == x;
        if k == 0 { assert d[m - 1] == x; } else { assert d[k - 1] == x; }
      }
    }
  }

  /** Positions x and y are neighbours on a cycle of m positions. */
  predicate CyclicNeighbours(m: nat, x: nat, y: nat)
  {
    y == x + 1 || x == y + 1 || (x == 0 && y == m - 1) || (y == 0 && x == m - 1)
  }

  /** NoChords in either order of positions: only cyclic neighbours can be adjacent. */
  lemma ChordFree(g: Graph, c: seq<nat>, x: nat, y: nat)
    requires WellFormed(g) && NoChords(g, c)
    requires x < |c| && y < |c| && x != y && !CyclicNeighbours(|c|, x, y)
    ensures !Adjacent(g, c[x], c[y])
  {
    if x > y {
      assert !Adjacent(g, c[y], c[x]);
    }
  }

  lemma RotateLeftNoChords(g: Graph, c: seq<nat>)
    requires WellFormed(g) && |c| >= 3 && NoChords(g, c)
    ensures NoChords(g, RotateLeft(c))
  {
    var d := RotateLeft(c);
    var m := |c|;
    forall a, b | 0 <= a && a + 1 < b < m && !(a == 0 && b == m - 1) ensures !Adjacent(g, d[a], d[b]) {
      if b < m - 1 {
        assert d[a] == c[a + 1] && d[b] == c[b + 1];
        ChordFree(g, c, a + 1, b + 1);
      } else {
        assert d[a] == c[a + 1] && d[b] == c[0];
        ChordFree(g, c, a + 1, 0);
      }
    }
  }

  /** Rotates a cycle until the vertex at position p moves to position 1. */
  lemma {:induction false} RotateToSecond(g: Graph, c: seq<nat>, p: nat) returns (d: seq<nat>)
    requires IsCycle(g, c)
    requires p < |c|
    ensures IsCycle(g, d)
    ensures Elems(d) == Elems(c) && |d| == |c|
    ensures d[1] == c[p]
    ensures WellFormed(g) && NoChords(g, c) ==> NoChords(g, d)
    decreases if p == 0 then |c| else p
  {
    if p == 1 {
      d := c;
    } else {
      var r := RotateLeft(c);
      RotateLeftCycle(g, c);
      if WellFormed(g) && NoChords(g, c) {
        RotateLeftNoChords(g, c);
      }
      if p == 0 {
        assert r[|c| - 1] == c[0];
        d := RotateToSecond(g, r, |c| - 1);
      } else {
        assert r[p - 1] == c[p];
        d := RotateToSecond(g, r, p - 1);
      }
    }
  }

  /**
    The same cycle traversed the other way round, arranged so that positions
    0 and 2 swap while position 1 stays.
  */
  function Flip(d: seq<nat>): (e: seq<nat>)
    requires |d| >= 3
    ensures |e| == |d|
    ensures e[0] == d[2] && e[1] == d[1] && e[2] == d[0]
  {
    seq(|d|, k requires 0 <= k < |d| => if k < 3 then d[2 - k] else d[|d| + 2 - k])
  }

  lemma FlipCycle(g: Graph, d: seq<nat>)
    requires WellFormed(g)
    requires IsCycle(g, d)
    ensures IsCycle(g, Flip(d))
    ensures Elems(Flip(d)) == Elems(d)
  {
    var e := Flip(d);
    var m := |d|;
    FlipDistinct(d);
    FlipWalk(g, d);
    FlipElems(d);
    assert forall k | 0 <= k < m :: e[k] in Elems(d);
  }

  lemma FlipDistinct(d: seq<nat>)
    requires |d| >= 3 && Distinct(d)
    ensures Distinct(Flip(d))
  {
    var e := Flip(d);
    var m := |d|;
    forall i, j | 0 <= i < j < m ensures e[i] != e[j] {
      var a := if i < 3 then 2 - i else m + 2 - i;
      var b := if j < 3 then 2 - j else m + 2 - j;
      assert a != b;
      assert e[i] == d[a] && e[j] == d[b];
    }
  }

  /** Read backwards, the consecutive pairs of a closed walk are still adjacent. */
  lemma FlipWalk(g: Graph, d: seq<nat>)
    requires WellFormed(g)
    requires |d| >= 3 && Walk(g, d) && Adjacent(g, d[|d| - 1], d[0])
    requires forall i | 0 <= i < |d| :: d[i] < |g|
    ensures Walk(g, Flip(d)) && Adjacent(g, Flip(d)[|d| - 1], Flip(d)[0])
  {
    var e := Flip(d);
    var m := |d|;
    forall k | 0 <= k < m - 1 ensures Adjacent(g, e[k], e[k + 1]) {
      if k == 0 {
        assert Adjacent(g, d[1], d[2]);
      } else if k == 1 {
        assert Adjacent(g, d[0], d[1]);
      } else if k == 2 {
        assert e[3] == d[m - 1];
      } else {
        assert e[k] == d[m + 2 - k] && e[k + 1] == d[m + 1 - k];
        assert Adjacent(g, d[m + 1 - k], d[m + 2 - k]);
      }
    }
    if m == 3 {
      assert e[2] == d[0];
    } else {
      assert e[m - 1] == d[3];
      assert Adjacent(g, d[2], d[3]);
    }
  }

  lemma FlipElems(d: seq<nat>)
    requires |d| >= 3
    ensures Elems(Flip(d)) == Elems(d)
  {
    var e := Flip(d);
    var m := |d|;
    forall x | x in Elems(d) ensures x in Elems(e) {
      var k :| 0 <= k < m && d[k] == x;
      if k < 3 { assert e[2 - k] == x; } else { assert e[m + 2 - k] == x; }
    }
  }

  lemma FlipNoChords(g: Graph, d: seq<nat>)
    requires WellFormed(g) && |d| >= 3 && NoChords(g, d)
    ensures NoChords(g, Flip(d))
  {
    var e := Flip(d);
    var m := |d|;
    forall a, b | 0 <= a && a + 1 < b < m && !(a == 0 && b == m - 1) ensures !Adjacent(g, e[a], e[b]) {
      var x := if a < 3 then 2 - a else m + 2 - a;
      var y := if b < 3 then 2 - b else m + 2 - b;
      assert e[a] == d[x] && e[b] == d[y];
      ChordFree(g, d, x, y);
    }
  }

  /**
    Any cycle through s can be written with s in position 1 and its two
    cycle-neighbours in positions 0 and 2 in either order: the seed v1, s, v3
    with v1 < v3 (up) or v1 > v3 (not up) covers every cycle through s.
  */
  lemma OrientAt(g: Graph, c: seq<nat>, s: nat, up: bool) returns (e: seq<nat>)
    requires WellFormed(g)
    requires IsCycle(g, c) && s in c
    ensures IsCycle(g, e) && Elems(e) == Elems(c) && |e| == |c|
    ensures e[1] == s
    ensures up ==> e[0] < e[2]
    ensures !up ==> e[0] > e[2]
    ensures NoChords(g, c) ==> NoChords(g, e)
  {
    var p :| 0 <= p < |c| && c[p] == s;
    var d := RotateToSecond(g, c, p);
    assert d[0] != d[2];
    if (up && d[0] < d[2]) || (!up && d[0] > d[2]) {
      e := d;
    } else {
      e := Flip(d);
      FlipCycle(g, d);
      if NoChords(g, c) {
        FlipNoChords(g, d);
      }
    }
  }

  /**
    Cutting a cycle open after its first three vertices: the rest is an
    extension of the path e[2] through the other vertices that closes at e[0].
  */
  lemma CycleGivesExtension(g: Graph, e: seq<nat>)
    requires WellFormed(g)
    requires IsCycle(g, e)
    ensures Adjacent(g, e[1], e[0]) && Adjacent(g, e[1], e[2])
    ensures Extends(g, Elems(e) - {e[0], e[1], e[2]}, e[2], e[3..])
    ensures Closes(g, e[0], e[2], e[3..])
    ensures |e[3..]| == |e| - 3
    ensures Elems(e[3..]) == Elems(e) - {e[0], e[1], e[2]}
  {
    var ext := e[3..];
    assert [e[2]] + ext == e[2..];
    assert Adjacent(g, e[0], e[1]);
    assert Walk(g, [e[2]] + ext) by {
      forall i | 0 <= i < |ext| ensures Adjacent(g, ([e[2]] + ext)[i], ([e[2]] + ext)[i + 1]) {
        assert ([e[2]] + ext)[i] == e[i + 2];
      }
    }
    assert forall i | 0 <= i < |ext| :: ext[i] == e[i + 3];
    assert Distinct(ext);
    assert forall i | 0 <= i < |ext| :: ext[i] in Elems(e) - {e[0], e[1], e[2]} by {
      forall i | 0 <= i < |ext| ensures ext[i] in Elems(e) - {e[0], e[1], e[2]} {
        assert ext[i] == e[i + 3];
        assert e[i + 3] != e[0] && e[i + 3] != e[1] && e[i + 3] != e[2];
      }
    }
    assert End(e[2], ext) == e[|e| - 1];
    assert Elems(ext) == Elems(e) - {e[0], e[1], e[2]} by {
      forall x | x in Elems(e) - {e[0], e[1], e[2]} ensures x in Elems(ext) {
        var k :| 0 <= k < |e| && e[k] == x;
        assert k >= 3;
        assert ext[k - 3] == x;
      }
    }
  }

  /**
    Conversely, a seed v1, s, v3 (both outer vertices neighbours of s) with
    an extension of v3 that avoids the seed and closes at v1 is a cycle.
  */
  lemma ExtensionGivesCycle(g: Graph, v1: nat, s: nat, v3: nat, pool: set<nat>, ext: seq<nat>)
    requires WellFormed(g)
    requires Adjacent(g, s, v1) && Adjacent(g, s, v3) && v1 != v3
    requires pool <= Range(|g|) && v1 !in pool && s !in pool && v3 !in pool
    requires Extends(g, pool, v3, ext) && Closes(g, v1, v3, ext)
    ensures IsCycle(g, [v1, s, v3] + ext)
    ensures Elems([v1, s, v3] + ext) == {v1, s, v3} + Elems(ext)
  {
    assert s != v1 && s != v3;
    hide WellFormed, Distinct, Walk, Elems;
    var c := [v1, s, v3] + ext;
    SeedPrefixDistinct(v1, s, v3, pool, ext);
    SeedPrefixWalk(g, v1, s, v3, ext);
    AdjacentSymmetric(g, v1, End(v3, ext));
    assert c[|c| - 1] == End(v3, ext);
    SeedPrefixElems(v1, s, v3, ext);
  }

  lemma SeedPrefixDistinct(v1: nat, s: nat, v3: nat, pool: set<nat>, ext: seq<nat>)
    requires v1 != s && s != v3 && v1 != v3
    requires v1 !in pool && s !in pool && v3 !in pool
    requires Distinct(ext) && forall i | 0 <= i < |ext| :: ext[i] in pool
    ensures Distinct([v1, s, v3] + ext)
  {
    var c := [v1, s, v3] + ext;
    forall i, j | 0 <= i < j < |c| ensures c[i] != c[j] {
      if j >= 3 {
        assert c[j] == ext[j - 3];
        if i >= 3 { assert c[i] == ext[i - 3]; }
      }
    }
  }

  lemma SeedPrefixWalk(g: Graph, v1: nat, s: nat, v3: nat, ext: seq<nat>)
    requires WellFormed(g)
    requires Adjacent(g, s, v1) && Adjacent(g, s, v3)
    requires Walk(g, [v3] + ext)
    ensures Walk(g, [v1, s, v3] + ext)
    ensures forall i | 0 <= i < |[v1, s, v3] + ext| :: ([v1, s, v3] + ext)[i] < |g|
  {
    var c := [v1, s, v3] + ext;
    var w := [v3] + ext;
    assert v1 < |g| && s < |g| && v3 < |g|;
    forall i | 0 <= i < |c| - 1 ensures Adjacent(g, c[i], c[i + 1]) {
      if i >= 2 {
        assert c[i] == w[i - 2] && c[i + 1] == w[i - 1];
      }
    }
    forall i | 0 <= i < |c| ensures c[i] < |g| {
      if i >= 3 {
        assert c[i] == w[i - 2];
        assert Adjacent(g, w[i - 3], w[i - 2]);
        assert w[i - 2] in g[w[i - 3]];
      }
    }
  }

  lemma SeedPrefixElems(v1: nat, s: nat, v3: nat, ext: seq<nat>)
    ensures Elems([v1, s, v3] + ext) == {v1, s, v3} + Elems(ext)
  {
    var c := [v1, s, v3] + ext;
    forall x | x in Elems(ext) ensures x in Elems(c) {
      var k :| 0 <= k < |ext| && ext[k] == x;
      assert c[k + 3] == x;
    }
  }
}
