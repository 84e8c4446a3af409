/**
  Vertex sets: the fixed-capacity bitsets of the engine, modelled as
  immutable sets of naturals. A bitset of order n only ever holds vertices
  0..n-1; ordered iteration is a scan of the bit positions in ascending order.
*/
module VertexSets {

  /** The vertices 0..n-1 (the bits a bitset of order n can hold). */
  function Range(n: nat): (r: set<nat>)
    ensures forall v: nat :: v in r <==> v < n
    ensures |r| == n
  {
    if n == 0 then {} else Range(n - 1) + {n - 1}
  }

  /** complement(s, n): the vertices below n that are not in s. */
  function Complement(s: set<nat>, n: nat): (r: set<nat>)
    ensures forall v: nat {:trigger v in r} :: v in r <==> v < n && v !in s
  {
    Range(n) - s
  }

  lemma ComplementSize(s: set<nat>, n: nat)
    requires s <= Range(n)
    ensures |Complement(s, n)| == n - |s|
  {
    assert Complement(s, n) == Range(n) - s;
  }

  /** Strictly increasing sequences: the order in which forEach visits a set. */
  predicate Increasing(xs: seq<nat>)
  {
    forall i, j | 0 <= i < j < |xs| :: xs[i] < xs[j]
  }

  /**
    forEach(x, s): the members of s, scanning bit positions 0..n-1 in
    ascending order.
  */
  function Ascending(s: set<nat>, n: nat): (xs: seq<nat>)
    ensures Increasing(xs)
    ensures forall x {:trigger x in xs} :: x in xs <==> x in s && x < n
    ensures forall i | 0 <= i < |xs| :: xs[i] in s && xs[i] < n
  {
    if n == 0 then []
    else
      var prefix := Ascending(s, n - 1);
      if n - 1 in s then prefix + [n - 1] else prefix
  }

  /**
    forEachAfterIndex(x, s, k): the members of an ascending scan that are
    strictly greater than k, in the same order.
  */
  function AfterIndex(xs: seq<nat>, k: int): (ys: seq<nat>)
    ensures forall y {:trigger y in ys} :: y in ys <==> y in xs && y > k
    ensures |ys| <= |xs|
    ensures Increasing(xs) ==> Increasing(ys)
  {
    if xs == [] then []
    else
      var rest := AfterIndex(xs[1..], k);
      assert forall y | y in rest :: y in xs[1..];
      assert Increasing(xs) ==> Increasing(xs[1..]);
      assert Increasing(xs) ==> forall i | 0 <= i < |xs[1..]| :: xs[0] < xs[1..][i];
      assert Increasing(xs) ==> forall i | 0 <= i < |rest| :: xs[0] < rest[i] by {
        if Increasing(xs) {
          forall i | 0 <= i < |rest| ensures xs[0] < rest[i] {
            assert rest[i] in xs[1..];
          }
        }
      }
      if xs[0] > k then [xs[0]] + rest else rest
  }

  /** next(s, -1): the first member of s in scan order. */
  function First(s: set<nat>, n: nat): (m: nat)
    requires s != {} && s <= Range(n)
    ensures m in s
  {
    FirstIsLeast(s, n);
    Ascending(s, n)[0]
  }

  /** The first member in scan order is the least element. */
  lemma FirstIsLeast(s: set<nat>, n: nat)
    requires s != {} && s <= Range(n)
    ensures |Ascending(s, n)| > 0
    ensures forall x | x in s :: Ascending(s, n)[0] <= x
  {
    var xs := Ascending(s, n);
    var x :| x in s;
    assert x in xs;
    forall y | y in s ensures xs[0] <= y {
      assert y in xs;
    }
  }
}
