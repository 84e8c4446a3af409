/**
  What the induced cycle and path searches record: the running maximum
  (*longestCycleLength) and the histogram numberOfLengths, kept as a
  multiset in which lengths[k] is numberOfLengths[k].

  The C code threads both through the recursion by pointer. Here every call
  returns what its own subtree records and the caller merges the parts;
  since a maximum and a histogram do not depend on the order in which the
  values arrive, the merged result is what the shared counters end with.
*/
module LengthCensus {
  datatype Census = Census(longest: nat, lengths: multiset<nat>)

  /** longest is the largest recorded length, or 0 when nothing was recorded. */
  predicate Summarises(c: Census)
  {
    && (c.lengths == multiset{} ==> c.longest == 0)
    && (c.lengths != multiset{} ==> c.longest in c.lengths)
    && (forall k {:trigger c.lengths[k]} | k in c.lengths :: k <= c.longest)
  }

  /** Nothing recorded. */
  function Nothing(): (r: Census)
    ensures Summarises(r) && r.lengths == multiset{}
  {
    Census(0, multiset{})
  }

  /** One record of length k: the histogram entry is bumped and the maximum raised if k exceeds it. */
  function Record(k: nat): (r: Census)
    ensures Summarises(r) && r.lengths == multiset{k}
  {
    Census(k, multiset{k})
  }

  /** Two parts recorded one after the other. */
  function Merge(a: Census, b: Census): (r: Census)
    ensures Summarises(a) && Summarises(b) ==> Summarises(r)
    ensures forall k {:trigger r.lengths[k]} :: k in r.lengths <==> k in a.lengths || k in b.lengths
  {
    Census(if b.longest > a.longest then b.longest else a.longest, a.lengths + b.lengths)
  }

  /**
    A summarising census answers the two questions the program asks of it:
    whether anything was recorded (longest is 0 exactly when not, as every
    recorded length is positive) and which length is the largest.
  */
  lemma SummaryIsMaximum(c: Census, k: nat)
    requires Summarises(c)
    requires forall j {:trigger c.lengths[j]} | j in c.lengths :: j > 0
    ensures c.longest == 0 <==> c.lengths == multiset{}
    ensures k in c.lengths ==> k <= c.longest
  {
    if c.lengths != multiset{} {
      assert c.longest in c.lengths;
    }
  }
}
