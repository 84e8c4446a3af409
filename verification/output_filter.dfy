/**
  The filter of circumferenceChecker: shouldOutput decides, from the length
  one of the three searches computed for a graph and its histogram, whether
  the graph is sent to the output.

  The options it switches on are -d (compare order - length), -f (reject
  graphs having an induced cycle or path of the forbidden length) and -C
  (invert the decision); -o gives the length compared against.
*/
module OutputFilter {
  import opened VertexSets
  import opened Graphs
  import opened LengthCensus
  import opened Circumference
  import opened InducedCycles
  import opened InducedPaths

  /**
    What shouldOutput does: answer yes or no, or stop with the invalid
    combination message (its default branch). NegativeIndex stands for the
    read of numberOfLengths at a negative forbidden length, which the C code
    performs without a check.
  */
  datatype Decision = Print(yes: bool) | InvalidCombination | NegativeIndex

  /** optionsNumber: bit 0 is set by -d, bit 1 by a forbidden length other than -1. */
  function OptionsNumber(difference: bool, forbiddenLength: int): (r: nat)
    ensures r < 4
    ensures r % 2 == 1 <==> difference
    ensures r / 2 == 1 <==> forbiddenLength != -1
  {
    (if difference then 1 else 0) + (if forbiddenLength != -1 then 2 else 0)
  }

  /**
    shouldOutput. The histogram lengths holds numberOfLengths as a multiset:
    numberOfLengths[k] is lengths[k]. In the forbidden-length case a path
    length (in edges) is out of the histogram's range from n on, a cycle
    length (in vertices) only above n.
  */
  function ShouldOutput(n: nat, length: int, lengths: multiset<nat>, output: int, forbiddenLength: int,
                        optionsNumber: int, complement: bool, path: bool): (r: Decision)
    ensures r == InvalidCombination <==> !(0 <= optionsNumber <= 2)
    ensures r == NegativeIndex <==> optionsNumber == 2 && forbiddenLength < 0
    ensures optionsNumber == 0 ==> r == Print((length == output) != complement)
    ensures optionsNumber == 1 ==> r == Print((n - length == output) != complement)
    ensures optionsNumber == 2 && forbiddenLength >= 0 ==>
      r == Print((forbiddenLength > n || forbiddenLength !in lengths
                  || (path && forbiddenLength == n)) != complement)
  {
    var complementTrue := !complement;
    var complementFalse := complement;
    match optionsNumber
    case 0 =>
      if length == output then Print(complementTrue) else Print(complementFalse)
    case 1 =>
      if n - length == output then Print(complementTrue) else Print(complementFalse)
    case 2 =>
      if (if path then forbiddenLength >= n else forbiddenLength > n) then Print(complementTrue)
      else if forbiddenLength < 0 then NegativeIndex
      else if lengths[forbiddenLength] == 0 then Print(complementTrue)
      else Print(complementFalse)
    case _ => InvalidCombination
  }

  /** -C inverts every decision and changes nothing else. */
  lemma ComplementInverts(n: nat, length: int, lengths: multiset<nat>, output: int, forbiddenLength: int,
                          optionsNumber: int, complement: bool, path: bool)
    ensures var a := ShouldOutput(n, length, lengths, output, forbiddenLength, optionsNumber, complement, path);
      var b := ShouldOutput(n, length, lengths, output, forbiddenLength, optionsNumber, !complement, path);
      && (a.Print? <==> b.Print?)
      && (a.Print? ==> b.yes == !a.yes)
      && (!a.Print? ==> a == b)
  {
  }

  /** The combination main builds from -d and -f fails exactly when both are given. */
  lemma OptionsFailOnlyTogether(n: nat, length: int, lengths: multiset<nat>, output: int, forbiddenLength: int,
                                difference: bool, complement: bool, path: bool)
    ensures (ShouldOutput(n, length, lengths, output, forbiddenLength, OptionsNumber(difference, forbiddenLength), complement, path)
               == InvalidCombination)
      <==> difference && forbiddenLength != -1
  {
  }

  /**
    With -o, circumference mode prints exactly the graphs whose longest
    cycle has the requested length (-o 0: the acyclic ones).
  */
  lemma CircumferenceFilter(g: Graph, output: int)
    requires WellFormed(g)
    ensures ShouldOutput(|g|, GetCircumference(g, {}), multiset{}, output, -1, 0, false, false) == Print(true)
      <==> if output == 0 then forall k: nat :: !HasCycleOfLength(g, k)
           else output >= 3 && HasCycleOfLength(g, output)
                && forall k: nat | HasCycleOfLength(g, k) :: k <= output
  {
    CircumferenceOfGraph(g);
    var r := GetCircumference(g, {});
    if output >= 3 && HasCycleOfLength(g, output) && forall k: nat | HasCycleOfLength(g, k) :: k <= output {
      assert r != 0;
      assert r <= output && output <= r;
    }
  }

  /** No cycle has more vertices than the graph. */
  lemma CycleNoLongerThanOrder(g: Graph, c: seq<nat>)
    requires IsCycle(g, c)
    ensures |c| <= |g|
  {
    CycleFits(g, Range(|g|), c);
  }

  /**
    -c -f k prints exactly the graphs without an induced cycle of k
    vertices: the histogram answers for k up to the order, and above it
    there is no cycle at all.
  */
  lemma ForbiddenInducedCycleFilter(g: Graph, forbiddenLength: int)
    requires WellFormed(g) && forbiddenLength >= 0
    ensures ShouldOutput(|g|, GetLongestInducedCycleLength(g).longest, GetLongestInducedCycleLength(g).lengths,
                         -1, forbiddenLength, 2, false, false)
      == Print(!HasInducedCycleOfLength(g, forbiddenLength))
  {
    var r := GetLongestInducedCycleLength(g);
    GetLongestInducedCycleLengthCorrect(g);
    hide GetLongestInducedCycleLength, WellFormed, NoChords, ShouldOutput;
    ForbiddenLengthDecision(|g|, r.longest, r.lengths, forbiddenLength, false);
    if forbiddenLength > |g| && HasInducedCycleOfLength(g, forbiddenLength) {
      var c :| IsInducedCycle(g, c) && |c| == forbiddenLength;
      CycleNoLongerThanOrder(g, c);
    }
  }

  /** The forbidden-length branch on its own: beyond the histogram's range, or a zero count, prints. */
  lemma ForbiddenLengthDecision(n: nat, length: int, lengths: multiset<nat>, forbiddenLength: nat, path: bool)
    ensures ShouldOutput(n, length, lengths, -1, forbiddenLength, 2, false, path)
      == Print(forbiddenLength > n || forbiddenLength !in lengths || (path && forbiddenLength == n))
  {
  }

  /** No path has more vertices than the graph. */
  lemma PathNoLongerThanOrder(g: Graph, p: seq<nat>)
    requires IsPath(g, p)
    ensures |p| <= |g|
  {
    DistinctNotInSmaller(p, Range(|g|));
  }

  /**
    -p -f k prints exactly the graphs without an induced path of k >= 1
    edges (every graph for k = 0, since single vertices are not recorded):
    from the order on there is no such path at all.
  */
  lemma ForbiddenInducedPathFilter(g: Graph, forbiddenLength: int)
    requires WellFormed(g) && forbiddenLength >= 0
    ensures var (length, lengths) := GetLongestInducedPathLength(g);
      ShouldOutput(|g|, length, lengths, -1, forbiddenLength, 2, false, true)
        == Print(!(forbiddenLength >= 1 && HasInducedPathOfLength(g, forbiddenLength)))
  {
    var (length, lengths) := GetLongestInducedPathLength(g);
    GetLongestInducedPathLengthCorrect(g);
    hide GetLongestInducedPathLength, WellFormed, ShouldOutput;
    ForbiddenLengthDecision(|g|, length, lengths, forbiddenLength, true);
    if forbiddenLength >= |g| && HasInducedPathOfLength(g, forbiddenLength) {
      var p :| IsInducedPath(g, p) && |p| == forbiddenLength + 1;
      PathNoLongerThanOrder(g, p);
    }
  }
}
