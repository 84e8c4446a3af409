# CircumferenceChecker in Dafny

This is a model of the search core of CircumferenceChecker. The tool reads graphs in McKay's graph6 format. For each graph it reports one of:

- the circumference;
- the longest induced cycle;
- the longest induced path;
- one of the Hamiltonicity-family properties:
  - Hamiltonian;
  - K1- and K2-Hamiltonian;
  - traceable and K1-traceable;
  - a pair of disjoint spanning paths with given ends.

The model is functional. A graph is a `seq<set<nat>>`: entry `v` holds the neighbours of `v`. The C bitsets become immutable `set<nat>` values, because the C code passes them by value. A bitset walk becomes one of:

- `Ascending`, for `forEach`;
- `AfterIndex`, for `forEachAfterIndex`;
- `First`, for `next(s, -1)`.

Each backtracking routine becomes a pair of functions:

- one for a node of the search;
- one for its loop over candidate neighbours.

Both are measured by the pool of remaining vertices. When a routine writes a shared counter or histogram, the function returns the counter (`Tally`) or the histogram (`Census`).

Each search is proved equal to an independent mathematical definition:

- a Hamiltonian cycle of the included subgraph, or a Hamiltonian path between two distinct included vertices;
- a cycle with exactly k vertices;
- a chordless cycle with k vertices;
- an induced path with k edges;
- two vertex-disjoint spanning paths.

The graph6 reader is proved against an encoder: decoding an encoded graph gives the graph back.

Modules:

| file | module | what it holds |
|---|---|---|
| vertex_sets.dfy | VertexSets | the bitset operations the searches use |
| graphs.dfy | Graphs | graphs, walks, paths, cycles, chords, Hamiltonian completions |
| cycles.dfy | Cycles | rotating and reflecting cycles, cycles as seeded extensions |
| seeds.dfy | Seeds | the lowest-degree start vertex and the ordered seed pairs |
| census.dfy | LengthCensus | the histogram of lengths with its running maximum |
| hamilton_search.dfy | HamiltonSearch | canBeHamiltonian and canBeHamiltonianPrintCycle |
| hamiltonicity.dfy | Hamiltonicity | isHamiltonian, hasMinimumDegree, isK1Hamiltonian, isK2Hamiltonian |
| traceability.dfy | Traceability | containsHamiltonianPathWithEnds, isTraceable, isK1Traceable |
| disjoint_paths.dfy | DisjointPaths | isPartOfDisjointSpanningPaths, containsDisjointSpanningPathsWithEnds |
| circumference.dfy | Circumference | canBeCycleOfLength, getCircumference |
| induced_cycles.dfy | InducedCycles | lengthOfLongestInducedSuperCycle, getLongestInducedCycleLength |
| induced_paths.dfy | InducedPaths | lengthOfLongestInducedSuperPath, getLongestInducedPathLength |
| output_filter.dfy | OutputFilter | shouldOutput and the option combination main builds |
| graph6_count.dfy | Graph6Count | getNumberOfVertices, the N(n) field |
| graph6_load.dfy | Graph6Load | prev, loadGraph, the R(x) bit vector |

## Model

| member | source | states |
|---|---|---|
| VertexSets.Complement | libs/hamiltonicityMethods.c:170 | complement(s, n) holds exactly the vertices below n that are not in s |
| VertexSets.Ascending | libs/hamiltonicityMethods.c:191 | forEach visits the elements of a set below n exactly once each, in increasing order |
| VertexSets.AfterIndex | libs/hamiltonicityMethods.c:192 | forEachAfterIndex(x, s, k) visits exactly the elements of s above k, still in increasing order |
| VertexSets.FirstIsLeast | libs/hamiltonicityMethods.c:174-175 | next(s, -1) is the least element of a non-empty set |
| Seeds.LowestDegreeVertexIsEarliestMinimum | libs/hamiltonicityMethods.c:174-186 | the start vertex has the smallest scan degree and is the earliest vertex with it; the first vertex is measured by its full degree, later vertices by their included degree |
| Seeds.SeedPairs | libs/hamiltonicityMethods.c:191-192 | the seeds are exactly the pairs of included neighbours of the start vertex with the first below the second |
| Seeds.SeedOfCycle | libs/hamiltonicityMethods.h:68-90 | every cycle through s, in either orientation, is a seed a, s, b followed by an extension that covers the rest of the cycle and closes at a |
| LengthCensus.Merge | circumferenceChecker.c:158-161 | merging two histograms records exactly the lengths recorded in either one, and the maximum stays the largest recorded length |
| LengthCensus.SummaryIsMaximum | circumferenceChecker.c:158-161 | the running maximum is 0 exactly when nothing was recorded, and it bounds every recorded length |
| HamiltonSearch.CanBeHamiltonianCorrect | libs/hamiltonicityMethods.c:15-79 | canBeHamiltonian is true iff the path can be extended from last through every remaining vertex and then closed at first |
| HamiltonSearch.CompletionPassesPrunes | libs/hamiltonicityMethods.c:24-43 | neither prune fires on a path that can be completed: first keeps a remaining neighbour, and every remaining vertex keeps two usable neighbours |
| HamiltonSearch.ChildState | libs/hamiltonicityMethods.c:55-73 | a child call removes exactly the chosen neighbour from remaining and makes it the new last vertex; it keeps the search invariant |
| HamiltonSearch.CompletionsPositive | libs/hamiltonicityMethods.c:82-162 | the number of completions is positive iff some completion exists |
| HamiltonSearch.FirstCycleCounting | libs/hamiltonicityMethods.c:146-161 | without allCyclesFlag and with a zero counter, canBeHamiltonianPrintCycle agrees with canBeHamiltonian and counts at most one cycle |
| HamiltonSearch.AllCyclesCounting | libs/hamiltonicityMethods.c:96-161 | with allCyclesFlag the counter grows by exactly the number of completions, one per completed cycle; from zero, the result is "counter non-zero" |
| Hamiltonicity.SeedsCoverHamiltonian | libs/hamiltonicityMethods.h:68-90 | the included subgraph is Hamiltonian iff some seed a, s, b with a < b, in either orientation, completes to a Hamiltonian cycle |
| Hamiltonicity.IsHamiltonianCorrect | libs/hamiltonicityMethods.c:164-235 | isHamiltonian is true iff the subgraph spanned by the non-excluded vertices has a Hamiltonian cycle, with or without the flags |
| Hamiltonicity.HamiltonianCycleCountCorrect | libs/hamiltonicityMethods.c:202-234 | with allCyclesFlag the count is the sum over the seeds of their completions, and it is positive iff the subgraph is Hamiltonian |
| Hamiltonicity.HasMinimumDegree | libs/hamiltonicityMethods.c:237-247 | true iff every vertex has at least the given degree |
| Hamiltonicity.ExceptionalVerticesCorrect | libs/hamiltonicityMethods.c:265-289 | the vertices collected by the K1 loop are exactly those whose deletion leaves a non-Hamiltonian graph |
| Hamiltonicity.IsK1HamiltonianCorrect | libs/hamiltonicityMethods.c:249-310 | isK1Hamiltonian is true iff the minimum degree is at least 3 and G - v is Hamiltonian for every vertex v |
| Hamiltonicity.EdgesAllCorrect | libs/hamiltonicityMethods.c:333-365 | the K2 loop from vertex i on accepts iff deleting both ends of every edge v < w with v >= i leaves a Hamiltonian graph |
| Hamiltonicity.IsK2HamiltonianCorrect | libs/hamiltonicityMethods.c:312-383 | isK2Hamiltonian is true iff the minimum degree is at least 3 and G - v - w is Hamiltonian for every edge vw |
| Traceability.ContainsHamiltonianPathWithEnds | libs/hamiltonicityMethods.c:389-392 | an excluded end gives 0; without the flags the answer is 0 or 1 |
| Traceability.PathsAreCompletions | libs/hamiltonicityMethods.h:20-23 | a Hamiltonian start-end path of the included subgraph is the same thing as a completion of the seed {start, end} that never visits a removed vertex |
| Traceability.ContainsHamiltonianPathWithEndsCorrect | libs/hamiltonicityMethods.c:385-423 | the result is non-zero iff the included subgraph has a Hamiltonian start-end path; with allCyclesFlag it is the number of such paths |
| Traceability.TracePairsCorrect | libs/hamiltonicityMethods.c:536-547 | the pair loop succeeds iff the running total is non-zero or some remaining pair has a Hamiltonian path between its ends |
| Traceability.IsTraceableCorrect | libs/hamiltonicityMethods.c:533-553 | isTraceable is true iff the included subgraph has a Hamiltonian path between two distinct vertices i < j |
| Traceability.NonTraceableDeletionsCorrect | libs/hamiltonicityMethods.c:564-588 | the vertices collected by the K1-traceable loop are exactly those whose deletion leaves a non-traceable graph |
| Traceability.IsK1TraceableCorrect | libs/hamiltonicityMethods.c:555-608 | isK1Traceable is true iff G - v is traceable, in the same two-end sense, for every vertex v |
| Traceability.TinyGraphNotTraceable | libs/hamiltonicityMethods.c:536-537 | a subgraph with at most one included vertex is not traceable, because the pair loop needs two distinct ends |
| Traceability.TinyGraphNotK1Traceable | libs/hamiltonicityMethods.c:564-570 | a graph with one or two vertices is not K1-traceable |
| DisjointPaths.GrowCandidates | libs/hamiltonicityMethods.c:433-441 | path 1 grows only into neighbours of last outside the excluded vertices, path 1, required2 and the ends of path 2 |
| DisjointPaths.SecondPathCorrect | libs/hamiltonicityMethods.c:483-499 | the path-2 search succeeds iff path 2 runs from end2 to start2 through every included vertex off path 1; it counts only when it succeeds |
| DisjointPaths.PartOfDisjointSpanningPathsCorrect | libs/hamiltonicityMethods.c:425-501 | isPartOfDisjointSpanningPaths succeeds iff the counter is already non-zero or path 1 can be grown and closed so that path 2 completes; with allCyclesFlag the counter grows exactly when that holds |
| DisjointPaths.ContainsDisjointSearchCorrect | libs/hamiltonicityMethods.c:504-531 | containsDisjointSpanningPathsWithEnds answers whether the path {start1, end1}, grown from start1, can be completed to a pair |
| DisjointPaths.SearchGivesPaths | libs/hamiltonicityMethods.h:193-223 | every completion the search finds gives two vertex-disjoint paths with the given ends, each holding its required vertices, that together span the included vertices |
| DisjointPaths.PathsGiveSearch | libs/hamiltonicityMethods.h:193-223 | every such pair of paths is found by the search |
| DisjointPaths.ContainsDisjointSpanningPathsWithEndsCorrect | libs/hamiltonicityMethods.c:504-531 | for four distinct included ends, the result is true iff such a spanning pair exists |
| Circumference.CanBeCycleOfLengthCorrect | circumferenceChecker.c:72-101 | canBeCycleOfLength is true iff the path can be extended through remaining vertices to exactly cycleLength vertices and closed at first |
| Circumference.PastTargetFails | circumferenceChecker.c:75-77 | a path already longer than the target can never succeed |
| Circumference.CycleThroughCorrect | circumferenceChecker.c:129-144 | the seed loop around s succeeds iff the included subgraph has a cycle of exactly the target length through s |
| Circumference.AttemptsFound | circumferenceChecker.c:105-146 | when the j-loop finds a cycle, the included subgraph has a cycle of that length |
| Circumference.AttemptsComplete | circumferenceChecker.c:105-146 | forbidding a seed-exhausted start vertex loses no cycle: every cycle of the target length in the included subgraph is found |
| Circumference.AttemptsEmptied | circumferenceChecker.c:110 | the j-loop meets an empty included set only when fewer vertices were included than rounds were left |
| Circumference.CircumferenceFrom | circumferenceChecker.c:103-150 | the answer is 0 or a length between 3 and the current target |
| Circumference.GetCircumferenceCorrect | circumferenceChecker.c:103-150 | the result r, minus the number of excluded vertices, is the longest cycle length of the included subgraph; r is 0 iff it has no cycle |
| Circumference.CircumferenceOfGraph | circumferenceChecker.c:103-150 | with nothing excluded, the result is the largest k in 3..n with a cycle of exactly k vertices, and 0 iff the graph is acyclic |
| InducedCycles.ChildCycleState | circumferenceChecker.c:176-186 | a child works on the pool minus N(last); the path stays chordless, and the pool stays exactly the allowed vertices minus the path and the neighbours of its inner vertices |
| InducedCycles.SuperCycleSound | circumferenceChecker.c:152-189 | every length the search records is the vertex count of a chordless cycle |
| InducedCycles.SuperCycleComplete | circumferenceChecker.c:152-189 | every chordless cycle that extends the current path is recorded |
| InducedCycles.SeedSound | circumferenceChecker.c:193-205 | every length recorded from the seeds i < second < last, with pool V minus N[i], is that of an induced cycle |
| InducedCycles.CycleRecorded | circumferenceChecker.c:191-210 | every induced cycle of the graph has its length recorded |
| InducedCycles.GetLongestInducedCycleLengthCorrect | circumferenceChecker.c:191-210 | a length is recorded iff the graph has an induced cycle with that many vertices; the result is the largest such length, and 0 iff there is none |
| InducedPaths.ChildPathState | circumferenceChecker.c:224-236 | a child works on the pool minus N(last), and the extended path stays induced |
| InducedPaths.SuperPathSound | circumferenceChecker.c:212-239 | every recorded value k is the edge count of an induced path, with k + 1 vertices |
| InducedPaths.SuperPathComplete | circumferenceChecker.c:212-239 | every induced path that extends the current path has its edge count recorded |
| InducedPaths.RecordedIffPath | circumferenceChecker.c:241-255 | k is recorded iff k >= 1 and the graph has an induced path with k edges |
| InducedPaths.GetLongestInducedPathLengthCorrect | circumferenceChecker.c:241-255 | the result is the largest edge count of an induced path, or -1 when the graph has no edge |
| OutputFilter.OptionsNumber | circumferenceChecker.c:362-363 | bit 0 of optionsNumber says -d was given, bit 1 says a forbidden length was given |
| OutputFilter.ShouldOutput | circumferenceChecker.c:257-282 | the decision for each option combination, XOR complementFlag; forbidden path lengths from n on and cycle lengths above n print; any other combination is the fatal case |
| OutputFilter.ComplementInverts | circumferenceChecker.c:259-280 | -C flips every print decision and leaves the fatal case alone |
| OutputFilter.OptionsFailOnlyTogether | circumferenceChecker.c:273-280 | the fatal case is reached exactly when both -d and -f are given |
| OutputFilter.CircumferenceFilter | circumferenceChecker.c:394-404 | with -o k, circumference mode prints exactly the graphs whose longest cycle has k vertices, or the acyclic ones for k = 0 |
| OutputFilter.ForbiddenInducedCycleFilter | circumferenceChecker.c:394-404 | -c -f k prints exactly the graphs without an induced cycle of k vertices |
| OutputFilter.ForbiddenInducedPathFilter | circumferenceChecker.c:394-404 | -p -f k prints exactly the graphs without an induced path of k >= 1 edges |
| Graph6Count.GetNumberOfVertices | libs/readGraph6.c:11-61 | -1 for an empty string or a bad first byte; a one-byte field c gives c - 63 |
| Graph6Count.FieldRoundTrip | libs/readGraph6.c:30-54 | each of the three N(n) forms reads back the count it encodes |
| Graph6Count.CountRoundTrip | libs/readGraph6.c:11-61 | getNumberOfVertices reads back every count an int holds, with or without the header, whatever follows |
| Graph6Count.Signed32 | libs/readGraph6.c:48-54 | the 36-bit sum lands in an int as its 32-bit two's-complement pattern |
| Graph6Count.HeaderCountEscapes | libs/readGraph6.c:25-32 | a header followed by the newline reads as -53, and a header followed by '2' as -13; main rejects neither |
| Graph6Count.FieldCountEscapes | libs/readGraph6.c:37-54 | "~??" and the newline read as -53; the six digits of "~~C????D" (2^32 + 5) wrap to 5 and those of "~~A?????" (2^31) to -2^31; main rejects none of the three |
| Graph6Count.GetNumberOfVerticesChecked | libs/readGraph6.c:11-61 | the corrected reader never returns a negative number other than -1 |
| Graph6Count.CheckedRejectsEscapes | libs/readGraph6.c:25-54 | the corrected reader returns -1 on each of the five inputs above that getNumberOfVertices lets through |
| Graph6Count.LongTooBig | libs/readGraph6.c:48-54 | six digits whose first is worth 2 or more hold at least 2^31, so the corrected reader returns -1 |
| Graph6Count.CheckedAgrees | libs/readGraph6.c:11-61 | whenever the corrected reader accepts, getNumberOfVertices returns the same count |
| Graph6Count.CheckedCountRoundTrip | libs/readGraph6.c:11-61 | the corrected reader also reads back every encoded count |
| Graph6Load.Prev | libs/readGraph6.c:6-9 | prev(c, k) is the highest set bit of c below k, or -1 when there is none |
| Graph6Load.PlaceBitCorrect | libs/readGraph6.c:99-111 | data bit b is placed as edge {nb, cv} with b = cv(cv-1)/2 + nb, in both directions; it is out of bounds iff b lies past the n(n-1)/2 pairs |
| Graph6Load.ScanBitsCorrect | libs/readGraph6.c:95-112 | the bits of one data byte are placed from the most significant down |
| Graph6Load.ScanBytesCorrect | libs/readGraph6.c:95-117 | the byte loop places every data bit, and a NUL before the newline rejects |
| Graph6Load.HoldsWellFormed | libs/readGraph6.c:86-110 | the decoded graph is symmetric and loop-free, and u < v are adjacent iff data bit v(v-1)/2 + u is set |
| Graph6Load.LoadGraphCorrect | libs/readGraph6.c:63-118 | loadGraph rejects a count above 62 that exceeds BITSETSIZE, and a string cut short by NUL; otherwise it yields the symmetric graph whose edges are the set data bits |
| Graph6Load.LoadEncodedGraph | libs/readGraph6.c:63-118 | decoding the graph6 encoding of a graph, with or without the header, gives back its order and the graph itself |

## Left out

- printGraph and every printf/fprintf diagnostic. This covers the witness traces, the exceptional-vertex lists and the count messages. verboseFlag is modelled only through what it does to the boolean results and counters. The pathList contents are not modelled.
- main's option parsing, the stdin getline loop, timing and the frequency table. Of main, only the option combination (OptionsNumber) and the shouldOutput call are modelled.
- The word-level bitset implementation selected by libs/bitset.h, and the clz/ctz mechanics inside prev. These are not part of this model. Bitsets are sets, and prev is specified by its meaning on 6-bit values.
- The numberOfLengths counts beyond membership. The histogram is a multiset, and the proofs speak of which lengths occur and not how often.
- The restore steps after each recursive call. The searches use immutable sets, so siblings see the same state by construction.
- Graph6Count.Signed32: a six-digit count of 2^31 or more wraps to its low 32 bits read as an int, and main's test does not catch it (Graph6Count.FieldCountEscapes, and the second row under Findings). What loadGraph and main then do with the wrapped count is not proved: -2^31 reaches the negative array sizes at circumferenceChecker.c:382 and 391-392, and 5 makes loadGraph decode "~C????D" as adjacency bits, the bits of 'D' naming vertices past the 5-entry list (libs/readGraph6.c:95-111).
- Graph6Load.LoadGraph: int overflow in the index arithmetic is not modelled. A negative count n is not modelled either, since n is a nat.
- Graph6Load.LoadGraph: a padding bit that names a vertex at or above n is modelled as the result Undefined (the C code writes out of bounds).
- OutputFilter.ShouldOutput: reading numberOfLengths at a negative forbidden length is undefined in C. It is modelled as the result NegativeIndex.
- Graph6Count.CountRoundTrip: only the canonical N(n) field is round-tripped. The shortest form that fits n is the one encoded.
- Traceability.ContainsHamiltonianPathWithEndsCorrect assumes start != end. With start == end the C search starts from a one-vertex path, and its meaning there is not stated.
- DisjointPaths.ContainsDisjointSpanningPathsWithEndsCorrect relates the search to two spanning paths only for four distinct included ends, with required2 included and off path 1's ends (SaneEnds). For other inputs, ContainsDisjointSearchCorrect still states what the search answers.
- Hamiltonicity.HamiltonianCycleCountCorrect counts completions of the seeds around the start vertex. That is one per Hamiltonian cycle of the included subgraph, but the model states the count as this sum and does not prove the bijection with cycles.
- isHamiltonian's flag mode searches from the smaller seed and closes at the larger, whereas its plain mode searches from the larger and closes at the smaller. The model keeps each direction as written, and both are proved against the same Hamiltonian-cycle definition.
- Traceability.IsTraceableCorrect: traceable means a Hamiltonian path between two distinct vertices, as the pair loop i < j requires. A one-vertex subgraph is therefore not traceable, and K2 is not K1-traceable (TinyGraphNotTraceable, TinyGraphNotK1Traceable). The usual definition, and the header's wording "contains some hamiltonian path", would count a single vertex as a trivial Hamiltonian path.
- HamiltonSearch.AllCyclesCounting, Hamiltonicity.HamiltonianCycleCountCorrect and Traceability.ContainsHamiltonianPathWithEndsCorrect: the counts are unbounded natural numbers. In C the counters are 32-bit int: numberOfHamiltonianCycles, nOfPaths, nOfPathsWithEnds and nOfSpanningPaths. With -a these overflow past 2^31 - 1, which K14's roughly 3.1 * 10^9 Hamiltonian cycles already reach. Such an overflow is undefined behaviour in C; it wraps in practice, and the tests "count != 0" then see the wrapped value. The same holds for the disjoint-path counter (DisjointPaths.PartOfDisjointSpanningPathsCorrect).
- The induced path length counts edges, as the code does (it records pathLength - 1). A triangle therefore gives 1 and a chordless 4-cycle gives 2. Prose that counts the vertices of an induced path would give 2 and 3.

## Findings

| source | as written | input that shows it | evidently intended | confidence | as-written member | corrected member |
|---|---|---|---|---|---|---|
| libs/readGraph6.c:25-32 | Behind the >>graph6<< header the byte at index 10 is taken as a one-byte count without checking that it is a graph6 digit (63..126). main then rejects only -1 and counts above BITSETSIZE (circumferenceChecker.c:376-382). | ">>graph6<<\n": the byte read is the newline, so the count is 10 - 63 = -53. main lets it through to declare bitset adjacencyList[-53]; loadGraph then meets the NUL at index 11 and returns -1. Stronger: ">>graph6<<2\n" gives 50 - 63 = -13. loadGraph meets the newline at index 11 and returns 0 (libs/readGraph6.c:95-117), so main goes on to numberOfLengths[-12] and a memset with a negative size (circumferenceChecker.c:391-392). | A count byte that is not a graph6 digit is rejected with -1, so main skips the line. | not executed | Graph6Count.HeaderCountEscapes | Graph6Count.GetNumberOfVerticesChecked |
| libs/readGraph6.c:37-54 | The three- and six-digit fields are read without checking that each byte is a graph6 digit, and the six digits give 36 bits that are or-ed into a 32-bit int. | "~??\n" without a header: the newline is read as the last digit and the count is -53. "~~C????D\n" encodes 2^32 + 5 and reads as 5; "~~A?????\n" encodes 2^31 and reads as -2^31. main's test at circumferenceChecker.c:376 lets all three through. | Every byte of the field is a graph6 digit and the value fits in an int, or the reader returns -1. | not executed | Graph6Count.FieldCountEscapes | Graph6Count.GetNumberOfVerticesChecked |

The corrected reader checks every byte of the N(n) field and that the value fits in an int. It returns -1 or a count and nothing else (Graph6Count.GetNumberOfVerticesChecked). It returns -1 on every input of both rows above (Graph6Count.CheckedRejectsEscapes). Whenever it accepts, it agrees with getNumberOfVertices (Graph6Count.CheckedAgrees). It still reads back every encoded count (Graph6Count.CheckedCountRoundTrip). Graph6Load.LoadEncodedGraph states the decoder round trip for inputs both readers accept.
