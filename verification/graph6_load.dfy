/**
  The adjacency data of a graph6 string (loadGraph in libs/readGraph6.c).
  After the header and the N(n) field, every byte minus 63 carries six bits,
  most significant first; together they list the upper triangle of the
  adjacency matrix column by column: (0,1), (0,2), (1,2), (0,3), ... so the
  pair u < v sits at bit position v(v-1)/2 + u.

  loadGraph walks the set bits in increasing position. For each it advances
  the running column (currentVertex) and the position where that column
  starts (sum), and adds the edge in both directions. The data ends at the
  newline; reaching the terminating NUL first is an error.
*/
module Graph6Load {
  import opened VertexSets
  import opened Graphs
  import opened Graph6Count

  // ---------------------------------------------------------------------
  // Bits.

  /** Bit i of c. */
  predicate Bit(c: nat, i: nat)
    decreases i
  {
    if i == 0 then c % 2 == 1 else Bit(c / 2, i - 1)
  }

  /** prev(c, k): the highest set bit of c below position k, or -1. */
  function Prev(c: nat, k: int): (r: int)
    ensures k <= 0 ==> r == -1
    ensures k > 0 ==> -1 <= r < k
    ensures r >= 0 ==> Bit(c, r)
    ensures forall i: nat | r < i < k :: !Bit(c, i)
    decreases k
  {
    if k <= 0 then -1 else if Bit(c, k - 1) then k - 1 else Prev(c, k - 1)
  }

  /**
    The six low bits of a data byte minus 63; in two's complement these are
    the bits prev sees for any byte.
  */
  function Low6(c: CChar): (r: nat)
    ensures r < 64
    ensures IsDigit(c) && c < 127 ==> r == c as int - 63
  {
    (c as int - 63) % 64
  }

  // ---------------------------------------------------------------------
  // Bit positions of vertex pairs.

  /** v(v-1)/2: the position of the first pair (0, v) of column v. */
  function Tri(v: nat): nat
  {
    if v == 0 then 0 else Tri(v - 1) + (v - 1)
  }

  lemma {:induction false} TriMono(a: nat, b: nat)
    requires a <= b
    ensures Tri(a) <= Tri(b)
    decreases b - a
  {
    if a < b {
      TriMono(a, b - 1);
    }
  }

  /** Each position lies in exactly one column. */
  lemma ColumnUnique(v: nat, w: nat, b: nat)
    requires Tri(v) <= b < Tri(v + 1) && Tri(w) <= b < Tri(w + 1)
    ensures v == w
  {
    assert v <= w by {
      if w < v {
        TriMono(w + 1, v);
      }
    }
    assert w <= v by {
      if v < w {
        TriMono(v + 1, w);
      }
    }
  }

  /** The position of the pair {u, v}. */
  function Slot(u: nat, v: nat): (b: nat)
    requires u != v
    ensures u < v ==> Tri(v) <= b < Tri(v + 1) && b == Tri(v) + u
    ensures v < u ==> Tri(u) <= b < Tri(u + 1) && b == Tri(u) + v
  {
    if u < v then Tri(v) + u else Tri(u) + v
  }

  /** A pair lies below position Tri(n) exactly when both its vertices are below n. */
  lemma SlotBelow(u: nat, v: nat, n: nat)
    requires u != v
    ensures Slot(u, v) < Tri(n) <==> u < n && v < n
  {
    var hi := if u < v then v else u;
    if hi < n {
      TriMono(hi + 1, n);
    } else {
      TriMono(n, hi);
    }
  }

  // ---------------------------------------------------------------------
  // loadGraph.

  /** The loop state: sum and currentVertex, and the adjacency list built so far. */
  datatype Decoder = Decoder(sum: nat, current: nat, adj: seq<set<nat>>)

  /** The state is ready for a bit at position next or later. */
  predicate Ready(d: Decoder, n: nat, next: nat)
  {
    |d.adj| == n && d.current >= 1 && d.sum == Tri(d.current) && d.sum <= next
  }

  /**
    The while loop: sum += currentVertex, currentVertex++ while the position
    is at or past sum. It stops one column beyond the column of b.
  */
  function Locate(b: nat, sum: nat, current: nat): (r: (nat, nat))
    requires current >= 1 && sum == Tri(current)
    ensures r.1 >= current && r.0 == Tri(r.1) && b < r.0
    ensures sum <= b ==> r.1 > current && Tri(r.1 - 1) <= b
    decreases if sum <= b then b + 1 - sum else 0
  {
    if b >= sum then Locate(b, sum + current, current + 1) else (sum, current)
  }

  /** What one bit does: a new state, or a write beyond the adjacency list. */
  datatype Step = Placed(d: Decoder) | OutOfBounds

  /**
    One set bit at position b: step back one column (sum -= --currentVertex),
    read the neighbour off the position, and add the edge both ways. A column
    at or beyond n writes outside adjacencyList, which C leaves undefined.
  */
  function PlaceBit(n: nat, b: nat, d: Decoder): (r: Step)
    requires Ready(d, n, b)
    ensures r.Placed? ==> Ready(r.d, n, b + 1)
  {
    var (sum, current) := Locate(b, d.sum, d.current);
    var v := current - 1;
    var u := b - (sum - v);
    if v >= n then OutOfBounds
    else Placed(Decoder(sum - v, v, d.adj[v := d.adj[v] + {u}][u := d.adj[u] + {v}]))
  }

  /**
    The inner for loop over the set bits of one data byte c, from the
    highest below position k down; bit i is position base + 5 - i.
  */
  function ScanBits(n: nat, c: nat, k: int, base: nat, d: Decoder): (r: Step)
    requires 0 <= k <= 6 && Ready(d, n, base + 6 - k)
    ensures r.Placed? ==> Ready(r.d, n, base + 6)
    decreases k
  {
    var i := Prev(c, k);
    if i == -1 then Placed(d)
    else
      match PlaceBit(n, base + 5 - i, d)
      case OutOfBounds => OutOfBounds
      case Placed(next) => ScanBits(n, c, i, base, next)
  }

  /** What loadGraph does: return 0 with the graph, return -1, or run into undefined behaviour. */
  datatype Loaded = Graph(adj: seq<set<nat>>) | Rejected | Undefined

  /**
    The outer for loop over the data bytes from index on: stop with 0 at
    the newline, with -1 at the terminating NUL.
  */
  function ScanBytes(s: seq<CChar>, n: nat, start: nat, index: nat, d: Decoder): (r: Loaded)
    requires start <= index && Ready(d, n, 6 * (index - start))
    ensures r.Graph? ==> |r.adj| == n
    decreases |s| + 1 - index
  {
    if index > |s| then Undefined
    else
      var c := Char(s, index);
      if c == Newline then Graph(d.adj)
      else if c == Nul then Rejected
      else
        match ScanBits(n, Low6(c), 6, 6 * (index - start), d)
        case OutOfBounds => Undefined
        case Placed(next) => ScanBytes(s, n, start, index + 1, next)
  }

  /** Where the data starts: after the header, and after a one- or four-byte N(n). */
  function DataStart(s: seq<CChar>, n: nat): nat
  {
    (if Char(s, 0) == HeaderMark then HeaderLength else 0) + (if n <= 62 then 1 else 4)
  }

  /**
    loadGraph: -1 when n exceeds the bitset size; otherwise every vertex
    starts with no neighbours and the data is scanned.
  */
  function LoadGraph(s: seq<CChar>, n: nat, bitsetSize: nat): (r: Loaded)
    ensures n > 62 && n > bitsetSize ==> r == Rejected
    ensures r.Graph? ==> |r.adj| == n
  {
    if n > 62 && n > bitsetSize then Rejected
    else
      var start := DataStart(s, n);
      ScanBytes(s, n, start, start, Decoder(0, 1, seq(n, _ => {})))
  }

  // ---------------------------------------------------------------------
  // What the data means.

  /** Every byte from start through index lies before the newline and the terminating NUL. */
  predicate InData(s: seq<CChar>, start: nat, index: nat)
  {
    start <= index < |s| && forall t | start <= t <= index :: s[t] != Newline && s[t] != Nul
  }

  /** Bit b of the data: bit 5 - b % 6 of data byte b / 6. */
  predicate DataBit(s: seq<CChar>, start: nat, b: nat)
  {
    InData(s, start, start + b / 6) && Bit(Low6(s[start + b / 6]), 5 - b % 6)
  }

  /** The data joins u and v by a bit below position p. */
  predicate EdgeBelow(s: seq<CChar>, start: nat, u: nat, v: nat, p: nat)
  {
    u != v && Slot(u, v) < p && DataBit(s, start, Slot(u, v))
  }

  /** adj has n vertices and holds exactly the edges the data gives below position p. */
  ghost predicate Holds(adj: seq<set<nat>>, s: seq<CChar>, start: nat, n: nat, p: nat)
  {
    |adj| == n && forall v: nat, u: nat | v < n :: u in adj[v] <==> u < n && EdgeBelow(s, start, u, v, p)
  }

  /** Some set bit at position p or later lies beyond the pairs of n vertices. */
  ghost predicate OverflowsFrom(s: seq<CChar>, start: nat, n: nat, p: nat)
  {
    exists b: nat :: p <= b && Tri(n) <= b && DataBit(s, start, b)
  }

  /** The first newline or NUL from index on (the C string always has its NUL at |s|). */
  function Terminus(s: seq<CChar>, index: nat): (t: nat)
    requires index <= |s|
    ensures index <= t <= |s|
    ensures Char(s, t) == Newline || Char(s, t) == Nul
    ensures forall j | index <= j < t :: s[j] != Newline && s[j] != Nul
    decreases |s| - index
  {
    if Char(s, index) == Newline || Char(s, index) == Nul then index else Terminus(s, index + 1)
  }

  // ---------------------------------------------------------------------
  // The scan decodes the data.

  /** The positions of data byte index are its six bits, most significant first. */
  lemma ByteBits(s: seq<CChar>, start: nat, index: nat, t: nat)
    requires InData(s, start, index) && t < 6
    ensures DataBit(s, start, 6 * (index - start) + t) <==> Bit(Low6(s[index]), 5 - t)
  {
    var b := 6 * (index - start) + t;
    assert b / 6 == index - start && b % 6 == t;
  }

  /** No data bit lies at or after a newline or the NUL. */
  lemma NoBitsBeyond(s: seq<CChar>, start: nat, index: nat, b: nat)
    requires start <= index <= |s| && (Char(s, index) == Newline || Char(s, index) == Nul)
    requires 6 * (index - start) <= b
    ensures !DataBit(s, start, b)
  {
    assert index <= start + b / 6;
  }

  /** Positions without a set bit add nothing. */
  lemma HoldsSkip(adj: seq<set<nat>>, s: seq<CChar>, start: nat, n: nat, p: nat, q: nat)
    requires p <= q && Holds(adj, s, start, n, p)
    requires forall b | p <= b < q :: !DataBit(s, start, b)
    ensures Holds(adj, s, start, n, q)
  {
    forall v: nat, u: nat | v < n
      ensures u in adj[v] <==> u < n && EdgeBelow(s, start, u, v, q)
    {
      assert EdgeBelow(s, start, u, v, q) <==> EdgeBelow(s, start, u, v, p);
    }
  }

  /** The pair at position b: the column v of b and the row b - Tri(v). */
  lemma SlotAt(u: nat, v: nat, x: nat, y: nat, b: nat)
    requires u < v && b == Tri(v) + u && Tri(v) <= b < Tri(v + 1) && x != y
    ensures Slot(x, y) == b <==> (x == u && y == v) || (x == v && y == u)
  {
    if Slot(x, y) == b {
      var hi := if x < y then y else x;
      ColumnUnique(hi, v, b);
    }
  }

  /** The column v and row u that loadGraph reads off position b. */
  lemma PlaceBitShape(n: nat, b: nat, d: Decoder) returns (u: nat, v: nat)
    requires Ready(d, n, b)
    ensures u < v && b == Tri(v) + u && Tri(v) <= b < Tri(v + 1)
    ensures PlaceBit(n, b, d)
      == if v >= n then OutOfBounds
         else Placed(Decoder(Tri(v), v, d.adj[v := d.adj[v] + {u}][u := d.adj[u] + {v}]))
  {
    var (sum, current) := Locate(b, d.sum, d.current);
    v := current - 1;
    assert Tri(v) <= b < Tri(v + 1) && sum - v == Tri(v);
    u := b - Tri(v);
  }

  /** Adding the pair at a set bit b extends what adj holds from below b to below b + 1. */
  lemma AddEdgeHolds(adj: seq<set<nat>>, s: seq<CChar>, start: nat, n: nat, b: nat, u: nat, v: nat)
    requires Holds(adj, s, start, n, b) && DataBit(s, start, b)
    requires u < v < n && b == Tri(v) + u && Tri(v) <= b < Tri(v + 1)
    ensures Holds(adj[v := adj[v] + {u}][u := adj[u] + {v}], s, start, n, b + 1)
  {
    var next := adj[v := adj[v] + {u}][u := adj[u] + {v}];
    forall y: nat, x: nat | y < n
      ensures x in next[y] <==> x < n && EdgeBelow(s, start, x, y, b + 1)
    {
      assert x in next[y] <==> x in adj[y] || (y == v && x == u) || (y == u && x == v);
      if x != y {
        SlotAt(u, v, x, y, b);
      }
    }
  }

  /**
    One set bit at position b adds exactly its pair, and it writes outside
    the adjacency list exactly when the pair does not fit n vertices.
  */
  lemma PlaceBitCorrect(s: seq<CChar>, start: nat, n: nat, b: nat, d: Decoder)
    requires Ready(d, n, b) && Holds(d.adj, s, start, n, b) && DataBit(s, start, b)
    ensures PlaceBit(n, b, d).OutOfBounds? <==> Tri(n) <= b
    ensures PlaceBit(n, b, d).Placed? ==> Holds(PlaceBit(n, b, d).d.adj, s, start, n, b + 1)
  {
    hide PlaceBit, Holds, DataBit;
    var u, v := PlaceBitShape(n, b, d);
    if v >= n {
      TriMono(n, v);
    } else {
      TriMono(v + 1, n);
      AddEdgeHolds(d.adj, s, start, n, b, u, v);
    }
  }

  /** The positions of bits i < j < k of data byte index are clear when prev skips them. */
  lemma SkippedBits(s: seq<CChar>, start: nat, index: nat, i: int, k: nat, b: nat)
    requires InData(s, start, index) && -1 <= i < k <= 6
    requires forall j: nat | i < j < k :: !Bit(Low6(s[index]), j)
    requires 6 * (index - start) + 6 - k <= b < 6 * (index - start) + 5 - i
    ensures !DataBit(s, start, b)
  {
    ByteBits(s, start, index, b - 6 * (index - start));
  }

  /**
    The bits of data byte index below bit k: their pairs are added, and a
    write outside the list happens exactly when one of them does not fit.
  */
  lemma {:induction false} ScanBitsCorrect(s: seq<CChar>, start: nat, index: nat, n: nat, k: nat, d: Decoder)
    requires InData(s, start, index) && k <= 6
    requires Ready(d, n, 6 * (index - start) + 6 - k) && Holds(d.adj, s, start, n, 6 * (index - start) + 6 - k)
    ensures var base := 6 * (index - start);
      var r := ScanBits(n, Low6(s[index]), k, base, d);
      && (r.OutOfBounds? <==> exists b: nat :: base + 6 - k <= b < base + 6 && Tri(n) <= b && DataBit(s, start, b))
      && (r.Placed? ==> Holds(r.d.adj, s, start, n, base + 6))
    decreases k
  {
    hide PlaceBit, Holds, DataBit, Bit, Low6, Prev;
    var base := 6 * (index - start);
    var c := Low6(s[index]);
    var i := Prev(c, k);
    forall b | base + 6 - k <= b < base + 5 - i
      ensures !DataBit(s, start, b)
    {
      SkippedBits(s, start, index, i, k, b);
    }
    if i == -1 {
      HoldsSkip(d.adj, s, start, n, base + 6 - k, base + 6);
    } else {
      var at := base + 5 - i;
      HoldsSkip(d.adj, s, start, n, base + 6 - k, at);
      ByteBits(s, start, index, 5 - i);
      PlaceBitCorrect(s, start, n, at, d);
      if PlaceBit(n, at, d).Placed? {
        var next := PlaceBit(n, at, d).d;
        ScanBitsCorrect(s, start, index, n, i, next);
        assert ScanBits(n, c, k, base, d) == ScanBits(n, c, i, base, next);
      }
    }
  }

  /** Data bytes before index hold neither the newline nor the NUL. */
  predicate Clear(s: seq<CChar>, start: nat, index: nat)
  {
    forall t | start <= t < index :: t < |s| && s[t] != Newline && s[t] != Nul
  }

  /** A state that holds every data bit below the end of the data holds every pair of n vertices. */
  lemma HoldsAll(adj: seq<set<nat>>, s: seq<CChar>, start: nat, n: nat, p: nat)
    requires Holds(adj, s, start, n, p)
    requires forall b | p <= b :: !DataBit(s, start, b)
    ensures Holds(adj, s, start, n, Tri(n))
  {
    forall v: nat, u: nat | v < n && u < n && u != v
      ensures EdgeBelow(s, start, u, v, p) <==> EdgeBelow(s, start, u, v, Tri(n))
    {
      SlotBelow(u, v, n);
    }
  }

  /** Overflow from position p: in data byte p / 6, or later. */
  lemma OverflowSplit(s: seq<CChar>, start: nat, n: nat, p: nat)
    ensures OverflowsFrom(s, start, n, p)
      <==> (exists b: nat :: p <= b < p + 6 && Tri(n) <= b && DataBit(s, start, b)) || OverflowsFrom(s, start, n, p + 6)
  {
  }

  /**
    The data bytes from index on: the scan ends with the data's graph at a
    newline and rejects at the NUL, unless a set bit names a vertex beyond
    n first.
  */
  lemma {:induction false} ScanBytesCorrect(s: seq<CChar>, start: nat, n: nat, index: nat, d: Decoder)
    requires start <= index && Clear(s, start, index)
    requires Ready(d, n, 6 * (index - start)) && Holds(d.adj, s, start, n, 6 * (index - start))
    ensures var r := ScanBytes(s, n, start, index, d);
      && (r == Undefined <==> index > |s| || OverflowsFrom(s, start, n, 6 * (index - start)))
      && (r == Rejected <==> index <= |s| && !OverflowsFrom(s, start, n, 6 * (index - start))
                             && Char(s, Terminus(s, index)) == Nul)
      && (r.Graph? ==> Holds(r.adj, s, start, n, Tri(n)))
    decreases |s| + 1 - index
  {
    hide ScanBits, Holds, DataBit;
    var p := 6 * (index - start);
    if index <= |s| {
      var c := Char(s, index);
      if c == Newline || c == Nul {
        forall b | p <= b
          ensures !DataBit(s, start, b)
        {
          NoBitsBeyond(s, start, index, b);
        }
        HoldsAll(d.adj, s, start, n, p);
      } else {
        assert InData(s, start, index);
        ScanBitsCorrect(s, start, index, n, 6, d);
        OverflowSplit(s, start, n, p);
        var step := ScanBits(n, Low6(c), 6, p, d);
        if step.Placed? {
          ScanBytesCorrect(s, start, n, index + 1, step.d);
          assert 6 * (index + 1 - start) == p + 6;
        }
      }
    }
  }

  /** Where the data ends, seen from its start. */
  function DataEnd(s: seq<CChar>, n: nat): nat
  {
    var start := DataStart(s, n);
    if start <= |s| then Terminus(s, start) else start
  }

  /**
    loadGraph: it rejects a graph beyond the bitset size and data without a
    newline; it reads past the string when N(n) does; it writes outside the
    list when a bit names a vertex beyond n; otherwise the list holds
    exactly the pairs whose bits are set, in both directions.
  */
  lemma LoadGraphCorrect(s: seq<CChar>, n: nat, bitsetSize: nat)
    ensures var r := LoadGraph(s, n, bitsetSize);
      var start := DataStart(s, n);
      var fits := n <= 62 || n <= bitsetSize;
      && (r == Undefined <==> fits && (start > |s| || OverflowsFrom(s, start, n, 0)))
      && (r == Rejected <==> !fits || (start <= |s| && !OverflowsFrom(s, start, n, 0) && Char(s, DataEnd(s, n)) == Nul))
      && (r.Graph? ==> && |r.adj| == n
                       && WellFormed(r.adj)
                       && forall v: nat, u: nat | u < v < n :: u in r.adj[v] <==> DataBit(s, start, Tri(v) + u))
  {
    var start := DataStart(s, n);
    if n <= 62 || n <= bitsetSize {
      var d := Decoder(0, 1, seq(n, _ => {}));
      assert Holds(d.adj, s, start, n, 0);
      ScanBytesCorrect(s, start, n, start, d);
      var r := LoadGraph(s, n, bitsetSize);
      if r.Graph? {
        HoldsWellFormed(r.adj, s, start, n);
      }
    }
  }

  /** What a complete decoding holds is a graph. */
  lemma HoldsWellFormed(adj: seq<set<nat>>, s: seq<CChar>, start: nat, n: nat)
    requires Holds(adj, s, start, n, Tri(n))
    ensures WellFormed(adj)
    ensures forall v: nat, u: nat | u < v < n :: u in adj[v] <==> DataBit(s, start, Tri(v) + u)
  {
    hide DataBit;
    forall v: nat, u: nat | u < v < n
      ensures u in adj[v] <==> DataBit(s, start, Tri(v) + u)
    {
      SlotBelow(u, v, n);
    }
    forall v: nat, u: nat | v < n && u < n && u != v
      ensures u in adj[v] <==> v in adj[u]
    {
      assert Slot(u, v) == Slot(v, u);
    }
  }

  // ---------------------------------------------------------------------
  // Writing a graph in graph6: the partner of loadGraph.

  /** The column of position b, searched from column v on. */
  function ColumnFrom(b: nat, v: nat): (r: nat)
    requires v >= 1 && Tri(v) <= b
    ensures Tri(r) <= b < Tri(r + 1)
    decreases b - Tri(v)
  {
    if b < Tri(v + 1) then v else ColumnFrom(b, v + 1)
  }

  /** g joins the pair at position b. */
  predicate EdgeBit(g: Graph, b: nat)
  {
    var v := ColumnFrom(b, 1);
    v < |g| && b - Tri(v) in g[v]
  }

  /** The k bits of g at positions b, b + 1, ..., most significant first. */
  function Pack(g: Graph, b: nat, k: nat): (r: nat)
    ensures r < Pow2(k)
  {
    if k == 0 then 0 else 2 * Pack(g, b, k - 1) + (if EdgeBit(g, b + k - 1) then 1 else 0)
  }

  /** The number of data bytes for n vertices: Tri(n) bits, padded to a multiple of six. */
  function DataLength(n: nat): (r: nat)
    ensures Tri(n) <= 6 * r
  {
    (Tri(n) + 5) / 6
  }

  /** Data byte j: positions 6j to 6j + 5 plus 63. */
  function DataByte(g: Graph, j: nat): (c: CChar)
    ensures IsDigit(c) && c < 127
  {
    Pow2Values();
    (63 + Pack(g, 6 * j, 6)) as CChar
  }

  /** The graph6 string of g, with or without the header, ending in a newline. */
  function EncodeGraph(g: Graph, header: bool): (s: seq<CChar>)
    requires |g| <= 258047
  {
    WithHeader(header, EncodeCount(|g|)) + Data(g) + [Newline]
  }

  /** The data bytes of g. */
  function Data(g: Graph): (r: seq<CChar>)
    ensures |r| == DataLength(|g|)
    ensures forall j | 0 <= j < |r| :: r[j] == DataByte(g, j)
  {
    seq(DataLength(|g|), j requires 0 <= j => DataByte(g, j))
  }

  /** Bit k - 1 - t of a packed value is the bit at position b + t. */
  lemma {:induction false} PackBits(g: Graph, b: nat, k: nat, t: nat)
    requires t < k
    ensures Bit(Pack(g, b, k), k - 1 - t) <==> EdgeBit(g, b + t)
  {
    var x := Pack(g, b, k);
    if t < k - 1 {
      assert x / 2 == Pack(g, b, k - 1);
      PackBits(g, b, k - 1, t);
    }
  }

  /** A position inside the encoded data is the bit of its pair in g. */
  lemma EncodedBitInside(g: Graph, s: seq<CChar>, start: nat, b: nat)
    requires |g| <= 258047 && b / 6 < DataLength(|g|)
    requires start + DataLength(|g|) < |s|
    requires forall j | 0 <= j < DataLength(|g|) :: s[start + j] == DataByte(g, j)
    ensures DataBit(s, start, b) <==> EdgeBit(g, b)
  {
    var j := b / 6;
    forall t | start <= t <= start + j
      ensures s[t] != Newline && s[t] != Nul
    {
      assert s[t] == DataByte(g, t - start);
    }
    assert InData(s, start, start + j);
    assert b == 6 * j + b % 6;
    assert s[start + j] == DataByte(g, j);
    assert DataByte(g, j) as int == 63 + Pack(g, 6 * j, 6);
    assert Low6(s[start + j]) == Pack(g, 6 * j, 6);
    PackBits(g, 6 * j, 6, b % 6);
  }

  /** Position b of the encoded data is the bit of its pair in g. */
  lemma EncodedBit(g: Graph, s: seq<CChar>, start: nat, b: nat)
    requires |g| <= 258047
    requires start + DataLength(|g|) < |s| && s[start + DataLength(|g|)] == Newline
    requires forall j | 0 <= j < DataLength(|g|) :: s[start + j] == DataByte(g, j)
    ensures DataBit(s, start, b) <==> EdgeBit(g, b)
  {
    hide DataBit, EdgeBit, DataByte;
    if b / 6 < DataLength(|g|) {
      EncodedBitInside(g, s, start, b);
    } else {
      NoBitsBeyond(s, start, start + DataLength(|g|), b);
      EdgeBitBeyond(g, b);
    }
  }

  /** The pair (u, v), u < v, of g is the bit at its position. */
  lemma EdgeBitOfPair(g: Graph, u: nat, v: nat)
    requires u < v
    ensures EdgeBit(g, Tri(v) + u) <==> v < |g| && u in g[v]
  {
    var b := Tri(v) + u;
    ColumnUnique(ColumnFrom(b, 1), v, b);
  }

  /** The two graphs agree on every pair u < v, so they are equal. */
  lemma SameGraph(g: Graph, h: Graph)
    requires WellFormed(g) && WellFormed(h) && |g| == |h|
    requires forall v: nat, u: nat | u < v < |g| :: u in g[v] <==> u in h[v]
    ensures g == h
  {
    forall v | 0 <= v < |g|
      ensures g[v] == h[v]
    {
      forall u | u in g[v]
        ensures u in h[v]
      {
        assert u < |g| && u != v;
        if v < u {
          assert v in g[u];
        }
      }
      forall u | u in h[v]
        ensures u in g[v]
      {
        assert u < |g| && u != v;
        if v < u {
          assert v in h[u];
        }
      }
    }
  }

  /** N(n) of an order that loadGraph accepts takes one byte up to 62 and four above, none of them '>'. */
  lemma CountFieldShape(n: nat)
    requires n <= 258047
    ensures |EncodeCount(n)| == if n <= 62 then 1 else 4
    ensures EncodeCount(n)[0] != HeaderMark
  {
  }

  /** Where the parts of prefix + data + newline sit. */
  lemma Layout(prefix: seq<CChar>, data: seq<CChar>, s: seq<CChar>)
    requires s == prefix + data + [Newline]
    ensures |s| == |prefix| + |data| + 1 && s[|prefix| + |data|] == Newline
    ensures forall j | 0 <= j < |data| :: s[|prefix| + j] == data[j]
    ensures forall j | 0 <= j < |prefix| :: s[j] == prefix[j]
  {
  }

  /** The encoded string: N(n) read back, then the data bytes, then the newline. */
  lemma EncodedLayout(g: Graph, header: bool)
    requires |g| <= 258047
    ensures var s := EncodeGraph(g, header);
      var start := DataStart(s, |g|);
      && GetNumberOfVertices(s) == Value(|g|)
      && start + DataLength(|g|) < |s| && s[start + DataLength(|g|)] == Newline
      && forall j | 0 <= j < DataLength(|g|) :: s[start + j] == DataByte(g, j)
  {
    hide GetNumberOfVertices, DataByte, Pack, EdgeBit, EncodeCount, Data;
    var n := |g|;
    var field := EncodeCount(n);
    var prefix := WithHeader(header, field);
    var data := Data(g);
    var s := EncodeGraph(g, header);
    assert s == prefix + (data + [Newline]);
    CountRoundTrip(n, header, data + [Newline]);
    CountFieldShape(n);
    Layout(prefix, data, s);
    assert s[0] == if header then HeaderMark else field[0];
    assert DataStart(s, n) == |prefix|;
  }

  /** The encoded data ends at its newline, and its bits are the pairs of g and nothing beyond. */
  lemma EncodedData(g: Graph, header: bool)
    requires |g| <= 258047
    ensures var s := EncodeGraph(g, header);
      var start := DataStart(s, |g|);
      && start <= |s|
      && Char(s, Terminus(s, start)) == Newline
      && !OverflowsFrom(s, start, |g|, 0)
      && forall b: nat :: DataBit(s, start, b) <==> EdgeBit(g, b)
  {
    hide EncodeGraph, DataBit, EdgeBit, DataByte, GetNumberOfVertices;
    var n := |g|;
    var s := EncodeGraph(g, header);
    EncodedLayout(g, header);
    var start := DataStart(s, n);
    var end := start + DataLength(n);
    forall t | start <= t < end
      ensures s[t] != Newline && s[t] != Nul
    {
      assert s[t] == DataByte(g, t - start);
    }
    TerminusAt(s, start, end);
    forall b: nat
      ensures DataBit(s, start, b) <==> EdgeBit(g, b)
    {
      EncodedBit(g, s, start, b);
    }
    forall b: nat | Tri(n) <= b
      ensures !DataBit(s, start, b)
    {
      EdgeBitBeyond(g, b);
    }
  }

  /**
    Round trip: loadGraph reads back every graph that fits, from the string
    with or without the header, and getNumberOfVertices reads its order.
  */
  lemma LoadEncodedGraph(g: Graph, header: bool, bitsetSize: nat)
    requires WellFormed(g) && |g| <= 258047
    requires |g| <= 62 || |g| <= bitsetSize
    ensures LoadGraph(EncodeGraph(g, header), |g|, bitsetSize) == Graph(g)
    ensures GetNumberOfVertices(EncodeGraph(g, header)) == Value(|g|)
  {
    hide EncodeGraph, LoadGraph, DataBit, EdgeBit, GetNumberOfVertices, OverflowsFrom, Terminus, WellFormed, Char, DataStart;
    var n := |g|;
    var s := EncodeGraph(g, header);
    EncodedLayout(g, header);
    EncodedData(g, header);
    LoadGraphCorrect(s, n, bitsetSize);
    var r := LoadGraph(s, n, bitsetSize);
    assert r.Graph?;
    forall v: nat, u: nat | u < v < n
      ensures u in r.adj[v] <==> u in g[v]
    {
      EdgeBitOfPair(g, u, v);
    }
    SameGraph(r.adj, g);
  }

  /** No pair of g lies at or beyond position Tri(|g|). */
  lemma EdgeBitBeyond(g: Graph, b: nat)
    requires Tri(|g|) <= b
    ensures !EdgeBit(g, b)
  {
    var v := ColumnFrom(b, 1);
    if v < |g| {
      TriMono(v + 1, |g|);
    }
  }

  /** The first terminator from index on is end when the bytes before it are data. */
  lemma {:induction false} TerminusAt(s: seq<CChar>, index: nat, end: nat)
    requires index <= end < |s| && s[end] == Newline
    requires forall t | index <= t < end :: s[t] != Newline && s[t] != Nul
    ensures Terminus(s, index) == end
    decreases end - index
  {
    if index < end {
      TerminusAt(s, index + 1, end);
    }
  }
}
