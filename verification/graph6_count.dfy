/**
  The vertex count of a graph6 string (getNumberOfVertices in
  libs/readGraph6.c): an optional header whose first byte is '>', then the
  field N(n) in one of three forms: one byte n + 63 for n <= 62; '~' and
  three 6-bit digits (each plus 63, most significant first); '~~' and six
  such digits.

  A string is its characters up to the terminating NUL, which sits at index
  |s|; reading beyond it is undefined in C and yields PastEnd here. The
  digits are combined as the C code does, with 32-bit shifts and bitwise or
  on int, in two's complement (the shift and conversion semantics the GNU C
  compiler documents).
*/
module Graph6Count {

  /** A C char; char is signed on the platforms the program is built for. */
  type CChar = c: int | -128 <= c < 128

  const Nul: CChar := 0
  const Newline: CChar := 10
  const HeaderMark: CChar := 62
  const Tilde: CChar := 126
  /** ">>graph6<<", the optional header; only its first byte is looked at. */
  const Header: seq<CChar> := [62, 62, 103, 114, 97, 112, 104, 54, 60, 60]
  const HeaderLength: nat := 10

  /** graphString[i], for i up to the terminator. */
  function Char(s: seq<CChar>, i: nat): CChar
    requires i <= |s|
  {
    if i < |s| then s[i] else Nul
  }

  /** A byte of the N(n) field or the data: 63 plus a 6-bit value. */
  predicate IsDigit(c: int)
  {
    63 <= c <= 126
  }

  // ---------------------------------------------------------------------
  // 32-bit int arithmetic.

  const Two31: nat := 0x8000_0000
  const Two32: nat := 0x1_0000_0000

  function Pow2(k: nat): (r: nat)
    ensures r >= 1
  {
    if k == 0 then 1 else 2 * Pow2(k - 1)
  }

  lemma {:induction false} Pow2Add(a: nat, b: nat)
    ensures Pow2(a + b) == Pow2(a) * Pow2(b)
    decreases a
  {
    if a > 0 {
      Pow2Add(a - 1, b);
      assert Pow2(a + b) == 2 * Pow2(a - 1 + b);
    }
  }

  /** 64^i: the place value of a 6-bit digit i places from the right. */
  function Place(i: nat): (r: nat)
    ensures r >= 1
  {
    if i == 0 then 1 else 64 * Place(i - 1)
  }

  /** The place values start at one and step by 64. */
  lemma PlaceStep(i: nat)
    ensures Place(0) == 1 && Place(i + 1) == 64 * Place(i)
  {
  }

  /** The powers of two the 32-bit arithmetic needs. */
  lemma Pow2Values()
    ensures Pow2(6) == 64 && Pow2(32) == Two32
  {
    assert Pow2(2) == 4;
    assert Pow2(4) == 16 by { Pow2Add(2, 2); }
    assert Pow2(6) == 64 by { Pow2Add(4, 2); }
    assert Pow2(8) == 256 by { Pow2Add(4, 4); }
    assert Pow2(16) == 65536 by { Pow2Add(8, 8); }
    assert Pow2(32) == Two32 by { Pow2Add(16, 16); }
  }

  /** Shifting left by 6i multiplies by 64^i. */
  lemma {:induction false} PlaceIsShift(i: nat)
    ensures Pow2(6 * i) == Place(i)
  {
    if i > 0 {
      PlaceIsShift(i - 1);
      Pow2Add(6 * (i - 1), 6);
      Pow2Values();
    }
  }

  /** The bitwise or of two non-negative numbers, one binary digit at a time. */
  function BitOr(x: nat, y: nat): nat
    decreases x + y
  {
    if x == 0 then y
    else if y == 0 then x
    else 2 * BitOr(x / 2, y / 2) + (if x % 2 == 1 || y % 2 == 1 then 1 else 0)
  }

  /** Or-ing in a value that lies below the other operand's lowest bit adds it. */
  lemma {:induction false} BitOrDisjoint(a: nat, k: nat, b: nat)
    requires b < Pow2(k)
    ensures BitOr(a * Pow2(k), b) == a * Pow2(k) + b
    decreases k
  {
    if k > 0 && a != 0 && b != 0 {
      var x := a * Pow2(k);
      assert x == 2 * (a * Pow2(k - 1));
      assert x % 2 == 0 && x / 2 == a * Pow2(k - 1);
      BitOrDisjoint(a, k - 1, b / 2);
    }
  }

  /** Bitwise or stays within k bits. */
  lemma {:induction false} BitOrBelow(x: nat, y: nat, k: nat)
    requires x < Pow2(k) && y < Pow2(k)
    ensures BitOr(x, y) < Pow2(k)
    decreases k
  {
    if k > 0 && x != 0 && y != 0 {
      BitOrBelow(x / 2, y / 2, k - 1);
    }
  }

  /** The 32-bit pattern of an int value. */
  function Pattern32(v: int): (r: nat)
    ensures r < Two32
    ensures 0 <= v < Two32 ==> r == v
  {
    v % Two32
  }

  /** x << k on a 32-bit pattern: the bits shifted past bit 31 are lost. */
  function Shl32(x: nat, k: nat): (r: nat)
    ensures r < Two32
    ensures x * Pow2(k) < Two32 ==> r == x * Pow2(k)
  {
    (x * Pow2(k)) % Two32
  }

  /** The int value of a 32-bit pattern. */
  function Signed32(u: nat): (r: int)
    requires u < Two32
    ensures -(Two31 as int) <= r < Two31
    ensures r % Two32 == u
    ensures u < Two31 ==> r == u
  {
    if u < Two31 then u else u - Two32
  }

  /** One step of the digit loop on a valid digit, while the value fits in an int. */
  lemma AccumulateStep(p: nat, d: nat, i: nat)
    requires d < 64
    requires (p * 64 + d) * Place(i) < Two31
    ensures p * Place(i + 1) < Two32
    ensures BitOr(p * Place(i + 1), Shl32(Pattern32(d), 6 * i)) == (p * 64 + d) * Place(i)
  {
    hide BitOr, Pow2, Place, Shl32, Pattern32;
    var x := Place(i);
    PlaceIsShift(i);
    PlaceIsShift(i + 1);
    PlaceStep(i);
    DigitTerms(p, d, x);
    assert Pattern32(d) == d;
    assert Shl32(d, 6 * i) == d * x;
    BitOrDisjoint(p, 6 * (i + 1), d * x);
  }

  /** The arithmetic of one digit step: (64p + d)x splits into p(64x) and dx < 64x. */
  lemma DigitTerms(p: nat, d: nat, x: nat)
    requires d < 64 && x >= 1
    requires (p * 64 + d) * x < Two31
    ensures (p * 64 + d) * x == p * (64 * x) + d * x
    ensures 0 <= d * x < 64 * x && d * x < Two31
    ensures p * (64 * x) < Two31
  {
    var dx := d * x;
    assert (p * 64 + d) * x == p * (64 * x) + dx;
    MulLeft(d, 63, x);
  }

  lemma MulLeft(a: nat, b: nat, x: nat)
    requires a <= b
    ensures 0 <= a * x <= b * x
  {
  }

  // ---------------------------------------------------------------------
  // getNumberOfVertices.

  /** What getNumberOfVertices does: return an int, or read beyond the terminator. */
  datatype Read = Value(v: int) | PastEnd

  /**
    The digit loop: for i from the given value down to 0, or the digit at
    index, minus 63, shifted left by 6i, into number.
  */
  function Accumulate(s: seq<CChar>, index: nat, i: int, number: nat): (r: Read)
    requires number < Two32
    ensures r.Value? ==> -(Two31 as int) <= r.v < Two31
    decreases i + 1
  {
    if i < 0 then Value(Signed32(number))
    else if index > |s| then PastEnd
    else
      var shifted := Shl32(Pattern32(Char(s, index) as int - 63), 6 * i);
      Pow2Values();
      BitOrBelow(number, shifted, 32);
      Accumulate(s, index + 1, i - 1, BitOr(number, shifted))
  }

  /**
    The N(n) field at index: one byte below '~'; else '~' and three digits
    when the next byte is below '~'; else '~~' and six digits when the byte
    after is; else -1.
  */
  function ReadField(s: seq<CChar>, index: nat): (r: Read)
    ensures index > |s| ==> r == PastEnd
    ensures index <= |s| && Char(s, index) < Tilde ==> r == Value(Char(s, index) as int - 63)
  {
    if index > |s| then PastEnd
    else if Char(s, index) < Tilde then Value(Char(s, index) as int - 63)
    else if index + 1 > |s| then PastEnd
    else if Char(s, index + 1) < Tilde then Accumulate(s, index + 1, 2, 0)
    else if index + 2 > |s| then PastEnd
    else if Char(s, index + 2) < Tilde then Accumulate(s, index + 2, 5, 0)
    else Value(-1)
  }

  /**
    getNumberOfVertices: -1 for an empty string or a first byte that is
    neither '>' nor in 63..126; otherwise the N(n) field, after the header
    when the first byte is '>'.
  */
  function GetNumberOfVertices(s: seq<CChar>): (r: Read)
    ensures |s| == 0 ==> r == Value(-1)
    ensures |s| > 0 && !IsDigit(s[0]) && s[0] != HeaderMark ==> r == Value(-1)
    ensures |s| > 0 && IsDigit(s[0]) && s[0] < Tilde ==> r == Value(s[0] as int - 63)
  {
    if |s| == 0 then Value(-1)
    else if (s[0] < 63 || s[0] > 126) && s[0] != HeaderMark then Value(-1)
    else ReadField(s, if s[0] == HeaderMark then HeaderLength else 0)
  }

  /** main's test on the count: skip the graph on -1 or when it does not fit a bitset. */
  predicate SkipsCount(n: int, bitsetSize: nat)
  {
    n == -1 || n > bitsetSize
  }

  // ---------------------------------------------------------------------
  // The N(n) field of the graph6 format, as a writer produces it.

  /** The last count digits of n in base 64, most significant first, each plus 63. */
  function Digits(n: nat, count: nat): (r: seq<CChar>)
    ensures |r| == count
    ensures forall j | 0 <= j < |r| :: IsDigit(r[j])
  {
    if count == 0 then [] else Digits(n / 64, count - 1) + [(n % 64 + 63) as CChar]
  }

  predicate AllDigits(s: seq<CChar>, index: nat, count: nat)
    requires index + count <= |s|
  {
    forall t | index <= t < index + count :: IsDigit(s[t])
  }

  /** The digits of a valid prefix are valid, each worth 0 to 63. */
  lemma AllDigitsPrefix(s: seq<CChar>, index: nat, j: nat, k: nat)
    requires j <= k && index + k <= |s| && AllDigits(s, index, k)
    ensures AllDigits(s, index, j)
    ensures forall t | index <= t < index + k :: 0 <= s[t] as int - 63 < 64
  {
  }

  /** The value of count digits starting at index, most significant first. */
  function DigitsValue(s: seq<CChar>, index: nat, count: nat): int
    requires index + count <= |s|
  {
    if count == 0 then 0 else DigitsValue(s, index, count - 1) * 64 + (s[index + count - 1] as int - 63)
  }

  /** No digits are worth zero; one more digit shifts the value up by six bits. */
  lemma DigitsValueStep(s: seq<CChar>, index: nat, count: nat)
    requires index + count + 1 <= |s|
    ensures DigitsValue(s, index, 0) == 0
    ensures DigitsValue(s, index, count + 1) == DigitsValue(s, index, count) * 64 + (s[index + count] as int - 63)
  {
  }

  /** N(n) for n below 2^36. */
  function EncodeCount(n: nat): (r: seq<CChar>)
    requires n < 0x10_0000_0000
    ensures 1 <= |r| <= 8
    ensures forall j | 0 <= j < |r| :: IsDigit(r[j])
  {
    if n <= 62 then [(n + 63) as CChar]
    else if n <= 258047 then [Tilde] + Digits(n, 3)
    else [Tilde, Tilde] + Digits(n, 6)
  }

  /** The value of digits depends only on the digits. */
  lemma {:induction false} DigitsValueSlice(s: seq<CChar>, at: nat, t: seq<CChar>, count: nat)
    requires at + count <= |s| && count <= |t|
    requires forall j | 0 <= j < count :: s[at + j] == t[j]
    ensures DigitsValue(s, at, count) == DigitsValue(t, 0, count)
    decreases count
  {
    if count > 0 {
      DigitsValueSlice(s, at, t, count - 1);
    }
  }

  /** The digits written for n read back as n. */
  lemma {:induction false} DigitsRoundTrip(n: nat, count: nat)
    requires n < Place(count)
    ensures DigitsValue(Digits(n, count), 0, count) == n
    decreases count
  {
    if count > 0 {
      var s := Digits(n, count);
      var front := Digits(n / 64, count - 1);
      assert s == front + [(n % 64 + 63) as CChar];
      DigitsRoundTrip(n / 64, count - 1);
      DigitsValueSlice(s, 0, front, count - 1);
    }
  }

  /** count valid digits are a count-digit number. */
  lemma {:induction false} DigitsValueRange(s: seq<CChar>, index: nat, count: nat)
    requires index + count <= |s| && AllDigits(s, index, count)
    ensures 0 <= DigitsValue(s, index, count) < Place(count)
    decreases count
  {
    if count > 0 {
      DigitsValueRange(s, index, count - 1);
    }
  }

  /** The leading digits weigh at least their place value. */
  lemma {:induction false} DigitsValueGrows(s: seq<CChar>, index: nat, j: nat, more: nat)
    requires index + j + more <= |s| && AllDigits(s, index, j + more)
    ensures 0 <= DigitsValue(s, index, j) * Place(more) <= DigitsValue(s, index, j + more)
    decreases more
  {
    hide DigitsValue, Place, AllDigits;
    AllDigitsPrefix(s, index, j, j + more);
    DigitsValueRange(s, index, j);
    if more == 0 {
      PlaceStep(0);
    } else {
      AllDigitsPrefix(s, index, j + more - 1, j + more);
      DigitsValueGrows(s, index, j, more - 1);
      var a := DigitsValue(s, index, j);
      var x := Place(more - 1);
      var b := DigitsValue(s, index, j + more - 1);
      var d := s[index + j + more - 1] as int - 63;
      PlaceStep(more - 1);
      DigitsValueStep(s, index, j + more - 1);
      GrowsStep(a, x, b, d);
    }
  }

  lemma GrowsStep(a: int, x: int, b: int, d: int)
    requires 0 <= a * x <= b && d >= 0
    ensures 0 <= a * (64 * x) <= b * 64 + d
  {
    assert a * (64 * x) == (a * x) * 64;
  }

  /**
    The digit loop computes the value of valid digits exactly while that
    value fits in an int: after j of them, number holds their value shifted
    into place.
  */
  lemma {:induction false} AccumulateValue(s: seq<CChar>, start: nat, j: nat, i: nat)
    requires start + j + i + 1 <= |s| && AllDigits(s, start, j + i + 1)
    requires DigitsValue(s, start, j + i + 1) < Two31
    ensures 0 <= DigitsValue(s, start, j) * Place(i + 1) < Two32
    ensures Accumulate(s, start + j, i, DigitsValue(s, start, j) * Place(i + 1))
      == Value(DigitsValue(s, start, j + i + 1))
    decreases i
  {
    hide DigitsValue, Place, AllDigits, BitOr, Shl32, Pattern32, Pow2;
    var p := DigitsValue(s, start, j);
    var d := s[start + j] as int - 63;
    var next := DigitsValue(s, start, j + 1);
    AllDigitsPrefix(s, start, j, j + i + 1);
    DigitsValueRange(s, start, j);
    DigitsValueGrows(s, start, j + 1, i);
    DigitsValueStep(s, start, j);
    AccumulateStep(p, d, i);
    var number := p * Place(i + 1);
    assert Accumulate(s, start + j, i, number)
      == Accumulate(s, start + j + 1, i - 1, BitOr(number, Shl32(Pattern32(d), 6 * i)));
    if i == 0 {
      PlaceStep(0);
      assert Accumulate(s, start + j + 1, -1, next) == Value(next);
    } else {
      AccumulateValue(s, start, j + 1, i - 1);
    }
  }

  /** The first digit written is the most significant one. */
  lemma FirstDigits(n: nat)
    ensures Digits(n, 3)[0] == ((n / 64 / 64) % 64 + 63) as CChar
    ensures Digits(n, 6)[0] == ((n / 64 / 64 / 64 / 64 / 64) % 64 + 63) as CChar
  {
    assert Digits(n, 3)[0] == Digits(n / 64, 2)[0] == Digits(n / 64 / 64, 1)[0];
    assert Digits(n, 6)[0] == Digits(n / 64, 5)[0] == Digits(n / 64 / 64, 4)[0]
      == Digits(n / 64 / 64 / 64, 3)[0];
  }

  /** The count written at index reads back as itself. */
  lemma FieldRoundTrip(s: seq<CChar>, index: nat, n: nat)
    requires n < Two31
    requires index + |EncodeCount(n)| <= |s| && s[index..index + |EncodeCount(n)|] == EncodeCount(n)
    ensures ReadField(s, index) == Value(n)
  {
    var field := EncodeCount(n);
    assert forall j | 0 <= j < |field| :: s[index + j] == field[j];
    if n <= 62 {
      assert Char(s, index) == field[0];
    } else if n <= 258047 {
      MediumFieldRoundTrip(s, index, n);
    } else {
      LongFieldRoundTrip(s, index, n);
    }
  }

  lemma MediumFieldRoundTrip(s: seq<CChar>, index: nat, n: nat)
    requires 62 < n <= 258047
    requires index + 4 <= |s| && s[index] == Tilde
    requires forall j | 0 <= j < 3 :: s[index + 1 + j] == Digits(n, 3)[j]
    ensures ReadField(s, index) == Value(n)
  {
    hide Accumulate, DigitsValue, Digits;
    FirstDigits(n);
    var t := Digits(n, 3);
    assert Char(s, index + 1) == t[0];
    assert ReadField(s, index) == Accumulate(s, index + 1, 2, 0);
    assert AllDigits(s, index + 1, 3) by {
      forall k | index + 1 <= k < index + 1 + 3 ensures IsDigit(s[k]) {
        assert s[k] == t[k - index - 1];
      }
    }
    DigitsValueSlice(s, index + 1, t, 3);
    DigitsRoundTrip(n, 3);
    DigitsValueStep(s, index + 1, 0);
    AccumulateValue(s, index + 1, 0, 2);
  }

  lemma LongFieldRoundTrip(s: seq<CChar>, index: nat, n: nat)
    requires 258047 < n < Two31
    requires index + 8 <= |s| && s[index] == Tilde && s[index + 1] == Tilde
    requires forall j | 0 <= j < 6 :: s[index + 2 + j] == Digits(n, 6)[j]
    ensures ReadField(s, index) == Value(n)
  {
    hide Accumulate, DigitsValue, Digits;
    FirstDigits(n);
    var t := Digits(n, 6);
    assert Char(s, index + 2) == t[0];
    assert ReadField(s, index) == Accumulate(s, index + 2, 5, 0);
    assert AllDigits(s, index + 2, 6) by {
      forall k | index + 2 <= k < index + 2 + 6 ensures IsDigit(s[k]) {
        assert s[k] == t[k - index - 2];
      }
    }
    DigitsValueSlice(s, index + 2, t, 6);
    assert Place(6) == 68719476736;
    DigitsRoundTrip(n, 6);
    DigitsValueStep(s, index + 2, 0);
    AccumulateValue(s, index + 2, 0, 5);
  }

  /** The count of a string with an optional header before N(n). */
  function WithHeader(header: bool, field: seq<CChar>): (r: seq<CChar>)
    ensures |r| == |field| + (if header then HeaderLength else 0)
  {
    if header then Header + field else field
  }

  /**
    getNumberOfVertices reads back every count an int can hold, with or
    without the header, whatever follows the field.
  */
  lemma CountRoundTrip(n: nat, header: bool, rest: seq<CChar>)
    requires n < Two31
    ensures GetNumberOfVertices(WithHeader(header, EncodeCount(n)) + rest) == Value(n)
  {
    var field := EncodeCount(n);
    var s := WithHeader(header, field) + rest;
    var index: nat := if header then HeaderLength else 0;
    assert s[index..index + |field|] == field;
    assert s[0] == (if header then HeaderMark else field[0]);
    FieldRoundTrip(s, index, n);
  }

  // ---------------------------------------------------------------------
  // A count that is not -1 yet not a count.

  /**
    Behind a header, the byte read as the one-byte field is not checked: a
    header followed by the newline gives -53, and a header followed by '2'
    (byte 50) gives -13; main's test lets both through.
  */
  lemma HeaderCountEscapes(bitsetSize: nat)
    ensures GetNumberOfVertices(Header + [Newline]) == Value(-53)
    ensures !SkipsCount(-53, bitsetSize)
    ensures GetNumberOfVertices(Header + [50, Newline]) == Value(-13)
    ensures !SkipsCount(-13, bitsetSize)
  {
    var s := Header + [Newline];
    assert s[0] == HeaderMark && Char(s, HeaderLength) == Newline;
    var t := Header + [50, Newline];
    assert t[0] == HeaderMark && Char(t, HeaderLength) == 50;
  }

  /**
    In the three- and six-digit fields the bytes are not checked either,
    and the six digits carry 36 bits into a 32-bit int. "~??" and the
    newline read the newline as the last digit and give -53; "~~C????D"
    is 2^32 + 5 and wraps to 5; "~~A?????" is 2^31 and wraps to the least
    int. main's test lets all three through.
  */
  lemma FieldCountEscapes(bitsetSize: nat)
    ensures GetNumberOfVertices([Tilde, 63, 63, Newline]) == Value(-53)
    ensures !SkipsCount(-53, bitsetSize)
    ensures GetNumberOfVertices([Tilde, Tilde, 67, 63, 63, 63, 63, 68, Newline]) == Value(5)
    ensures bitsetSize >= 5 ==> !SkipsCount(5, bitsetSize)
    ensures GetNumberOfVertices([Tilde, Tilde, 65, 63, 63, 63, 63, 63, Newline]) == Value(-(Two31 as int))
    ensures !SkipsCount(-(Two31 as int), bitsetSize)
  {
    MediumNewline();
    LongWrapsToFive();
    LongWrapsToLeast();
  }

  /** The newline read as the last of three digits. */
  lemma MediumNewline()
    ensures GetNumberOfVertices([Tilde, 63, 63, Newline]) == Value(-53)
  {
    var s: seq<CChar> := [Tilde, 63, 63, Newline];
    assert Char(s, 0) == Tilde && Char(s, 1) == 63 && Char(s, 2) == 63 && Char(s, 3) == Newline;
    Pow2Values();
    var last := Two32 - 53;
    assert Pattern32(Newline as int - 63) == last;
    assert Shl32(last, 0) == last;
    hide Pattern32, Shl32;
    assert GetNumberOfVertices(s) == Accumulate(s, 1, 2, 0);
    hide GetNumberOfVertices;
    assert Accumulate(s, 1, 2, 0) == Accumulate(s, 2, 1, BitOr(0, Shl32(Pattern32(0), 12)));
    assert Accumulate(s, 2, 1, 0) == Accumulate(s, 3, 0, BitOr(0, Shl32(Pattern32(0), 6)));
    assert Accumulate(s, 3, 0, 0) == Accumulate(s, 4, -1, BitOr(0, Shl32(Pattern32(-53), 0)));
    assert Accumulate(s, 4, -1, last) == Value(Signed32(last));
  }

  /** One turn of the digit loop. */
  lemma AccumulateTurn(s: seq<CChar>, index: nat, i: nat, number: nat)
    requires number < Two32 && index <= |s|
    ensures var next := BitOr(number, Shl32(Pattern32(Char(s, index) as int - 63), 6 * i));
      next < Two32 && Accumulate(s, index, i, number) == Accumulate(s, index + 1, i - 1, next)
  {
    Pow2Values();
    BitOrBelow(number, Shl32(Pattern32(Char(s, index) as int - 63), 6 * i), 32);
  }

  /** Or-ing with zero changes nothing. */
  lemma BitOrZero(x: nat)
    ensures BitOr(0, x) == x && BitOr(x, 0) == x
  {
  }

  /** The shifts of the first and last of six digits in the wrapping examples. */
  lemma WrappingShifts()
    ensures Shl32(Pattern32(4), 30) == 0
    ensures Shl32(Pattern32(2), 30) == Two31
    ensures Shl32(Pattern32(5), 0) == 5
  {
    Pow2Add(2, 30);
    Pow2Add(1, 30);
    Pow2Values();
  }

  /** The loop ends with the number read as an int. */
  lemma AccumulateDone(s: seq<CChar>, index: nat, number: nat)
    requires number < Two32
    ensures Accumulate(s, index, -1, number) == Value(Signed32(number))
  {
  }

  /** A '?' digit leaves the number as it is. */
  lemma ZeroDigit(s: seq<CChar>, index: nat, i: nat, number: nat)
    requires number < Two32 && index <= |s| && Char(s, index) == 63
    ensures Accumulate(s, index, i, number) == Accumulate(s, index + 1, i - 1, number)
  {
    AccumulateTurn(s, index, i, number);
    assert Shl32(Pattern32(0), 6 * i) == 0;
  }

  /** A '~~' field without a header starts the six-digit loop at index 2. */
  lemma LongPrefix(s: seq<CChar>)
    requires |s| >= 3 && s[0] == Tilde && s[1] == Tilde && s[2] < Tilde
    ensures GetNumberOfVertices(s) == Accumulate(s, 2, 5, 0)
  {
    hide Accumulate;
    assert Char(s, 0) == Tilde && Char(s, 1) == Tilde && Char(s, 2) < Tilde;
  }

  /** Four '?' digits in the middle of six leave the number as it is. */
  lemma MiddleZeros(s: seq<CChar>, number: nat)
    requires |s| >= 7 && number < Two32
    requires s[3] == 63 && s[4] == 63 && s[5] == 63 && s[6] == 63
    ensures Accumulate(s, 3, 4, number) == Accumulate(s, 7, 0, number)
  {
    hide Accumulate, Pattern32, Shl32, Pow2, BitOr;
    assert Char(s, 3) == 63 && Char(s, 4) == 63 && Char(s, 5) == 63 && Char(s, 6) == 63;
    ZeroDigit(s, 3, 4, number);
    ZeroDigit(s, 4, 3, number);
    ZeroDigit(s, 5, 2, number);
    ZeroDigit(s, 6, 1, number);
  }

  /** Bit 2 of the first of six digits lands on bit 32 and is lost. */
  lemma LongWrapsToFive()
    ensures GetNumberOfVertices([Tilde, Tilde, 67, 63, 63, 63, 63, 68, Newline]) == Value(5)
  {
    hide Accumulate, Pattern32, Shl32, Pow2, BitOr, GetNumberOfVertices;
    var s: seq<CChar> := [Tilde, Tilde, 67, 63, 63, 63, 63, 68, Newline];
    LongPrefix(s);
    WrappingShifts();
    BitOrZero(0);
    BitOrZero(5);
    assert Char(s, 2) == 67 && Char(s, 7) == 68;
    AccumulateTurn(s, 2, 5, 0);
    MiddleZeros(s, 0);
    AccumulateTurn(s, 7, 0, 0);
    AccumulateDone(s, 8, 5);
  }

  /** Bit 1 of the first of six digits lands on the sign bit. */
  lemma LongWrapsToLeast()
    ensures GetNumberOfVertices([Tilde, Tilde, 65, 63, 63, 63, 63, 63, Newline]) == Value(-(Two31 as int))
  {
    hide Accumulate, Pattern32, Shl32, Pow2, BitOr, GetNumberOfVertices;
    var s: seq<CChar> := [Tilde, Tilde, 65, 63, 63, 63, 63, 63, Newline];
    LongPrefix(s);
    WrappingShifts();
    BitOrZero(0);
    BitOrZero(Two31);
    assert Char(s, 2) == 65 && Char(s, 7) == 63;
    AccumulateTurn(s, 2, 5, 0);
    MiddleZeros(s, Two31);
    ZeroDigit(s, 7, 0, Two31);
    AccumulateDone(s, 8, Two31);
  }

  /**
    getNumberOfVertices with every byte of the field checked to be a digit
    and the value to fit in an int: -1 or a count, never another negative
    number, and never a read beyond the terminator. It agrees with
    getNumberOfVertices whenever it accepts.
  */
  function GetNumberOfVerticesChecked(s: seq<CChar>): (r: int)
    ensures r >= -1
  {
    if |s| == 0 || !(IsDigit(s[0]) || s[0] == HeaderMark) then -1
    else
      var index: nat := if s[0] == HeaderMark then HeaderLength else 0;
      if index < |s| && IsDigit(s[index]) && s[index] < Tilde then s[index] as int - 63
      else if index + 4 <= |s| && s[index] == Tilde && s[index + 1] < Tilde && AllDigits(s, index + 1, 3) then
        DigitsValueRange(s, index + 1, 3);
        DigitsValue(s, index + 1, 3)
      else if index + 8 <= |s| && s[index] == Tilde && s[index + 1] == Tilde && s[index + 2] < Tilde
              && AllDigits(s, index + 2, 6) && DigitsValue(s, index + 2, 6) < Two31 then
        DigitsValueRange(s, index + 2, 6);
        DigitsValue(s, index + 2, 6)
      else -1
  }

  /** The checked reader skips each of the inputs getNumberOfVertices lets through. */
  lemma CheckedRejectsEscapes()
    ensures GetNumberOfVerticesChecked(Header + [Newline]) == -1
    ensures GetNumberOfVerticesChecked(Header + [50, Newline]) == -1
    ensures GetNumberOfVerticesChecked([Tilde, 63, 63, Newline]) == -1
    ensures GetNumberOfVerticesChecked([Tilde, Tilde, 67, 63, 63, 63, 63, 68, Newline]) == -1
    ensures GetNumberOfVerticesChecked([Tilde, Tilde, 65, 63, 63, 63, 63, 63, Newline]) == -1
  {
    var s := Header + [Newline];
    assert s[0] == HeaderMark && s[HeaderLength] == Newline;
    var t := Header + [50, Newline];
    assert t[0] == HeaderMark && t[HeaderLength] == 50 && |t| < HeaderLength + 4;
    var u: seq<CChar> := [Tilde, 63, 63, Newline];
    assert !IsDigit(u[3]);
    LongTooBig([Tilde, Tilde, 67, 63, 63, 63, 63, 68, Newline]);
    LongTooBig([Tilde, Tilde, 65, 63, 63, 63, 63, 63, Newline]);
  }

  /** Six digits whose first is worth 2 or more do not fit in an int. */
  lemma LongTooBig(s: seq<CChar>)
    requires |s| >= 8 && s[0] == Tilde && s[1] == Tilde && 65 <= s[2] < Tilde
    ensures GetNumberOfVerticesChecked(s) == -1
  {
    if AllDigits(s, 2, 6) {
      DigitsValueGrows(s, 2, 1, 5);
      assert DigitsValue(s, 2, 1) == s[2] as int - 63;
      assert Place(5) == 1073741824;
    }
  }

  /** Whenever the checked reader accepts, getNumberOfVertices returns the same count. */
  lemma CheckedAgrees(s: seq<CChar>)
    ensures GetNumberOfVerticesChecked(s) >= 0 ==> GetNumberOfVertices(s) == Value(GetNumberOfVerticesChecked(s))
  {
    if |s| > 0 && (IsDigit(s[0]) || s[0] == HeaderMark) {
      var index: nat := if s[0] == HeaderMark then HeaderLength else 0;
      assert GetNumberOfVertices(s) == ReadField(s, index);
      hide GetNumberOfVertices, Accumulate, ReadField, DigitsValue, AllDigits;
      if index < |s| && IsDigit(s[index]) && s[index] < Tilde {
        assert Char(s, index) == s[index];
      } else if index + 4 <= |s| && s[index] == Tilde && s[index + 1] < Tilde && AllDigits(s, index + 1, 3) {
        MediumField(s, index);
      } else if index + 8 <= |s| && s[index] == Tilde && s[index + 1] == Tilde && s[index + 2] < Tilde
              && AllDigits(s, index + 2, 6) && DigitsValue(s, index + 2, 6) < Two31 {
        LongField(s, index);
      }
    }
  }

  /** A '~' and three digits read as their base-64 value. */
  lemma MediumField(s: seq<CChar>, index: nat)
    requires index + 4 <= |s| && s[index] == Tilde && s[index + 1] < Tilde && AllDigits(s, index + 1, 3)
    ensures ReadField(s, index) == Value(DigitsValue(s, index + 1, 3))
  {
    hide Accumulate, DigitsValue, AllDigits;
    assert Char(s, index) == Tilde && Char(s, index + 1) < Tilde;
    assert ReadField(s, index) == Accumulate(s, index + 1, 2, 0);
    DigitsValueRange(s, index + 1, 3);
    AccumulateValue(s, index + 1, 0, 2);
    DigitsValueStep(s, index + 1, 0);
  }

  /** '~~' and six digits read as their base-64 value when it fits an int. */
  lemma LongField(s: seq<CChar>, index: nat)
    requires index + 8 <= |s| && s[index] == Tilde && s[index + 1] == Tilde && s[index + 2] < Tilde
    requires AllDigits(s, index + 2, 6) && DigitsValue(s, index + 2, 6) < Two31
    ensures ReadField(s, index) == Value(DigitsValue(s, index + 2, 6))
  {
    hide Accumulate, DigitsValue, AllDigits;
    assert Char(s, index) == Tilde && Char(s, index + 1) == Tilde && Char(s, index + 2) < Tilde;
    assert ReadField(s, index) == Accumulate(s, index + 2, 5, 0);
    DigitsValueRange(s, index + 2, 6);
    AccumulateValue(s, index + 2, 0, 5);
    DigitsValueStep(s, index + 2, 0);
  }

  /** The checked count reads back every count an int can hold. */
  lemma CheckedCountRoundTrip(n: nat, header: bool, rest: seq<CChar>)
    requires n < Two31
    ensures GetNumberOfVerticesChecked(WithHeader(header, EncodeCount(n)) + rest) == n
  {
    hide GetNumberOfVertices, Accumulate, ReadField, DigitsValue;
    var field := EncodeCount(n);
    var s := WithHeader(header, field) + rest;
    var index: nat := if header then HeaderLength else 0;
    assert s[index..index + |field|] == field;
    assert forall j | 0 <= j < |field| :: s[index + j] == field[j];
    assert s[0] == (if header then HeaderMark else field[0]);
    if n <= 62 {
      CheckedShort(s, index, n);
    } else if n <= 258047 {
      CheckedMedium(s, index, n);
    } else {
      CheckedLong(s, index, n);
    }
  }

  lemma CheckedShort(s: seq<CChar>, index: nat, n: nat)
    requires n <= 62
    requires |s| > 0 && (if s[0] == HeaderMark then index == HeaderLength else index == 0 && IsDigit(s[0]))
    requires index < |s| && s[index] == n + 63
    ensures GetNumberOfVerticesChecked(s) == n
  {
  }

  lemma CheckedMedium(s: seq<CChar>, index: nat, n: nat)
    requires 62 < n <= 258047
    requires |s| > 0 && (if s[0] == HeaderMark then index == HeaderLength else index == 0 && IsDigit(s[0]))
    requires index + 4 <= |s| && s[index] == Tilde
    requires forall j | 0 <= j < 3 :: s[index + 1 + j] == Digits(n, 3)[j]
    ensures GetNumberOfVerticesChecked(s) == n
  {
    hide DigitsValue, Digits, GetNumberOfVertices, Accumulate;
    FirstDigits(n);
    var t := Digits(n, 3);
    assert s[index + 1] == t[0];
    assert AllDigits(s, index + 1, 3) by {
      forall k | index + 1 <= k < index + 1 + 3 ensures IsDigit(s[k]) {
        assert s[k] == t[k - index - 1];
      }
    }
    DigitsValueSlice(s, index + 1, t, 3);
    DigitsRoundTrip(n, 3);
  }

  lemma CheckedLong(s: seq<CChar>, index: nat, n: nat)
    requires 258047 < n < Two31
    requires |s| > 0 && (if s[0] == HeaderMark then index == HeaderLength else index == 0 && IsDigit(s[0]))
    requires index + 8 <= |s| && s[index] == Tilde && s[index + 1] == Tilde
    requires forall j | 0 <= j < 6 :: s[index + 2 + j] == Digits(n, 6)[j]
    ensures GetNumberOfVerticesChecked(s) == n
  {
    hide DigitsValue, Digits, GetNumberOfVertices, Accumulate;
    FirstDigits(n);
    var t := Digits(n, 6);
    assert s[index + 2] == t[0];
    assert AllDigits(s, index + 2, 6) by {
      forall k | index + 2 <= k < index + 2 + 6 ensures IsDigit(s[k]) {
        assert s[k] == t[k - index - 2];
      }
    }
    DigitsValueSlice(s, index + 2, t, 6);
    assert Place(6) == 68719476736;
    DigitsRoundTrip(n, 6);
  }
}
