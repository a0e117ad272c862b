/**
 Integer conversions of the HAL's log printf (%d %i %u %o %x %X with width and zero padding) and of
 alt_printf (%x), on 32-bit values.
 */
module IntegerPrinting {
  import opened Options

  const TWO_31: nat := 0x8000_0000
  const TWO_32: nat := 0x1_0000_0000

  // ----- Products and quotients -----

  lemma MulMonotone(a: nat, b: nat, c: nat)
    requires a <= b
    ensures a * c <= b * c
  {
    assert b * c == a * c + (b - a) * c;
  }

  /** x is at most the quotient exactly when x multiples fit. */
  lemma QuotientBound(v: nat, x: nat, base: nat)
    requires base > 0
    ensures x * base <= v <==> x <= v / base
  {
    var q := v / base;
    assert q * base <= v < (q + 1) * base;
    if x <= q {
      MulMonotone(x, q, base);
    } else {
      MulMonotone(q + 1, x, base);
    }
  }

  lemma QuotientUnique(a: nat, b: nat, c: nat, d: nat, base: nat)
    requires b < base && d < base && a * base + b == c * base + d
    ensures a == c && b == d
  {
    var v := a * base + b;
    assert (a + 1) * base == a * base + base && (c + 1) * base == c * base + base;
    QuotientBound(v, a, base);
    QuotientBound(v, a + 1, base);
    QuotientBound(v, c, base);
    QuotientBound(v, c + 1, base);
  }

  lemma QuotientFacts(v: nat, p: nat)
    requires p > 0
    ensures v / p >= 0 && 0 <= v % p < p && v == v / p * p + v % p
  {}

  lemma Shrinks(n: nat, base: nat)
    requires n > 0 && base >= 2
    ensures 0 <= n / base < n
  {
    MulMonotone(2, base, n / base);
  }

  lemma Regroup(a: nat, b: nat, d: nat, p: nat)
    ensures (a * b + d) * p == a * (p * b) + d * p
  {
    assert (a * b + d) * p == (a * b) * p + d * p;
    assert (a * b) * p == a * (b * p);
  }

  /** Splitting one more place off the rest of a value. */
  lemma TakePlace(v0: nat, high: nat, v: nat, p: nat, base: nat)
    requires p > 0 && v < p * base && high * (p * base) + v == v0
    ensures v / p < base && (high * base + v / p) * p + v % p == v0
  {
    QuotientFacts(v, p);
    QuotientBound(v, base, p);
    Regroup(high, base, v / p, p);
  }

  // ----- Positional notation -----

  function Pow(base: nat, k: nat): nat {
    if k == 0 then 1 else Pow(base, k - 1) * base
  }

  /** The number a digit sequence denotes, most significant digit first. */
  function Value(ds: seq<nat>, base: nat): nat {
    if ds == [] then 0 else Value(ds[..|ds| - 1], base) * base + ds[|ds| - 1]
  }

  /** Digits in range, at least one, and no leading zero unless it is the only digit. */
  predicate Canonical(ds: seq<nat>, base: nat) {
    && ds != []
    && (forall i :: 0 <= i < |ds| ==> ds[i] < base)
    && (|ds| > 1 ==> ds[0] != 0)
  }

  lemma AppendValue(ds: seq<nat>, d: nat, base: nat)
    ensures Value(ds + [d], base) == Value(ds, base) * base + d
  {
    assert (ds + [d])[..|ds|] == ds;
  }

  /** The canonical digits of v. */
  function Digits(v: nat, base: nat): (ds: seq<nat>)
    requires base >= 2
    ensures Canonical(ds, base) && Value(ds, base) == v
    ensures v > 0 ==> ds[0] != 0
    decreases v
  {
    if v < base then [v]
    else
      QuotientFacts(v, base);
      QuotientBound(v, 1, base);
      Shrinks(v, base);
      var high := Digits(v / base, base);
      AppendValue(high, v % base, base);
      high + [v % base]
  }

  lemma {:induction false} PositiveValue(ds: seq<nat>, base: nat)
    requires ds != [] && ds[0] != 0 && base >= 1
    ensures Value(ds, base) > 0
    decreases |ds|
  {
    if |ds| > 1 {
      var high := ds[..|ds| - 1];
      PositiveValue(high, base);
      assert Value(high, base) * base >= Value(high, base);
    }
  }

  /** A number has only one canonical notation. */
  lemma {:induction false} CanonicalUnique(a: seq<nat>, b: seq<nat>, base: nat)
    requires base >= 2 && Canonical(a, base) && Canonical(b, base) && Value(a, base) == Value(b, base)
    ensures a == b
    decreases |a|
  {
    var a', b' := a[..|a| - 1], b[..|b| - 1];
    QuotientUnique(Value(a', base), a[|a| - 1], Value(b', base), b[|b| - 1], base);
    if |a| > 1 {
      PositiveValue(a', base);
    }
    if |b| > 1 {
      PositiveValue(b', base);
    }
    if |a| > 1 {
      CanonicalUnique(a', b', base);
    }
    assert a == a' + [a[|a| - 1]] && b == b' + [b[|b| - 1]];
  }

  // ----- The printed field -----

  function DigitChar(d: nat, upper: bool): char
    requires d < 16
  {
    if d <= 9 then '0' + d as char else (if upper then 'A' else 'a') + (d - 10) as char
  }

  function Text(ds: seq<nat>, upper: bool): (t: string)
    requires forall i :: 0 <= i < |ds| ==> ds[i] < 16
    ensures |t| == |ds|
  {
    seq(|ds|, i requires 0 <= i < |ds| => DigitChar(ds[i], upper))
  }

  function Repeat(c: char, n: int): (s: string)
    ensures |s| == if n > 0 then n else 0
    ensures forall i :: 0 <= i < |s| ==> s[i] == c
  {
    if n <= 0 then "" else Repeat(c, n - 1) + [c]
  }

  /** What a 32-bit argument means under a signed or unsigned conversion. */
  function Meaning(raw: nat, signed: bool): int { if signed && raw >= TWO_31 then raw - TWO_32 else raw }

  function Magnitude(m: int): nat { if m < 0 then -m else m }

  function Sign(m: int): string { if m < 0 then "-" else "" }

  /** Spaces go before the sign, zeros after it. */
  function Layout(sign: string, body: string, zeros: bool, width: int): string {
    var pad := width - |sign| - |body|;
    if zeros then sign + Repeat('0', pad) + body else Repeat(' ', pad) + sign + body
  }

  /** The field for meaning m. */
  function Field(m: int, base: nat, upper: bool, zeros: bool, width: int): string
    requires 2 <= base <= 16
  {
    Layout(Sign(m), Text(Digits(Magnitude(m), base), upper), zeros, width)
  }

  // ----- Reading a field back -----

  function CharDigit(c: char): Option<nat> {
    if '0' <= c <= '9' then Some((c - '0') as nat)
    else if 'a' <= c <= 'f' then Some((c - 'a') as nat + 10)
    else if 'A' <= c <= 'F' then Some((c - 'A') as nat + 10)
    else None
  }

  /** A run of digits, read as a number. */
  function ReadDigits(s: string, base: nat): Option<nat> {
    if s == "" then Some(0)
    else
      var high, low := ReadDigits(s[..|s| - 1], base), CharDigit(s[|s| - 1]);
      if high.Some? && low.Some? && low.value < base then Some(high.value * base + low.value) else None
  }

  /** Blanks, an optional minus sign, and at least one digit. */
  function ReadField(s: string, base: nat): Option<int> {
    if s == "" then None
    else if s[0] == ' ' then ReadField(s[1..], base)
    else if s[0] == '-' then
      if |s| == 1 then None
      else
        var n := ReadDigits(s[1..], base);
        if n.Some? then Some(-(n.value as int)) else None
    else
      var n := ReadDigits(s, base);
      if n.Some? then Some(n.value) else None
  }

  lemma ReadAppend(s: string, c: char, n: nat, d: nat, base: nat)
    requires ReadDigits(s, base) == Some(n) && CharDigit(c) == Some(d) && d < base
    ensures ReadDigits(s + [c], base) == Some(n * base + d)
  {
    assert (s + [c])[..|s|] == s;
  }

  lemma CharReadsBack(d: nat, upper: bool)
    requires d < 16
    ensures CharDigit(DigitChar(d, upper)) == Some(d)
  {}

  lemma {:induction false} ReadText(ds: seq<nat>, base: nat, upper: bool)
    requires base <= 16 && forall i :: 0 <= i < |ds| ==> ds[i] < base
    ensures ReadDigits(Text(ds, upper), base) == Some(Value(ds, base))
    decreases |ds|
  {
    if ds != [] {
      var high, d := ds[..|ds| - 1], ds[|ds| - 1];
      ReadText(high, base, upper);
      CharReadsBack(d, upper);
      ReadAppend(Text(high, upper), DigitChar(d, upper), Value(high, base), d, base);
      assert Text(ds, upper) == Text(high, upper) + [DigitChar(d, upper)];
    }
  }

  lemma {:induction false} ReadZeros(n: int, base: nat)
    requires base >= 2
    ensures ReadDigits(Repeat('0', n), base) == Some(0)
    decreases n
  {
    if n > 0 {
      ReadZeros(n - 1, base);
      ReadAppend(Repeat('0', n - 1), '0', 0, 0, base);
    }
  }

  lemma {:induction false} ReadPadded(n: int, s: string, base: nat)
    requires base >= 2 && ReadDigits(s, base).Some?
    ensures ReadDigits(Repeat('0', n) + s, base) == ReadDigits(s, base)
    decreases |s|
  {
    var zeros := Repeat('0', n);
    if s == "" {
      assert zeros + s == zeros;
      ReadZeros(n, base);
    } else {
      var s', c := s[..|s| - 1], s[|s| - 1];
      ReadPadded(n, s', base);
      ReadAppend(zeros + s', c, ReadDigits(s', base).value, CharDigit(c).value, base);
      assert zeros + s == zeros + s' + [c];
    }
  }

  lemma {:induction false} ReadBlanks(n: int, s: string, base: nat)
    ensures ReadField(Repeat(' ', n) + s, base) == ReadField(s, base)
    decreases n
  {
    var t := Repeat(' ', n) + s;
    if n <= 0 {
      assert t == s;
    } else {
      assert t[0] == ' ';
      assert t[1..] == Repeat(' ', n - 1) + s;
      ReadBlanks(n - 1, s, base);
    }
  }

  lemma ReadSigned(m: int, digits: string, base: nat)
    requires digits != "" && digits[0] != ' ' && digits[0] != '-'
    requires ReadDigits(digits, base) == Some(Magnitude(m))
    ensures ReadField(Sign(m) + digits, base) == Some(m)
  {
    var t := Sign(m) + digits;
    if m < 0 {
      assert t[0] == '-' && t[1..] == digits;
    } else {
      assert t == digits;
    }
  }

  lemma ZerosReadBack(m: int, body: string, base: nat, pad: int)
    requires base >= 2 && body != "" && body[0] != ' ' && body[0] != '-'
    requires ReadDigits(body, base) == Some(Magnitude(m))
    ensures ReadField(Sign(m) + Repeat('0', pad) + body, base) == Some(m)
  {
    var digits := Repeat('0', pad) + body;
    ReadPadded(pad, body, base);
    ReadSigned(m, digits, base);
    assert Sign(m) + Repeat('0', pad) + body == Sign(m) + digits;
  }

  lemma BlanksReadBack(m: int, body: string, base: nat, pad: int)
    requires body != "" && body[0] != ' ' && body[0] != '-'
    requires ReadDigits(body, base) == Some(Magnitude(m))
    ensures ReadField(Repeat(' ', pad) + Sign(m) + body, base) == Some(m)
  {
    ReadSigned(m, body, base);
    ReadBlanks(pad, Sign(m) + body, base);
    assert Repeat(' ', pad) + Sign(m) + body == Repeat(' ', pad) + (Sign(m) + body);
  }

  lemma LayoutReadsBack(m: int, body: string, base: nat, zeros: bool, width: int)
    requires base >= 2 && body != "" && body[0] != ' ' && body[0] != '-'
    requires ReadDigits(body, base) == Some(Magnitude(m))
    ensures ReadField(Layout(Sign(m), body, zeros, width), base) == Some(m)
  {
    var pad := width - |Sign(m)| - |body|;
    if zeros {
      ZerosReadBack(m, body, base, pad);
    } else {
      BlanksReadBack(m, body, base, pad);
    }
  }

  /** Round trip: every field reads back as the value printed, whatever the base, case, padding and width. */
  lemma FieldReadsBack(m: int, base: nat, upper: bool, zeros: bool, width: int)
    requires 2 <= base <= 16
    ensures ReadField(Field(m, base, upper, zeros, width), base) == Some(m)
  {
    var ds := Digits(Magnitude(m), base);
    ReadText(ds, base, upper);
    assert Text(ds, upper)[0] == DigitChar(ds[0], upper);
    LayoutReadsBack(m, Text(ds, upper), base, zeros, width);
  }

  /** The field is as wide as asked, or as wide as the sign and digits need. */
  lemma FieldLength(m: int, base: nat, upper: bool, zeros: bool, width: int)
    requires 2 <= base <= 16
    ensures var need := |Sign(m)| + |Digits(Magnitude(m), base)|;
            |Field(m, base, upper, zeros, width)| == if width > need then width else need
  {}

  /** A digit in the asked for case. */
  predicate IsDigitIn(c: char, upper: bool) { '0' <= c <= '9' || if upper then 'A' <= c <= 'F' else 'a' <= c <= 'f' }

  lemma TextLooks(ds: seq<nat>, upper: bool)
    requires forall i :: 0 <= i < |ds| ==> ds[i] < 16
    ensures forall i :: 0 <= i < |ds| ==> IsDigitIn(Text(ds, upper)[i], upper)
  {}

  lemma LayoutLooks(sign: string, body: string, upper: bool, zeros: bool, width: int)
    requires sign == "" || sign == "-"
    requires forall i :: 0 <= i < |body| ==> IsDigitIn(body[i], upper)
    ensures var out := Layout(sign, body, zeros, width);
            && (forall i :: 0 <= i < |out| ==> IsDigitIn(out[i], upper) || out[i] == '-' || (!zeros && out[i] == ' '))
            && |out| >= |sign + body| && |out| >= width
  {}

  /** A field consists of digits of the asked for case and a sign, and blanks only without the zero flag. */
  lemma FieldLooks(m: int, base: nat, upper: bool, zeros: bool, width: int)
    requires 2 <= base <= 16
    ensures var out := Field(m, base, upper, zeros, width);
            && (forall i :: 0 <= i < |out| ==> IsDigitIn(out[i], upper) || out[i] == '-' || (!zeros && out[i] == ' '))
            && |out| >= width
  {
    TextLooks(Digits(Magnitude(m), base), upper);
    LayoutLooks(Sign(m), Text(Digits(Magnitude(m), base), upper), upper, zeros, width);
  }

  /** Fields of one format are equal only for equal 32-bit arguments. */
  lemma FieldDetermines(a: nat, b: nat, signed: bool, base: nat, upper: bool, zeros: bool, width: int)
    requires 2 <= base <= 16 && a < TWO_32 && b < TWO_32
    requires Field(Meaning(a, signed), base, upper, zeros, width)
          == Field(Meaning(b, signed), base, upper, zeros, width)
    ensures a == b
  {
    FieldReadsBack(Meaning(a, signed), base, upper, zeros, width);
    FieldReadsBack(Meaning(b, signed), base, upper, zeros, width);
  }

  // ----- The conversions -----

  /** shrink is the number of whole places in v. */
  ghost predicate Fits(v: nat, place: nat, shrink: nat) { place * shrink <= v < place * shrink + place }

  lemma ScaleDown(v: nat, place: nat, shrink: nat, base: nat)
    requires base >= 2 && Fits(v, place, shrink)
    ensures Fits(v, place * base, shrink / base)
  {
    var q, r := shrink / base, shrink % base;
    assert shrink == base * q + r;
    assert place * shrink == place * (base * q) + place * r;
    assert place * (base * q) == place * base * q;
    MulMonotone(r + 1, base, place);
  }

  lemma FitsBelow(v: nat, place: nat, shrink: nat)
    requires Fits(v, place, shrink)
    ensures if shrink > 0 then place <= v else v < place
  {
    if shrink > 0 {
      MulMonotone(1, shrink, place);
    }
  }

  lemma {:induction false} PowPositive(base: nat, k: nat)
    requires base >= 1
    ensures Pow(base, k) >= 1
  {
    if k > 0 {
      PowPositive(base, k - 1);
    }
  }

  /** The digit count is the least k with v < base^k. */
  lemma {:induction false} DigitCount(v: nat, k: nat, base: nat)
    requires base >= 2 && k > 0 && v < Pow(base, k) && (k > 1 ==> Pow(base, k - 1) <= v)
    ensures |Digits(v, base)| == k
    decreases k
  {
    if k > 1 {
      PowPositive(base, k - 2);
      QuotientBound(v, Pow(base, k - 2), base);
      QuotientBound(v, Pow(base, k - 1), base);
      DigitCount(v / base, k - 1, base);
    }
  }

  /** While digits are left, the next place value is at most v, so it fits in 32 bits. */
  lemma NextPlaceFits(v: nat, k: nat, shrink: nat, base: nat)
    requires base >= 2 && k > 0 && shrink > 0 && v < TWO_32 && Fits(v, Pow(base, k), shrink)
    ensures Pow(base, k - 1) * base % TWO_32 == Pow(base, k) <= v
    ensures Fits(v, Pow(base, k + 1), shrink / base) && 0 <= shrink / base < shrink
  {
    FitsBelow(v, Pow(base, k), shrink);
    ScaleDown(v, Pow(base, k), shrink, base);
    Shrinks(shrink, base);
  }

  /** Counts the digits of v and finds the largest place value, which never overflows 32 bits. */
  method CountDigits(v: nat, base: nat) returns (p: nat, digitCount: nat)
    requires 2 <= base <= 16 && v < TWO_32
    ensures digitCount == |Digits(v, base)| && p == Pow(base, digitCount - 1)
    ensures v < Pow(base, digitCount) && (digitCount > 1 ==> p <= v)
  {
    var shrink: nat := v / base;
    p, digitCount := 1, 1;
    ScaleDown(v, 1, v, base);
    assert Pow(base, 0) == 1;
    while shrink > 0
      invariant digitCount > 0 && p == Pow(base, digitCount - 1) && Fits(v, Pow(base, digitCount), shrink)
      invariant digitCount > 1 ==> p <= v
      decreases shrink
    {
      NextPlaceFits(v, digitCount, shrink, base);
      p := (p * base) % TWO_32;
      digitCount := digitCount + 1;
      shrink := shrink / base;
    }
    FitsBelow(v, Pow(base, digitCount), shrink);
    DigitCount(v, digitCount, base);
  }

  lemma NextPlace(base: nat, k: nat)
    requires base >= 2 && k > 0
    ensures Pow(base, k - 1) > 0
    ensures Pow(base, k - 1) / base == if k == 1 then 0 else Pow(base, k - 2)
  {
    PowPositive(base, k - 1);
    if k > 1 {
      QuotientBound(Pow(base, k - 1), Pow(base, k - 2), base);
      QuotientBound(Pow(base, k - 1), Pow(base, k - 2) + 1, base);
    }
  }

  /** How a digit is turned into a character. */
  method ToChar(d: nat, upper: bool) returns (c: char)
    requires d < 16
    ensures c == DigitChar(d, upper)
  {
    c := '0' + d as char;
    if c > '9' {
      c := ((c as int) + ((if upper then 'A' else 'a') as int) - ('0' as int) - 10) as char;
    }
  }

  ghost predicate SplitsAt(v0: nat, ds: seq<nat>, v: nat, k: nat, base: nat, u: nat) {
    u == k ==> Value(ds, base) * Pow(base, u) + v == v0 && v < Pow(base, u)
  }

  /** After the digits ds, k places are left, of which v is the value. */
  ghost predicate Printed(v0: nat, ds: seq<nat>, v: nat, k: nat, base: nat) {
    && (forall u: nat {:trigger SplitsAt(v0, ds, v, k, base, u)} :: SplitsAt(v0, ds, v, k, base, u))
    && forall i :: 0 <= i < |ds| ==> ds[i] < base
  }

  lemma PrintedNone(v0: nat, k: nat, base: nat)
    requires v0 < Pow(base, k)
    ensures Printed(v0, [], v0, k, base)
  {}

  lemma PrintedNext(v0: nat, ds: seq<nat>, v: nat, k: nat, p: nat, base: nat)
    requires base >= 2 && k > 0 && Printed(v0, ds, v, k, base) && p == Pow(base, k - 1)
    ensures p > 0 && 0 <= v / p < base && 0 <= v % p && Printed(v0, ds + [v / p], v % p, k - 1, base)
  {
    assert SplitsAt(v0, ds, v, k, base, k);
    PowPositive(base, k - 1);
    QuotientFacts(v, p);
    TakePlace(v0, Value(ds, base), v, p, base);
    AppendValue(ds, v / p, base);
  }

  /** Digits of the right number that end at the units place are the canonical ones. */
  lemma PrintedAll(v0: nat, ds: seq<nat>, v: nat, base: nat)
    requires base >= 2 && Printed(v0, ds, v, 0, base) && |ds| == |Digits(v0, base)|
    requires |ds| > 1 ==> ds[0] != 0
    ensures ds == Digits(v0, base)
  {
    assert SplitsAt(v0, ds, v, 0, base, 0);
    CanonicalUnique(ds, Digits(v0, base), base);
  }

  /** The place value when k places are left: none at the end. */
  function PlaceValue(base: nat, k: nat): nat { if k == 0 then 0 else Pow(base, k - 1) }

  lemma PlacePositive(base: nat, k: nat)
    requires base >= 1
    ensures PlaceValue(base, k) > 0 <==> k > 0
  {
    if k > 0 {
      PowPositive(base, k - 1);
    }
  }

  /** Prints the digit of one place. */
  method PrintPlace(v: nat, p: nat, base: nat, upper: bool, ghost v0: nat, ghost ds: seq<nat>, ghost k: nat)
      returns (c: char, v': nat, p': nat, ghost d: nat)
    requires 2 <= base <= 16 && k > 0 && p == PlaceValue(base, k) && Printed(v0, ds, v, k, base)
    ensures d < base && c == DigitChar(d, upper) && (p <= v ==> d != 0)
    ensures p' == PlaceValue(base, k - 1) && Printed(v0, ds + [d], v', k - 1, base)
  {
    PrintedNext(v0, ds, v, k, p, base);
    NextPlace(base, k);
    QuotientBound(v, 1, p);
    d := v / p;
    c := ToChar(v / p, upper);
    v', p' := v % p, p / base;
  }

  lemma TextAppend(ds: seq<nat>, d: nat, upper: bool)
    requires d < 16 && forall i :: 0 <= i < |ds| ==> ds[i] < 16
    ensures Text(ds + [d], upper) == Text(ds, upper) + [DigitChar(d, upper)]
  {}

  /** Prints v place by place. */
  method PrintDigits(v0: nat, p0: nat, base: nat, upper: bool) returns (out: string)
    requires 2 <= base <= 16 && p0 == Pow(base, |Digits(v0, base)| - 1)
    requires v0 < Pow(base, |Digits(v0, base)|) && (|Digits(v0, base)| > 1 ==> p0 <= v0)
    ensures out == Text(Digits(v0, base), upper)
  {
    ghost var n: nat := |Digits(v0, base)|;
    var v: nat, p: nat := v0, p0;
    ghost var k: nat, ds: seq<nat> := n, [];
    out := "";
    PrintedNone(v0, n, base);
    while p > 0
      invariant k <= n && |ds| == n - k && Printed(v0, ds, v, k, base) && p == PlaceValue(base, k)
      invariant k == n ==> v == v0
      invariant |ds| > 0 && n > 1 ==> ds[0] != 0
      invariant out == Text(ds, upper)
      decreases k
    {
      var c;
      ghost var d;
      PlacePositive(base, k);
      c, v, p, d := PrintPlace(v, p, base, upper, v0, ds, k);
      TextAppend(ds, d, upper);
      out, ds, k := out + [c], ds + [d], k - 1;
    }
    PlacePositive(base, k);
    PrintedAll(v0, ds, v, base);
  }

  method RepChar(c: char, r0: int) returns (out: string)
    ensures out == Repeat(c, r0)
  {
    var r := r0;
    out := "";
    while r > 0
      invariant r0 > 0 ==> r >= 0
      invariant out == Repeat(c, if r0 > 0 then r0 - r else 0)
      decreases r
    {
      out := out + [c];
      r := r - 1;
    }
  }

  /** Strips the sign: the complement plus one, in 32 bits. */
  method StripSign(raw: nat, signed: bool) returns (v: nat, sign: bool)
    requires raw < TWO_32
    ensures v == Magnitude(Meaning(raw, signed)) < TWO_32 && (sign <==> Meaning(raw, signed) < 0)
  {
    v, sign := raw, false;
    if signed && v >= TWO_31 {
      v := (TWO_32 - 1 - v + 1) % TWO_32;
      sign := true;
    }
  }

  /** Padding and sign. */
  method PrintPrefix(sign: bool, digitCount: nat, zeros: bool, width: int) returns (out: string)
    ensures var s := if sign then "-" else "";
            var pad := width - |s| - digitCount;
            out == if zeros then s + Repeat('0', pad) else Repeat(' ', pad) + s
  {
    var before := width - digitCount;
    out := "";
    if zeros {
      if sign {
        out := "-";
        before := before - 1;
      }
      var padding := RepChar('0', before);
      out := out + padding;
    } else {
      if sign {
        before := before - 1;
      }
      out := RepChar(' ', before);
      if sign {
        out := out + "-";
      }
    }
  }

  /** The integer conversions of the log printf. `raw` is the 32-bit argument, -1 the absent width. */
  method PrintInteger(raw: nat, signed: bool, base: nat, upper: bool, zeros: bool, width: int) returns (out: string)
    requires raw < TWO_32 && 2 <= base <= 16
    ensures out == Field(Meaning(raw, signed), base, upper, zeros, width)
    ensures ReadField(out, base) == Some(Meaning(raw, signed))
  {
    var v, sign := StripSign(raw, signed);
    var p, digitCount := CountDigits(v, base);
    out := PrintPrefix(sign, digitCount, zeros, width);
    var digits := PrintDigits(v, p, base, upper);
    out := out + digits;
    FieldReadsBack(Meaning(raw, signed), base, upper, zeros, width);
  }

  // ----- alt_printf's %x -----

  function ShiftRight(v: nat, n: nat): nat {
    if n == 0 then v else ShiftRight(v, n - 1) / 2
  }

  /** The four bits of v from bit n up. */
  function Nibble(v: nat, n: nat): nat { ShiftRight(v, n) % 16 }

  lemma NibbleBelow(v: nat, n: nat)
    ensures ShiftRight(v, n) == ShiftRight(v, n + 4) * 16 + Nibble(v, n)
  {
    var a, b, c := ShiftRight(v, n), ShiftRight(v, n + 2), ShiftRight(v, n + 4);
    HalveTwice(v, n);
    HalveTwice(v, n + 2);
    SixteenthParts(a, b, c);
  }

  lemma SixteenthParts(a: nat, b: nat, c: nat)
    requires b == a / 4 && c == b / 4
    ensures a == c * 16 + a % 16
  {}

  lemma HalveTwice(v: nat, n: nat)
    ensures ShiftRight(v, n + 2) == ShiftRight(v, n) / 4
  {
    assert ShiftRight(v, n + 1) == ShiftRight(v, n) / 2;
  }

  lemma ShiftedOut(v: nat)
    requires v < TWO_32
    ensures ShiftRight(v, 32) == 0
  {
    NibbleBelow(v, 0);
    NibbleBelow(v, 4);
    NibbleBelow(v, 8);
    NibbleBelow(v, 12);
    NibbleBelow(v, 16);
    NibbleBelow(v, 20);
    NibbleBelow(v, 24);
    NibbleBelow(v, 28);
  }

  /** Scans down for the first non-zero digit. */
  method FirstNibble(v: nat) returns (shift: nat)
    requires 0 < v < TWO_32
    ensures shift % 4 == 0 && ShiftRight(v, shift + 4) == 0 && Nibble(v, shift) != 0
  {
    shift := 28;
    ShiftedOut(v);
    while Nibble(v, shift) == 0
      invariant shift % 4 == 0 && ShiftRight(v, shift + 4) == 0
      decreases shift
    {
      NibbleBelow(v, shift);
      shift := shift - 4;
    }
  }

  /** The digits ds of v from the first one down to bit shift + 4. */
  ghost predicate HexPrinted(v: nat, shift: int, ds: seq<nat>)
    requires shift >= -4
  {
    Value(ds, 16) == ShiftRight(v, shift + 4) && forall i :: 0 <= i < |ds| ==> ds[i] < 16
  }

  lemma HexNext(v: nat, shift: nat, ds: seq<nat>)
    requires HexPrinted(v, shift, ds)
    ensures shift - 4 >= -4 && HexPrinted(v, shift - 4, ds + [Nibble(v, shift)])
  {
    NibbleBelow(v, shift);
    AppendValue(ds, Nibble(v, shift), 16);
  }

  lemma HexAll(v: nat, ds: seq<nat>)
    requires HexPrinted(v, -4, ds) && ds != [] && ds[0] != 0
    ensures ds == Digits(v, 16)
  {
    CanonicalUnique(ds, Digits(v, 16), 16);
  }

  method PrintNibble(v: nat, shift: nat) returns (c: char)
    ensures c == DigitChar(Nibble(v, shift), false)
  {
    var digit := Nibble(v, shift);
    c := if digit <= 9 then '0' + digit as char else 'a' + digit as char - 10 as char;
  }

  /** The two loops of the conversion: find the first digit, and print from there. */
  method PrintNibbles(v: nat) returns (out: string)
    requires 0 < v < TWO_32
    ensures out == Text(Digits(v, 16), false)
  {
    var first := FirstNibble(v);
    var shift: int := first;
    ghost var ds: seq<nat> := [];
    out := "";
    while shift >= 0
      invariant -4 <= shift && shift % 4 == 0 && HexPrinted(v, shift, ds)
      invariant if ds == [] then shift == first else ds[0] != 0
      invariant out == Text(ds, false)
      decreases shift
    {
      HexNext(v, shift, ds);
      var c := PrintNibble(v, shift);
      TextAppend(ds, Nibble(v, shift), false);
      out, ds := out + [c], ds + [Nibble(v, shift)];
      shift := shift - 4;
    }
    HexAll(v, ds);
  }

  /** Without a width the field of a natural number is its digits. */
  lemma PlainField(v: nat, zeros: bool)
    ensures Field(v, 16, false, zeros, -1) == Text(Digits(v, 16), false)
  {}

  /** The %x conversion prints what the log printf prints for %x without a width. */
  method PrintHex(v: nat) returns (out: string)
    requires v < TWO_32
    ensures forall zeros :: out == Field(v, 16, false, zeros, -1)
    ensures ReadField(out, 16) == Some(v)
  {
    if v == 0 {
      out := "0";
    } else {
      out := PrintNibbles(v);
    }
    PlainField(v, false);
    PlainField(v, true);
    FieldReadsBack(v, 16, false, false, -1);
  }
}
