// The string primitives the engine leans on: strings.Cut, strings.Split,
// strings.Join, strconv.Atoi, strconv.Itoa and strconv.ParseUint, with the
// round trips that the port rewriter and the .env editor need.
module Text {
  import opened Wrappers

  const MIN_INT: int := -0x8000_0000_0000_0000
  const MAX_INT: int := 0x7FFF_FFFF_FFFF_FFFF
  const MAX_UINT64: int := 0xFFFF_FFFF_FFFF_FFFF

  // Go's int on a 64-bit platform.
  type GoInt = x: int | MIN_INT <= x <= MAX_INT

  datatype CutResult = CutResult(before: string, after: string, found: bool)

  /** strings.Cut: split around the first separator. */
  function Cut(s: string, sep: char): (r: CutResult)
    ensures r.found ==> s == r.before + [sep] + r.after
    ensures !r.found ==> r.before == s && r.after == "" && sep !in s
    ensures sep !in r.before
  {
    if s == "" then CutResult("", "", false)
    else if s[0] == sep then CutResult("", s[1..], true)
    else
      var r := Cut(s[1..], sep);
      CutResult([s[0]] + r.before, r.after, r.found)
  }

  lemma {:induction false} CutOfJoined(before: string, after: string, sep: char)
    requires sep !in before
    ensures Cut(before + [sep] + after, sep) == CutResult(before, after, true)
  {
    var s := before + [sep] + after;
    if before == "" {
      assert s[1..] == after;
    } else {
      assert s[1..] == before[1..] + [sep] + after;
      CutOfJoined(before[1..], after, sep);
    }
  }

  lemma {:induction false} CutAbsent(s: string, sep: char)
    requires sep !in s
    ensures Cut(s, sep) == CutResult(s, "", false)
  {
    if s != "" {
      CutAbsent(s[1..], sep);
    }
  }

  /** strings.Split on a one-character separator. */
  function Split(s: string, sep: char): (parts: seq<string>)
    ensures |parts| >= 1
    ensures forall k :: 0 <= k < |parts| ==> sep !in parts[k]
  {
    if s == "" then [""]
    else
      var rest := Split(s[1..], sep);
      if s[0] == sep then [""] + rest
      else [[s[0]] + rest[0]] + rest[1..]
  }

  /** strings.Join with a one-character separator. */
  function Join(parts: seq<string>, sep: char): string {
    if |parts| == 0 then ""
    else if |parts| == 1 then parts[0]
    else parts[0] + [sep] + Join(parts[1..], sep)
  }

  lemma {:induction false} JoinOfSplit(s: string, sep: char)
    ensures Join(Split(s, sep), sep) == s
  {
    if s != "" {
      var rest := Split(s[1..], sep);
      JoinOfSplit(s[1..], sep);
      var parts := Split(s, sep);
      if s[0] == sep {
        assert parts[1..] == rest;
      } else if |rest| > 1 {
        assert parts[1..] == rest[1..];
      }
    }
  }

  lemma {:induction false} SplitPrefix(part: string, tail: string, sep: char)
    requires sep !in part
    ensures Split(part, sep) == [part]
    ensures Split(part + [sep] + tail, sep) == [part] + Split(tail, sep)
  {
    var s := part + [sep] + tail;
    if part == "" {
      assert s[1..] == tail;
    } else {
      assert s[1..] == part[1..] + [sep] + tail;
      SplitPrefix(part[1..], tail, sep);
      assert [part[0]] + part[1..] == part;
    }
  }

  lemma {:induction false} SplitOfJoin(parts: seq<string>, sep: char)
    requires |parts| >= 1
    requires forall k :: 0 <= k < |parts| ==> sep !in parts[k]
    ensures Split(Join(parts, sep), sep) == parts
  {
    SplitPrefix(parts[0], Join(parts[1..], sep), sep);
    if |parts| > 1 {
      SplitOfJoin(parts[1..], sep);
    }
  }

  predicate IsDigit(c: char) { '0' <= c <= '9' }

  predicate AllDigits(s: string) { forall k :: 0 <= k < |s| ==> IsDigit(s[k]) }

  function DigitValue(c: char): (d: nat)
    requires IsDigit(c)
    ensures d < 10
  {
    c as int - '0' as int
  }

  function DigitChar(d: nat): (c: char)
    requires d < 10
    ensures IsDigit(c) && DigitValue(c) == d
  {
    ('0' as int + d) as char
  }

  function DecimalValue(s: string): nat
    requires AllDigits(s)
  {
    if s == "" then 0
    else 10 * DecimalValue(s[..|s| - 1]) + DigitValue(s[|s| - 1])
  }

  function Decimal(n: nat): (s: string)
    ensures |s| > 0 && AllDigits(s)
    ensures DecimalValue(s) == n
  {
    if n < 10 then
      var s := [DigitChar(n)];
      assert s[..0] == "";
      s
    else
      var front := Decimal(n / 10);
      var s := front + [DigitChar(n % 10)];
      assert s[..|s| - 1] == front;
      s
  }

  /** strconv.Itoa. */
  function Itoa(n: int): (s: string)
    ensures |s| > 0
    ensures forall c :: c in s ==> c == '-' || IsDigit(c)
  {
    if n < 0 then "-" + Decimal(-n) else Decimal(n)
  }

  /** strconv.Atoi: an optional sign, at least one digit, and a 64-bit value. */
  function Atoi(s: string): (r: Option<GoInt>) {
    var negative := s != "" && s[0] == '-';
    var digits := if s != "" && (s[0] == '-' || s[0] == '+') then s[1..] else s;
    if digits == "" || !AllDigits(digits) then None
    else
      var magnitude: int := DecimalValue(digits);
      var value: int := if negative then -magnitude else magnitude;
      if MIN_INT <= value <= MAX_INT then Some(value) else None
  }

  lemma AtoiOfItoa(n: GoInt)
    ensures Atoi(Itoa(n)) == Some(n)
  {
    if n < 0 {
      var value: int := n;
      assert Itoa(n)[1..] == Decimal(-value);
    }
  }

  /** A plus sign and a leading zero change nothing, a minus sign negates. */
  lemma AtoiForms(n: GoInt)
    requires n >= 0
    ensures Atoi("+" + Itoa(n)) == Some(n) && Atoi("-" + Itoa(n)) == Some(-n) && Atoi("0" + Itoa(n)) == Some(n)
  {
    hide DecimalValue;
    assert ("+" + Itoa(n))[1..] == Itoa(n) && ("-" + Itoa(n))[1..] == Itoa(n);
    LeadingZero(Itoa(n));
  }

  lemma {:induction false} LeadingZero(s: string)
    requires AllDigits(s)
    ensures AllDigits("0" + s) && DecimalValue("0" + s) == DecimalValue(s)
  {
    var longer := "0" + s;
    assert forall k :: 1 <= k < |longer| ==> longer[k] == s[k - 1];
    if s == "" {
      assert longer[..0] == "";
    } else {
      LeadingZero(s[..|s| - 1]);
      assert longer[..|longer| - 1] == "0" + s[..|s| - 1];
    }
  }

  /** Nothing but a sign and digits is a number. */
  lemma NumbersAreDigits(s: string)
    requires Atoi(s).Some?
    ensures s != "" && ('0' <= s[0] <= '9' || (s[0] in "+-" && |s| > 1)) && forall k :: 1 <= k < |s| ==> '0' <= s[k] <= '9'
  {
    hide DecimalValue;
    assert forall k :: 1 <= k < |s| ==> s[k] == s[1..][k - 1];
  }

  lemma SignShows(n: int)
    ensures Itoa(n)[0] == '-' <==> n < 0
  {
    if n >= 0 {
      assert IsDigit(Decimal(n)[0]);
    }
  }

  /** Different integers have different texts. */
  lemma ItoaInjective(m: int, n: int)
    requires Itoa(m) == Itoa(n)
    ensures m == n
  {
    hide DecimalValue;
    SignShows(m);
    SignShows(n);
    if m < 0 && n < 0 {
      assert Itoa(m)[1..] == Decimal(-m) && Itoa(n)[1..] == Decimal(-n);
    }
  }

  /** strconv.ParseUint in base 10 with 64 bits: digits only, no sign. */
  function ParseUint64(s: string): (r: Option<nat>)
    ensures r.Some? ==> r.value <= MAX_UINT64
  {
    if s == "" || !AllDigits(s) then None
    else if DecimalValue(s) <= MAX_UINT64 then Some(DecimalValue(s))
    else None
  }

  // ---- The byte order of strings ----

  predicate TextLess(a: string, b: string) {
    b != "" && (a == "" || a[0] < b[0] || (a[0] == b[0] && TextLess(a[1..], b[1..])))
  }

  /** The order is decided by the first difference, or by the length when one text begins the other. */
  lemma {:induction false} LessAtFirstDifference(common: string, x: char, y: char, a: string, b: string)
    requires x < y
    ensures TextLess(common + [x] + a, common + [y] + b) && !TextLess(common + [y] + b, common + [x] + a)
    ensures TextLess(common, common + [x] + a)
  {
    var p, q := common + [x] + a, common + [y] + b;
    if common != "" {
      LessAtFirstDifference(common[1..], x, y, a, b);
      assert p[1..] == common[1..] + [x] + a && q[1..] == common[1..] + [y] + b;
    }
  }

  lemma {:induction false} TextLessIsStrict(a: string)
    ensures !TextLess(a, a)
  {
    if a != "" {
      TextLessIsStrict(a[1..]);
    }
  }

  lemma {:induction false} TextLessIsTransitive(a: string, b: string, c: string)
    requires TextLess(a, b) && TextLess(b, c)
    ensures TextLess(a, c)
  {
    if a != "" && a[0] == b[0] && b[0] == c[0] {
      TextLessIsTransitive(a[1..], b[1..], c[1..]);
    }
  }

  lemma {:induction false} TextLessIsTotal(a: string, b: string)
    ensures a == b || TextLess(a, b) || TextLess(b, a)
  {
    if a != "" && b != "" && a[0] == b[0] {
      TextLessIsTotal(a[1..], b[1..]);
      assert a == [a[0]] + a[1..] && b == [b[0]] + b[1..];
    }
  }
}
