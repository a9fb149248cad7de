/** Decimal text: Python's `str` on naturals and `int` on digit strings. */
module Decimal {
  import opened Sequences

  type Byte = n: int | 0 <= n < 256
  type Bytes = seq<Byte>

  const SPACE: Byte := 32
  const ZERO: Byte := 48

  predicate IsDigit(b: Byte) {
    ZERO <= b < ZERO + 10
  }

  function Print(n: nat): (s: Bytes)
    ensures s != [] && forall k :: 0 <= k < |s| ==> IsDigit(s[k])
  {
    if n < 10 then [ZERO + n] else Print(n / 10) + [ZERO + n % 10]
  }

  /** The value of a digit string; `None` where `int` raises. */
  function Parse(s: Bytes): Option<nat> {
    if s == [] then None else ParseDigits(s)
  }

  function ParseDigits(s: Bytes): Option<nat> {
    if s == [] then Some(0)
    else if !IsDigit(Last(s)) then None
    else
      match ParseDigits(Init(s))
      case None => None
      case Some(n) => Some(n * 10 + (Last(s) - ZERO))
  }

  /** Parsing undoes printing. */
  lemma {:induction false} ParsePrint(n: nat)
    ensures Parse(Print(n)) == Some(n)
  {
    if n < 10 {
      assert Print(n) == [ZERO + n] && Init(Print(n)) == [];
      assert ParseDigits(Init(Print(n))) == Some(0);
    } else {
      ParsePrint(n / 10);
      assert Init(Print(n)) == Print(n / 10);
    }
  }

  /** Different numbers have different texts. */
  lemma PrintInjective(n: nat, m: nat)
    requires Print(n) == Print(m)
    ensures n == m
  {
    ParsePrint(n);
    ParsePrint(m);
  }

  /** A greater number has no shorter text. */
  lemma {:induction false} PrintLength(n: nat, m: nat)
    requires n <= m
    ensures |Print(n)| <= |Print(m)|
  {
    if n >= 10 {
      PrintLength(n / 10, m / 10);
    }
  }

  /** Exactly texts of decimal digits, and not the empty one, are numbers. */
  lemma {:induction false} ParseIff(s: Bytes)
    ensures Parse(s).Some? <==> s != [] && forall k :: 0 <= k < |s| ==> s[k] in {48, 49, 50, 51, 52, 53, 54, 55, 56, 57}
  {
    DigitsIff(s);
  }

  lemma {:induction false} DigitsIff(s: Bytes)
    ensures ParseDigits(s).Some? <==> forall k :: 0 <= k < |s| ==> s[k] in {48, 49, 50, 51, 52, 53, 54, 55, 56, 57}
  {
    if s != [] {
      DigitsIff(Init(s));
      assert forall k :: 0 <= k < |s| - 1 ==> Init(s)[k] == s[k];
    }
  }

  lemma ParseStep(s: Bytes)
    requires s != [] && ParseDigits(s).Some?
    ensures IsDigit(Last(s)) && ParseDigits(Init(s)).Some?
    ensures ParseDigits(s).value == ParseDigits(Init(s)).value * 10 + (Last(s) - ZERO)
    ensures |s| == 1 ==> ParseDigits(Init(s)).value == 0
  {
  }

  lemma PrintStep(n: nat, d: nat)
    requires d < 10
    ensures Print(n * 10 + d) == if n == 0 then [ZERO + d] else Print(n) + [ZERO + d]
  {
    assert (n * 10 + d) / 10 == n && (n * 10 + d) % 10 == d;
  }

  /** A text that starts with another digit than zero is worth more than zero. */
  lemma {:induction false} LeadingDigit(s: Bytes)
    requires s != [] && ParseDigits(s).Some?
    ensures s[0] != ZERO ==> ParseDigits(s).value > 0
    ensures |s| == 1 && s[0] == ZERO ==> ParseDigits(s).value == 0
  {
    hide ParseDigits;
    ParseStep(s);
    if |s| > 1 {
      LeadingDigit(Init(s));
    }
  }

  lemma SnocEquals(a: Bytes, b: Bytes, x: Byte)
    ensures a + [x] == b + [x] <==> a == b
  {
    if a + [x] == b + [x] {
      assert (a + [x])[..|a|] == a && (b + [x])[..|b|] == b;
    }
  }

  /** Printing undoes parsing exactly for texts without a needless zero in front. */
  lemma {:induction false} PrintParseIff(s: Bytes)
    requires Parse(s).Some?
    ensures Print(Parse(s).value) == s <==> |s| == 1 || s[0] != ZERO
  {
    hide Print, ParseDigits;
    var t, x := Init(s), Last(s);
    ParseStep(s);
    var n := ParseDigits(t).value;
    PrintStep(n, x - ZERO);
    assert s == t + [x];
    if t != [] {
      PrintParseIff(t);
      LeadingDigit(t);
      if n > 0 {
        SnocEquals(Print(n), t, x);
      }
    }
  }
}
