/** Byte strings as big-endian numbers. */
module Base256 {
  import opened Sequences
  import opened Decimal

  function Power(n: nat): nat {
    if n == 0 then 1 else 256 * Power(n - 1)
  }

  function Value(s: Bytes): nat {
    if s == [] then 0 else Value(Init(s)) * 256 + Last(s)
  }

  function ToBytes(n: nat, size: nat): (s: Bytes)
    ensures |s| == size
  {
    if size == 0 then [] else ToBytes(n / 256, size - 1) + [n % 256]
  }

  lemma {:induction false} ValueBound(s: Bytes)
    ensures Value(s) < Power(|s|)
  {
    if s != [] {
      ValueBound(Init(s));
    }
  }

  /** A number that fits is read back from its bytes. */
  lemma {:induction false} ValueToBytes(n: nat, size: nat)
    requires n < Power(size)
    ensures Value(ToBytes(n, size)) == n
  {
    if size > 0 {
      ValueToBytes(n / 256, size - 1);
      assert Init(ToBytes(n, size)) == ToBytes(n / 256, size - 1);
    }
  }

  lemma {:induction false} ToBytesValue(s: Bytes)
    ensures ToBytes(Value(s), |s|) == s
  {
    if s != [] {
      ToBytesValue(Init(s));
      assert Value(s) / 256 == Value(Init(s)) && Value(s) % 256 == Last(s);
    }
  }

  // ---- Python's order on lists ----

  predicate Less(a: Bytes, b: Bytes) {
    b != [] && (a == [] || a[0] < b[0] || (a[0] == b[0] && Less(a[1..], b[1..])))
  }

  lemma Scaled(d: nat, p: nat)
    ensures (d * p) * 256 == d * (256 * p)
  {
  }

  lemma {:induction false} ValueSplit(s: Bytes)
    requires s != []
    ensures Value(s) == s[0] * Power(|s| - 1) + Value(s[1..])
    decreases |s|
  {
    if |s| > 1 {
      var t := Init(s);
      ValueSplit(t);
      assert t[1..] == Init(s[1..]);
      assert Value(s[1..]) == Value(t[1..]) * 256 + Last(s);
      assert Value(s) == Value(t) * 256 + Last(s);
      Scaled(s[0], Power(|s| - 2));
    }
  }

  lemma Leading(a: nat, b: nat, x: nat, y: nat, p: nat)
    requires a < b && x < p
    ensures a * p + x < b * p + y
  {
    var d := b - a - 1;
    assert b * p == (a + 1) * p + d * p;
    assert (a + 1) * p == a * p + p;
  }

  /** On byte strings of one length, list order is numeric order. */
  lemma {:induction false} LessIsNumeric(a: Bytes, b: Bytes)
    requires |a| == |b|
    ensures Less(a, b) <==> Value(a) < Value(b)
  {
    if a != [] {
      LessIsNumeric(a[1..], b[1..]);
      ValueSplit(a);
      ValueSplit(b);
      ValueBound(a[1..]);
      ValueBound(b[1..]);
      if a[0] < b[0] {
        Leading(a[0], b[0], Value(a[1..]), Value(b[1..]), Power(|a| - 1));
      } else if b[0] < a[0] {
        Leading(b[0], a[0], Value(b[1..]), Value(a[1..]), Power(|a| - 1));
      }
    }
  }
}
