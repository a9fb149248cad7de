/** The address pools of lnst/Common/NetUtils.py. */
module AddressPool {
  import opened Sequences
  import opened Decimal
  import opened Base256
  import opened SplitJoin

  // ---- Counting ----

  /** The last byte counts up and carries over to the bytes before it. */
  function Inc(s: Bytes): Bytes {
    if s == [] then [] else if Last(s) < 255 then Init(s) + [Last(s) + 1] else Inc(Init(s)) + [0]
  }

  /** Counting adds one modulo the number of byte strings of the length, which it keeps. */
  lemma {:induction false} IncAddsOne(s: Bytes)
    ensures |Inc(s)| == |s|
    ensures Value(Inc(s)) == if Value(s) + 1 == Power(|s|) then 0 else Value(s) + 1
  {
    if s != [] {
      ValueBound(Init(s));
      if Last(s) < 255 {
        InitLast(Init(s), (Last(s) + 1) as Byte);
      } else {
        IncAddsOne(Init(s));
        InitLast(Inc(Init(s)), 0 as Byte);
      }
    }
  }

  // ---- Address texts, as ASCII codes ----

  const COLON: Byte := 58
  const DOT: Byte := 46

  datatype Kind = Mac | Ip

  function HexDigit(n: nat): Byte
    requires n < 16
  {
    if n < 10 then 48 + n else 87 + n
  }

  /** The value of a hexadecimal digit of either case. */
  function HexValue(c: Byte): Option<nat> {
    if 48 <= c < 58 then Some(c - 48)
    else if 97 <= c < 103 then Some(c - 87)
    else if 65 <= c < 71 then Some(c - 55)
    else None
  }

  /** `"%02x" % b`. */
  function PrintHex(b: Byte): Bytes {
    [HexDigit(b / 16), HexDigit(b % 16)]
  }

  function ParseHex(s: Bytes): Option<Byte> {
    if |s| != 2 || HexValue(s[0]).None? || HexValue(s[1]).None? then None
    else Some(HexValue(s[0]).value * 16 + HexValue(s[1]).value)
  }

  function ParseByte(s: Bytes): Option<Byte> {
    match Parse(s) case None => None case Some(n) => if n < 256 then Some(n) else None
  }

  function PartText(kind: Kind, b: Byte): Bytes {
    if kind == Mac then PrintHex(b) else Print(b)
  }

  function PartByte(kind: Kind, s: Bytes): Option<Byte> {
    if kind == Mac then ParseHex(s) else ParseByte(s)
  }

  function Separator(kind: Kind): Byte {
    if kind == Mac then COLON else DOT
  }

  function Size(kind: Kind): nat {
    if kind == Mac then 6 else 4
  }

  function Texts(kind: Kind, bs: Bytes): seq<Bytes> {
    if bs == [] then [] else [PartText(kind, bs[0])] + Texts(kind, bs[1..])
  }

  function ParseTexts(kind: Kind, parts: seq<Bytes>): Option<Bytes> {
    if parts == [] then Some([])
    else
      var b := PartByte(kind, parts[0]);
      var rest := ParseTexts(kind, parts[1..]);
      if b.None? || rest.None? then None else Some([b.value] + rest.value)
  }

  /** `_byte_string_to_addr`. */
  function ToAddr(kind: Kind, bs: Bytes): Bytes {
    Join(Texts(kind, bs), Separator(kind))
  }

  /** `_addr_to_byte_string`; `None` where it raises. */
  function FromAddr(kind: Kind, addr: Bytes): Option<Bytes> {
    var parts := Split(addr, Separator(kind));
    if |parts| != Size(kind) then None else ParseTexts(kind, parts)
  }

  lemma PartRoundTrip(kind: Kind, b: Byte)
    ensures PartByte(kind, PartText(kind, b)) == Some(b)
    ensures Separator(kind) !in PartText(kind, b)
  {
    if kind == Ip {
      ParsePrint(b);
    }
  }

  lemma {:induction false} TextsRoundTrip(kind: Kind, bs: Bytes)
    ensures |Texts(kind, bs)| == |bs| && Free(Texts(kind, bs), Separator(kind))
    ensures ParseTexts(kind, Texts(kind, bs)) == Some(bs)
    decreases |bs|
  {
    if bs != [] {
      TextsRoundTrip(kind, bs[1..]);
      PartRoundTrip(kind, bs[0]);
      assert bs == [bs[0]] + bs[1..];
      assert Texts(kind, bs)[1..] == Texts(kind, bs[1..]);
    }
  }

  /** Bytes survive the trip through their text. */
  lemma AddrRoundTrip(kind: Kind, bs: Bytes)
    requires |bs| == Size(kind)
    ensures FromAddr(kind, ToAddr(kind, bs)) == Some(bs)
  {
    TextsRoundTrip(kind, bs);
    SplitOfJoin(Texts(kind, bs), Separator(kind));
  }

  lemma {:induction false} ParseTextsIff(kind: Kind, parts: seq<Bytes>)
    ensures ParseTexts(kind, parts).Some? <==> forall k :: 0 <= k < |parts| ==> PartByte(kind, parts[k]).Some?
    decreases |parts|
  {
    if parts != [] {
      hide PartByte;
      var rest := parts[1..];
      ParseTextsIff(kind, rest);
      assert forall k :: 0 <= k < |rest| ==> rest[k] == parts[k + 1];
      assert forall k :: 0 < k < |parts| ==> parts[k] == rest[k - 1];
    }
  }

  /** An address has six parts of two hexadecimal digits between colons, or four decimal bytes between dots. */
  lemma AddressIff(addr: Bytes)
    ensures FromAddr(Mac, addr).Some? <==>
            |Split(addr, 58)| == 6 && forall k :: 0 <= k < 6 ==> var t := Split(addr, 58)[k]; |t| == 2 && HexValue(t[0]).Some? && HexValue(t[1]).Some?
    ensures FromAddr(Ip, addr).Some? <==>
            |Split(addr, 46)| == 4 && forall k :: 0 <= k < 4 ==> var n := Parse(Split(addr, 46)[k]); n.Some? && n.value < 256
  {
    hide HexValue, Parse;
    ParseTextsIff(Mac, Split(addr, 58));
    ParseTextsIff(Ip, Split(addr, 46));
  }

  predicate LowerCase(t: Bytes) {
    forall j :: 0 <= j < |t| ==> !(65 <= t[j] < 71)
  }

  lemma HexTextIff(t: Bytes)
    requires ParseHex(t).Some?
    ensures PrintHex(ParseHex(t).value) == t <==> LowerCase(t)
  {
    assert t == [t[0], t[1]];
    var a, b := HexValue(t[0]).value, HexValue(t[1]).value;
    var v := ParseHex(t).value;
    assert v / 16 == a && v % 16 == b;
    assert HexDigit(a) == t[0] <==> !(65 <= t[0] < 71);
    assert HexDigit(b) == t[1] <==> !(65 <= t[1] < 71);
  }

  /** A part as it is printed: lower-case hexadecimal digits, decimal ones without needless zeros. */
  predicate AsPrinted(kind: Kind, t: Bytes) {
    if kind == Mac then LowerCase(t) else |t| == 1 || (t != [] && t[0] != ZERO)
  }

  lemma PartTextIff(kind: Kind, t: Bytes)
    requires PartByte(kind, t).Some?
    ensures PartText(kind, PartByte(kind, t).value) == t <==> AsPrinted(kind, t)
  {
    if kind == Mac {
      HexTextIff(t);
    } else {
      PrintParseIff(t);
    }
  }

  lemma {:induction false} PartsRoundTrip(kind: Kind, parts: seq<Bytes>)
    requires ParseTexts(kind, parts).Some?
    ensures Texts(kind, ParseTexts(kind, parts).value) == parts <==> forall k :: 0 <= k < |parts| ==> AsPrinted(kind, parts[k])
    decreases |parts|
  {
    if parts != [] {
      hide AsPrinted, PartText, PartByte;
      var bs := ParseTexts(kind, parts).value;
      var rest := parts[1..];
      PartsRoundTrip(kind, rest);
      PartTextIff(kind, parts[0]);
      assert bs[1..] == ParseTexts(kind, rest).value;
      var texts := Texts(kind, bs);
      assert texts[0] == PartText(kind, bs[0]) && texts[1..] == Texts(kind, bs[1..]);
      assert texts == [texts[0]] + texts[1..] && parts == [parts[0]] + rest;
      assert (forall k :: 0 <= k < |parts| ==> AsPrinted(kind, parts[k])) <==>
             AsPrinted(kind, parts[0]) && forall k :: 0 <= k < |rest| ==> AsPrinted(kind, rest[k]) by {
        assert forall k :: 0 <= k < |rest| ==> rest[k] == parts[k + 1];
        assert forall k :: 0 < k < |parts| ==> parts[k] == rest[k - 1];
      }
    }
  }

  lemma {:induction false} LowerCaseParts(parts: seq<Bytes>)
    ensures LowerCase(Join(parts, COLON)) <==> forall k :: 0 <= k < |parts| ==> LowerCase(parts[k])
    decreases |parts|
  {
    if |parts| > 1 {
      var a, rest := parts[0], parts[1..];
      var s := Join(rest, COLON);
      LowerCaseParts(rest);
      assert Join(parts, COLON) == a + [COLON] + s;
      LowerCaseJoin(a, s);
      assert forall k :: 0 <= k < |rest| ==> rest[k] == parts[k + 1];
      assert forall k :: 0 < k < |parts| ==> parts[k] == rest[k - 1];
    }
  }

  lemma LowerCaseJoin(a: Bytes, s: Bytes)
    ensures LowerCase(a + [COLON] + s) <==> LowerCase(a) && LowerCase(s)
  {
    var t := a + [COLON] + s;
    assert forall k :: 0 <= k < |a| ==> t[k] == a[k];
    assert forall k :: 0 <= k < |s| ==> s[k] == t[|a| + 1 + k];
    assert t[|a|] == COLON;
  }

  /** The text of a hardware address survives the trip through its bytes exactly when it is in lower case. */
  lemma MacTextRoundTrip(addr: Bytes)
    requires FromAddr(Mac, addr).Some?
    ensures ToAddr(Mac, FromAddr(Mac, addr).value) == addr <==> LowerCase(addr)
  {
    hide LowerCase;
    var parts := Split(addr, COLON);
    var texts := Texts(Mac, FromAddr(Mac, addr).value);
    JoinOfSplit(addr, COLON);
    LowerCaseParts(parts);
    PartsRoundTrip(Mac, parts);
    TextsRoundTrip(Mac, FromAddr(Mac, addr).value);
    BytesOfParts(Mac, parts);
    SplitOfJoin(texts, COLON);
    assert forall k :: 0 <= k < |parts| ==> (AsPrinted(Mac, parts[k]) <==> LowerCase(parts[k]));
  }

  /** The text of an internet address survives it exactly when no part has a needless zero in front. */
  lemma IpTextRoundTrip(addr: Bytes)
    requires FromAddr(Ip, addr).Some?
    ensures ToAddr(Ip, FromAddr(Ip, addr).value) == addr <==>
            forall k :: 0 <= k < |Split(addr, DOT)| ==> var t := Split(addr, DOT)[k]; |t| == 1 || (t != [] && t[0] != ZERO)
  {
    var parts := Split(addr, DOT);
    var texts := Texts(Ip, FromAddr(Ip, addr).value);
    JoinOfSplit(addr, DOT);
    PartsRoundTrip(Ip, parts);
    TextsRoundTrip(Ip, FromAddr(Ip, addr).value);
    BytesOfParts(Ip, parts);
    SplitOfJoin(texts, DOT);
    assert forall k :: 0 <= k < |parts| ==> (AsPrinted(Ip, parts[k]) <==> |parts[k]| == 1 || (parts[k] != [] && parts[k][0] != ZERO));
  }

  lemma {:induction false} BytesOfParts(kind: Kind, parts: seq<Bytes>)
    requires ParseTexts(kind, parts).Some?
    ensures |ParseTexts(kind, parts).value| == |parts|
    decreases |parts|
  {
    if parts != [] {
      BytesOfParts(kind, parts[1..]);
    }
  }

  // ---- The pool ----

  lemma PoolStep(final: Bytes, next: Bytes)
    requires |next| == |final|
    ensures Less(final, next) <==> Value(final) < Value(next)
    ensures next == ToBytes(Value(next), |final|)
    ensures |Inc(next)| == |final|
    ensures Value(next) + 1 < Power(|final|) ==> Value(Inc(next)) == Value(next) + 1
  {
    LessIsNumeric(final, next);
    ToBytesValue(next);
    IncAddsOne(next);
  }

  /** Different counter values are different addresses. */
  lemma AddressesDistinct(kind: Kind, i: nat, j: nat)
    requires i < Power(Size(kind)) && j < Power(Size(kind)) && i != j
    ensures ToAddr(kind, ToBytes(i, Size(kind))) != ToAddr(kind, ToBytes(j, Size(kind)))
  {
    hide ToAddr, FromAddr, ToBytes, Value, Power;
    ValueToBytes(i, Size(kind));
    ValueToBytes(j, Size(kind));
    AddrRoundTrip(kind, ToBytes(i, Size(kind)));
    AddrRoundTrip(kind, ToBytes(j, Size(kind)));
  }

  /** The addresses of consecutive counter values have no repetition. */
  lemma DrainedDistinct(kind: Kind, first: nat, addrs: seq<Bytes>)
    requires first + |addrs| <= Power(Size(kind))
    requires forall k :: 0 <= k < |addrs| ==> addrs[k] == ToAddr(kind, ToBytes(first + k, Size(kind)))
    ensures NoDup(addrs)
  {
    hide ToAddr, ToBytes, Power;
    forall j, k | 0 <= j < k < |addrs| ensures addrs[j] != addrs[k] {
      AddressesDistinct(kind, first + j, first + k);
    }
  }

  class Pool {
    const kind: Kind
    const final: Bytes
    var next: Bytes

    constructor (kind: Kind, start: Bytes, end: Bytes)
      requires |start| == |end| == Size(kind)
      ensures this.kind == kind && next == start && final == end
    {
      this.kind, next, final := kind, start, end;
    }

    /** `_inc_byte_string` on the list `_next`, which it shortens and extends on the way. */
    method IncNext()
      modifies this
      ensures next == Inc(old(next))
      decreases |next|
    {
      if |next| > 0 {
        var last := (Last(next) as int) + 1;
        if last > 255 {
          next := Init(next);
          IncNext();
          next := next + [0];
        } else {
          next := Init(next) + [last];
        }
      }
    }

    /** `get_addr`; `None` when the pool is exhausted. */
    method GetAddr() returns (addr: Option<Bytes>)
      modifies this
      ensures addr.None? <==> Less(final, old(next))
      ensures addr.None? ==> next == old(next)
      ensures addr.Some? ==> addr == Some(ToAddr(kind, old(next))) && next == Inc(old(next))
    {
      if Less(final, next) { return None; }
      addr := Some(ToAddr(kind, next));
      IncNext();
    }

    /** Calls `get_addr` until it raises: every address from the start to the end, once each, in increasing order. */
    method Drain() returns (addrs: seq<Bytes>)
      requires |next| == |final| && Value(final) + 1 < Power(|final|)
      modifies this
      ensures |addrs| == if Value(old(next)) <= Value(final) then Value(final) + 1 - Value(old(next)) else 0
      ensures forall k :: 0 <= k < |addrs| ==> addrs[k] == ToAddr(kind, ToBytes(Value(old(next)) + k, |final|))
      ensures |final| == Size(kind) ==> NoDup(addrs)
      ensures Less(final, next)
    {
      hide Inc, Less, Value, ToAddr, ToBytes, Power;
      addrs := [];
      ghost var first := Value(next);
      while true
        invariant |next| == |final| && Value(next) == first + |addrs|
        invariant addrs == [] || Value(next) <= Value(final) + 1
        invariant forall k :: 0 <= k < |addrs| ==> addrs[k] == ToAddr(kind, ToBytes(first + k, |final|))
        decreases Value(final) + 1 - Value(next)
      {
        PoolStep(final, next);
        var addr := GetAddr();
        if addr.None? {
          if |final| == Size(kind) && |addrs| > 0 {
            DrainedDistinct(kind, first, addrs);
          }
          return;
        }
        addrs := addrs + [addr.value];
      }
    }
  }

  /** A pool is exhausted at some value of the counter exactly when it does not end at the all-255 address. */
  lemma ExhaustibleIff(final: Bytes)
    ensures (exists next: Bytes :: |next| == |final| && Less(final, next)) <==> Value(final) + 1 < Power(|final|)
  {
    if Value(final) + 1 < Power(|final|) {
      var next := ToBytes(Value(final) + 1, |final|);
      ValueToBytes(Value(final) + 1, |final|);
      LessIsNumeric(final, next);
    } else if next: Bytes :| |next| == |final| && Less(final, next) {
      LessIsNumeric(final, next);
      ValueBound(next);
    }
  }
}
