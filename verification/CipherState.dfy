/**
  The record protection of lnst/Common/SecureSocket.py and its cipher state: keys and sequence
  numbers on both ends of an ordered channel, switched by `change_cipher_spec` messages.
 */
module CipherState {
  import opened Sequences
  import opened Decimal

  const BLOCK: nat := 16

  /**
    What a payload unpickles to, if to anything: a dictionary of type "change_cipher_spec", a value
    like a number or a text with "type" in it, on which looking up the type raises, or anything else.
   */
  datatype Kind = Ordinary | SwitchMessage | Untyped

  /** The cryptographic and pickling primitives, of which only the inverse laws below are used. */
  datatype Crypto = Crypto(
    mac: (Bytes, Bytes) -> Bytes,                  // key, message
    encrypt: (Bytes, Bytes, Bytes) -> Bytes,       // key, initialisation vector, padded data
    decrypt: (Bytes, Bytes, Bytes) -> Bytes,
    packSigned: (Bytes, Bytes) -> Bytes,           // data, signature
    unpackSigned: Bytes -> Option<(Bytes, Bytes)>,
    packEncrypted: (Bytes, Bytes) -> Bytes,        // initialisation vector, encrypted data
    unpackEncrypted: Bytes -> Option<(Bytes, Bytes)>,
    kindOf: Bytes -> Kind,
    switchMsg: Bytes)
  {
    predicate IsSwitch(d: Bytes) {
      kindOf(d) == SwitchMessage
    }
  }

  ghost predicate Honest(c: Crypto) {
    && (forall k, iv, d :: |d| % BLOCK == 0 ==> c.decrypt(k, iv, c.encrypt(k, iv, d)) == d)
    && (forall d, s :: c.unpackSigned(c.packSigned(d, s)) == Some((d, s)))
    && (forall iv, d :: c.unpackEncrypted(c.packEncrypted(iv, d)) == Some((iv, d)))
    && c.IsSwitch(c.switchMsg)
  }

  /** One direction's cipher state; an empty key means that the step it is for is skipped. */
  datatype Spec = Spec(encKey: Bytes, macKey: Bytes, seqNum: nat)
  const BLANK := Spec([], [], 0)

  function Counted(s: Spec): Spec {
    s.(seqNum := s.seqNum + 1)
  }

  // ---- Padding ----

  function Repeat(b: Byte, n: nat): (s: Bytes)
    ensures |s| == n && forall k :: 0 <= k < n ==> s[k] == b
  {
    if n == 0 then [] else Repeat(b, n - 1) + [b]
  }

  function Pad(d: Bytes): (p: Bytes)
    ensures |p| % BLOCK == 0
  {
    d + Repeat(BLOCK - |d| % BLOCK, BLOCK - |d| % BLOCK)
  }

  /** Checks all padding bytes; a length of zero or beyond the data is bad padding. */
  function Unpad(p: Bytes): Option<Bytes> {
    if p == [] then None
    else
      var n := Last(p);
      if 1 <= n <= |p| && (forall k :: |p| - n <= k < |p| ==> p[k] == n) then Some(p[..|p| - n]) else None
  }

  lemma UnpadPad(d: Bytes)
    ensures Unpad(Pad(d)) == Some(d)
  {
    var n := BLOCK - |d| % BLOCK;
    var p := Pad(d);
    assert forall k :: |d| <= k < |p| ==> p[k] == Repeat(n, n)[k - |d|];
    assert p[..|p| - n] == d;
  }

  /** Nothing but padded data passes the check, whatever the length of the padding. */
  lemma UnpadIff(p: Bytes, d: Bytes)
    ensures Unpad(p) == Some(d) <==> exists n: Byte :: n >= 1 && p == d + Repeat(n, n)
  {
    if Unpad(p) == Some(d) {
      var n := Last(p);
      assert p == d + Repeat(n, n);
    }
    if n: Byte :| n >= 1 && p == d + Repeat(n, n) {
      assert Last(p) == Repeat(n, n)[n - 1] == n;
      assert forall k :: |p| - n <= k < |p| ==> p[k] == Repeat(n, n)[k - |d|];
      assert p[..|p| - n] == d;
    }
  }

  // ---- Protecting and unprotecting one message ----

  function MacInput(s: Spec, d: Bytes): Bytes {
    Print(s.seqNum) + Print(|d|) + d
  }

  function AddMac(c: Crypto, s: Spec, d: Bytes): Bytes {
    if s.macKey == [] then d else c.packSigned(d, c.mac(s.macKey, MacInput(s, d)))
  }

  /** A message that passed all checks, one that failed a check and is dropped, or one that does not unpickle, which raises. */
  datatype Opened = Opened(data: Bytes) | Rejected | Broken

  function DelMac(c: Crypto, s: Spec, m: Bytes): Opened {
    if s.macKey == [] then Opened(m)
    else
      match c.unpackSigned(m)
      case None => Broken
      case Some((d, signature)) => if signature == c.mac(s.macKey, MacInput(s, d)) then Opened(d) else Rejected
  }

  function AddPadding(s: Spec, d: Bytes): Bytes {
    if s.encKey == [] then d else Pad(d)
  }

  function DelPadding(s: Spec, d: Bytes): Option<Bytes> {
    if s.encKey == [] then Some(d) else Unpad(d)
  }

  function AddEncrypt(c: Crypto, s: Spec, d: Bytes, iv: Bytes): Bytes {
    if s.encKey == [] then d else c.packEncrypted(iv, c.encrypt(s.encKey, iv, d))
  }

  function DelEncrypt(c: Crypto, s: Spec, m: Bytes): Option<Bytes> {
    if s.encKey == [] then Some(m)
    else
      match c.unpackEncrypted(m)
      case None => None
      case Some((iv, d)) => Some(c.decrypt(s.encKey, iv, d))
  }

  function Protect(c: Crypto, s: Spec, d: Bytes, iv: Bytes): Bytes {
    AddEncrypt(c, s, AddPadding(s, AddMac(c, s, d)), iv)
  }

  /** The message and the state afterwards: bad padding leaves the sequence number alone, a bad signature does not. */
  function Unprotect(c: Crypto, s: Spec, m: Bytes): (Opened, Spec) {
    match DelEncrypt(c, s, m)
    case None => (Broken, s)
    case Some(padded) =>
      match DelPadding(s, padded)
      case None => (if DelMac(c, s, padded).Broken? then Broken else Rejected, s)
      case Some(signed) =>
        var d := DelMac(c, s, signed);
        (d, if d.Broken? then s else Counted(s))
  }

  /** With the state a message was protected with, it unprotects to the original data. */
  lemma UnprotectProtect(c: Crypto, s: Spec, d: Bytes, iv: Bytes)
    requires Honest(c)
    ensures Unprotect(c, s, Protect(c, s, d, iv)) == (Opened(d), Counted(s))
  {
    UnpadPad(AddMac(c, s, d));
  }

  // ---- What a signature is good for ----

  /** No two messages have the same signature under one key. */
  ghost predicate Unforgeable(c: Crypto) {
    forall k, m, m' :: c.mac(k, m) == c.mac(k, m') ==> m == m'
  }

  /** Data behind its own length: two such texts are equal only if the data is. */
  lemma LengthTextInjective(d: Bytes, d': Bytes)
    requires Print(|d|) + d == Print(|d'|) + d'
    ensures d == d'
  {
    if |d| <= |d'| { PrintLength(|d|, |d'|); } else { PrintLength(|d'|, |d|); }
    var text, text' := Print(|d|) + d, Print(|d'|) + d';
    assert |text| == |Print(|d|)| + |d| && |text'| == |Print(|d'|)| + |d'|;
    assert text[|Print(|d|)|..] == d && text'[|Print(|d'|)|..] == d';
  }

  /** Under one sequence number the signed text determines the data, and for the same data it determines the number. */
  lemma SignedTextIff(s: Spec, n: nat, d: Bytes, d': Bytes)
    ensures MacInput(s, d) == MacInput(s, d') <==> d == d'
    ensures MacInput(s, d) == MacInput(s.(seqNum := n), d) <==> n == s.seqNum
  {
    var p, q := Print(s.seqNum), Print(n);
    var tail, tail' := Print(|d|) + d, Print(|d'|) + d';
    assert MacInput(s, d) == p + tail && MacInput(s, d') == p + tail' && MacInput(s.(seqNum := n), d) == q + tail;
    if p + tail == p + tail' {
      assert (p + tail)[|p|..] == tail && (p + tail')[|p|..] == tail';
      LengthTextInjective(d, d');
    }
    if p + tail == q + tail {
      assert |p| == |q| && (p + tail)[..|p|] == p && (q + tail)[..|q|] == q;
      PrintInjective(s.seqNum, n);
    }
  }

  function DigitSum(s: Bytes): int {
    if s == [] then 0 else DigitSum(Init(s)) + (Last(s) - ZERO)
  }

  lemma {:induction false} DigitSumAppend(a: Bytes, b: Bytes)
    ensures DigitSum(a + b) == DigitSum(a) + DigitSum(b)
    decreases |b|
  {
    if b == [] {
      assert a + b == a;
    } else {
      assert Init(a + b) == a + Init(b) && Last(a + b) == Last(b);
      DigitSumAppend(a, Init(b));
    }
  }

  lemma {:induction false} CastingOutNines(n: nat)
    ensures (n - DigitSum(Print(n))) % 9 == 0
  {
    if n >= 10 {
      CastingOutNines(n / 10);
      assert Init(Print(n)) == Print(n / 10) && Last(Print(n)) == ZERO + n % 10;
      assert n - DigitSum(Print(n)) == 9 * (n / 10) + (n / 10 - DigitSum(Print(n / 10)));
    } else {
      assert Init(Print(n)) == [];
      assert DigitSum(Print(n)) == n;
    }
  }

  /** Digits that change sides of a length that falls by their count come in nines. */
  lemma ShiftedLength(l: nat, e: Bytes)
    requires |e| <= l && Print(l) + e == e + Print(l - |e|)
    ensures |e| % 9 == 0
  {
    hide Print;
    DigitSumAppend(Print(l), e);
    DigitSumAppend(e, Print(l - |e|));
    CastingOutNines(l);
    CastingOutNines(l - |e|);
  }

  /**
    The length between them keeps the number and the data apart: digits in front of the data do not
    become the last digits of another number, unless their count is a multiple of nine.
   */
  lemma DigitsStayInData(s: Spec, n: nat, e: Bytes, d: Bytes)
    requires Print(n) == Print(s.seqNum) + e && |e| % 9 != 0
    ensures MacInput(s, e + d) != MacInput(s.(seqNum := n), d)
  {
    hide Print;
    var p, long, short := Print(s.seqNum), Print(|e + d|), Print(|d|);
    var t, t' := MacInput(s, e + d), MacInput(s.(seqNum := n), d);
    if long + e == e + short {
      ShiftedLength(|e + d|, e);
    }
    assert t == p + (long + e) + d && t' == p + (e + short) + d;
    if t == t' {
      ThreeTexts(p, long + e, e + short, d);
    }
  }

  lemma ThreeTexts(p: Bytes, a: Bytes, b: Bytes, d: Bytes)
    requires p + a + d == p + b + d
    ensures a == b
  {
    var t, t' := p + a + d, p + b + d;
    assert |a| == |b| && t[|p|..|p| + |a|] == a && t'[|p|..|p| + |b|] == b;
  }

  /** A frame with the data `d'` and the signature of `d`. */
  function Altered(c: Crypto, s: Spec, d: Bytes, d': Bytes, iv: Bytes): Bytes {
    AddEncrypt(c, s, AddPadding(s, c.packSigned(d', c.mac(s.macKey, MacInput(s, d)))), iv)
  }

  /** A signed message opens exactly at its own number: read at any other one it is dropped, and counted. */
  lemma OpensAtItsNumber(c: Crypto, s: Spec, n: nat, d: Bytes, iv: Bytes)
    requires Honest(c) && Unforgeable(c) && s.macKey != []
    ensures Unprotect(c, s.(seqNum := n), Protect(c, s, d, iv)) ==
            (if n == s.seqNum then Opened(d) else Rejected, Counted(s.(seqNum := n)))
  {
    UnpadPad(AddMac(c, s, d));
    SignedTextIff(s, n, d, d);
  }

  /** Under the old signature nothing but the old data opens. */
  lemma OpensUnaltered(c: Crypto, s: Spec, d: Bytes, d': Bytes, iv: Bytes)
    requires Honest(c) && Unforgeable(c) && s.macKey != []
    ensures Unprotect(c, s, Altered(c, s, d, d', iv)) == (if d' == d then Opened(d) else Rejected, Counted(s))
    ensures Altered(c, s, d, d, iv) == Protect(c, s, d, iv)
  {
    UnpadPad(c.packSigned(d', c.mac(s.macKey, MacInput(s, d))));
    SignedTextIff(s, 0, d, d');
  }

  /** A frame of whole blocks that are not padded data is dropped without being counted, or raises if it does not even unpickle. */
  lemma BadPaddingNotCounted(c: Crypto, s: Spec, p: Bytes, iv: Bytes)
    requires Honest(c) && s.encKey != [] && |p| % BLOCK == 0 && Unpad(p) == None
    ensures Unprotect(c, s, c.packEncrypted(iv, c.encrypt(s.encKey, iv, p))) ==
            (if s.macKey == [] || c.unpackSigned(p).Some? then Rejected else Broken, s)
  {
  }

  /** What does not unpickle, encrypted or signed, raises and is not counted. */
  lemma UnpicklableRaises(c: Crypto, s: Spec, m: Bytes)
    requires (s.encKey != [] && c.unpackEncrypted(m) == None) || (s.encKey == [] && s.macKey != [] && c.unpackSigned(m) == None)
    ensures Unprotect(c, s, m) == (Broken, s)
  {
  }

  // ---- The two ends of a line ----

  /** A current state and the one to switch to. */
  datatype End = End(cur: Spec, next: Spec)

  function Switched(e: End): End {
    End(e.next, BLANK)
  }

  function Installed(e: End, encKey: Bytes, macKey: Bytes): End {
    e.(next := e.next.(encKey := encKey, macKey := macKey))
  }

  /** The message is passed on, the frame is skipped and the next one read, or the call raises. */
  datatype Reading = Pass(data: Bytes) | Skip | Raise

  /** What becomes of a payload that is no switch message. */
  function OutcomeOf(c: Crypto, d: Bytes): Reading {
    if c.kindOf(d) == Untyped then Raise else Pass(d)
  }

  function OutcomesOf(c: Crypto, ds: seq<Bytes>): seq<Reading> {
    if ds == [] then [] else [OutcomeOf(c, ds[0])] + OutcomesOf(c, ds[1..])
  }

  /** What the reading end does with a frame. */
  function ReadFrame(c: Crypto, r: End, frame: Bytes): (End, Reading) {
    match Unprotect(c, r.cur, frame)
    case (Broken, s) => (r.(cur := s), Raise)
    case (Rejected, s) => (r.(cur := s), Skip)
    case (Opened(d), s) => if c.IsSwitch(d) then (Switched(r), Skip) else (r.(cur := s), OutcomeOf(c, d))
  }

  /** A frame under way, with what its sender knew: the payload, the state it used, and the state it had next. */
  datatype Item = Item(frame: Bytes, payload: Bytes, iv: Bytes, used: Spec, after: Spec)

  /** Both ends, the frames between them, the payloads sent, and what came of those that were read. */
  datatype Line = Line(writer: End, reader: End, wire: seq<Item>, sent: seq<Bytes>, got: seq<Reading>)

  datatype Event =
    | WriterInstalls(encKey: Bytes, macKey: Bytes)
    | ReaderInstalls(encKey: Bytes, macKey: Bytes)
    | SendData(payload: Bytes, iv: Bytes)
    | SendSwitch(iv: Bytes)
    | Read

  /**
    The steps of one direction of the connection. Both ends have derived the same secrets before a
    switch frame is read, and no application payload looks like a switch message.
   */
  ghost predicate Step(c: Crypto, l: Line, e: Event, l': Line) {
    match e
    case WriterInstalls(k, m) => l' == l.(writer := Installed(l.writer, k, m))
    case ReaderInstalls(k, m) => l' == l.(reader := Installed(l.reader, k, m))
    case SendData(d, iv) =>
      && !c.IsSwitch(d)
      && var w := l.writer.cur;
         l' == l.(writer := l.writer.(cur := Counted(w)), sent := l.sent + [d],
                  wire := l.wire + [Item(Protect(c, w, d, iv), d, iv, w, Counted(w))])
    case SendSwitch(iv) =>
      var w := l.writer.cur;
      l' == l.(writer := Switched(l.writer),
               wire := l.wire + [Item(Protect(c, w, c.switchMsg, iv), c.switchMsg, iv, w, l.writer.next)])
    case Read =>
      && l.wire != []
      && (c.IsSwitch(l.wire[0].payload) ==> l.reader.next == l.wire[0].after)
      && var (r, d) := ReadFrame(c, l.reader, l.wire[0].frame);
         l' == l.(reader := r, wire := l.wire[1..], got := if d.Skip? then l.got else l.got + [d])
  }

  ghost predicate ItemOk(c: Crypto, it: Item) {
    && it.frame == Protect(c, it.used, it.payload, it.iv)
    && (!c.IsSwitch(it.payload) ==> it.after == Counted(it.used))
  }

  /** Walking the frames under way from the reader's state leads through the states they were protected with to the writer's. */
  ghost predicate Walk(c: Crypto, r: Spec, wire: seq<Item>, w: Spec)
    decreases |wire|
  {
    if wire == [] then r == w
    else wire[0].used == r && ItemOk(c, wire[0]) && Walk(c, wire[0].after, wire[1..], w)
  }

  ghost function Payloads(c: Crypto, wire: seq<Item>): seq<Bytes> {
    if wire == [] then []
    else (if c.IsSwitch(wire[0].payload) then [] else [wire[0].payload]) + Payloads(c, wire[1..])
  }

  ghost predicate InSync(c: Crypto, l: Line) {
    Walk(c, l.reader.cur, l.wire, l.writer.cur) && OutcomesOf(c, l.sent) == l.got + OutcomesOf(c, Payloads(c, l.wire))
  }

  lemma {:induction false} WalkAppend(c: Crypto, r: Spec, wire: seq<Item>, w: Spec, it: Item)
    requires Walk(c, r, wire, w) && it.used == w && ItemOk(c, it)
    ensures Walk(c, r, wire + [it], it.after)
    ensures Payloads(c, wire + [it]) == Payloads(c, wire) + (if c.IsSwitch(it.payload) then [] else [it.payload])
    decreases |wire|
  {
    if wire == [] {
      assert wire + [it] == [it] && [it][1..] == [];
    } else {
      assert (wire + [it])[0] == wire[0] && (wire + [it])[1..] == wire[1..] + [it];
      WalkAppend(c, wire[0].after, wire[1..], w, it);
    }
  }

  lemma {:induction false} OutcomesAppend(c: Crypto, ds: seq<Bytes>, d: Bytes)
    ensures OutcomesOf(c, ds + [d]) == OutcomesOf(c, ds) + [OutcomeOf(c, d)]
    decreases |ds|
  {
    if ds == [] {
      assert ds + [d] == [d] && [d][1..] == [];
    } else {
      OutcomesAppend(c, ds[1..], d);
      assert (ds + [d])[0] == ds[0] && (ds + [d])[1..] == ds[1..] + [d];
    }
  }

  lemma SendKeepsSync(c: Crypto, l: Line, l': Line, it: Item)
    requires InSync(c, l) && it.used == l.writer.cur && ItemOk(c, it) && l'.writer.cur == it.after
    requires l'.reader == l.reader && l'.wire == l.wire + [it] && l'.got == l.got
    requires l'.sent == l.sent + (if c.IsSwitch(it.payload) then [] else [it.payload])
    ensures InSync(c, l')
  {
    hide ItemOk, OutcomeOf;
    WalkAppend(c, l.reader.cur, l.wire, l.writer.cur, it);
    if !c.IsSwitch(it.payload) {
      OutcomesAppend(c, Payloads(c, l.wire), it.payload);
      OutcomesAppend(c, l.sent, it.payload);
    } else {
      assert Payloads(c, l.wire) + [] == Payloads(c, l.wire) && l.sent + [] == l.sent;
    }
  }

  lemma ReadKeepsSync(c: Crypto, l: Line, l': Line)
    requires Honest(c) && InSync(c, l) && Step(c, l, Read, l')
    ensures InSync(c, l')
  {
    hide Protect, Unprotect;
    var it := l.wire[0];
    UnprotectProtect(c, it.used, it.payload, it.iv);
    hide Honest;
    assert l'.reader.cur == it.after;
    var rest := Payloads(c, l'.wire);
    if c.IsSwitch(it.payload) {
      assert [] + rest == rest;
    } else {
      assert ([it.payload] + rest)[1..] == rest;
      assert l.got + OutcomesOf(c, [it.payload] + rest) == l'.got + OutcomesOf(c, rest);
    }
  }

  lemma StepKeepsSync(c: Crypto, l: Line, e: Event, l': Line)
    requires Honest(c) && InSync(c, l) && Step(c, l, e, l')
    ensures InSync(c, l')
  {
    hide Protect, InSync;
    match e
    case WriterInstalls(_, _) => InstallsKeepSync(c, l, l');
    case ReaderInstalls(_, _) => InstallsKeepSync(c, l, l');
    case SendData(d, iv) => SendKeepsSync(c, l, l', Last(l'.wire));
    case SendSwitch(iv) => SendKeepsSync(c, l, l', Last(l'.wire));
    case Read => ReadKeepsSync(c, l, l');
  }

  lemma InstallsKeepSync(c: Crypto, l: Line, l': Line)
    requires InSync(c, l) && l'.reader.cur == l.reader.cur && l'.writer.cur == l.writer.cur
    requires l'.wire == l.wire && l'.sent == l.sent && l'.got == l.got
    ensures InSync(c, l')
  {
  }

  ghost predicate IsRun(c: Crypto, lines: seq<Line>, events: seq<Event>) {
    && |lines| == |events| + 1
    && lines[0] == Line(End(BLANK, BLANK), End(BLANK, BLANK), [], [], [])
    && forall k :: 0 <= k < |events| ==> Step(c, lines[k], events[k], lines[k + 1])
  }

  lemma {:induction false} RunKeepsSync(c: Crypto, lines: seq<Line>, events: seq<Event>, k: nat)
    requires Honest(c) && IsRun(c, lines, events) && k < |lines|
    ensures InSync(c, lines[k])
  {
    if k > 0 {
      RunKeepsSync(c, lines, events, k - 1);
      StepKeepsSync(c, lines[k - 1], events[k - 1], lines[k]);
    }
  }

  /** Each pair of keys is used from number zero on. */
  lemma {:induction false} NextUncounted(c: Crypto, lines: seq<Line>, events: seq<Event>, k: nat)
    requires IsRun(c, lines, events) && k < |lines|
    ensures lines[k].writer.next.seqNum == 0 && lines[k].reader.next.seqNum == 0
    ensures k > 0 && events[k - 1].SendSwitch? ==> lines[k].writer.cur == lines[k - 1].writer.next && lines[k].writer.next == BLANK
  {
    if k > 0 {
      NextUncounted(c, lines, events, k - 1);
      assert Step(c, lines[k - 1], events[k - 1], lines[k]);
    }
  }

  /** The state the reader will be in when it comes to frame `n`: the one the frame was protected with. */
  ghost function StateAt(r: Spec, wire: seq<Item>, n: nat): Spec
    requires n <= |wire|
  {
    if n == 0 then r else wire[n - 1].after
  }

  lemma {:induction false} WalkAt(c: Crypto, r: Spec, wire: seq<Item>, w: Spec, n: nat)
    requires Walk(c, r, wire, w) && n <= |wire|
    ensures n < |wire| ==> StateAt(r, wire, n) == wire[n].used && ItemOk(c, wire[n])
    ensures n == |wire| ==> StateAt(r, wire, n) == w
    decreases |wire|
  {
    if n > 0 {
      WalkAt(c, wire[0].after, wire[1..], w, n - 1);
    }
  }

  /**
    Cipher-state synchronisation. In every reachable state, what was read is what was sent as far as it
    got, with an exception for each payload that has no type to look up; every frame under way
    unprotects, with the state the reader will then have, to the payload it was made from; and behind
    the last frame the reader will have the writer's state.
   */
  lemma ChannelInSync(c: Crypto, lines: seq<Line>, events: seq<Event>, k: nat)
    requires Honest(c) && IsRun(c, lines, events) && k < |lines|
    ensures var l := lines[k];
            && l.got <= OutcomesOf(c, l.sent)
            && (forall n: nat :: n < |l.wire| ==>
                  Unprotect(c, StateAt(l.reader.cur, l.wire, n), l.wire[n].frame) == (Opened(l.wire[n].payload), Counted(l.wire[n].used)))
            && StateAt(l.reader.cur, l.wire, |l.wire|) == l.writer.cur
            && (l.wire == [] ==> l.got == OutcomesOf(c, l.sent) && l.reader.cur == l.writer.cur)
  {
    RunKeepsSync(c, lines, events, k);
    var l := lines[k];
    forall n: nat | n < |l.wire|
      ensures Unprotect(c, StateAt(l.reader.cur, l.wire, n), l.wire[n].frame) == (Opened(l.wire[n].payload), Counted(l.wire[n].used))
    {
      WalkAt(c, l.reader.cur, l.wire, l.writer.cur, n);
      UnprotectProtect(c, l.wire[n].used, l.wire[n].payload, l.wire[n].iv);
    }
    WalkAt(c, l.reader.cur, l.wire, l.writer.cur, |l.wire|);
  }

  /** The ends stay in step over a sent payload exactly when it does not look like a switch message. */
  lemma PayloadKeepsStepIff(c: Crypto, w: Spec, r: End, d: Bytes, iv: Bytes)
    requires Honest(c) && r.cur == w && r.next.seqNum == 0
    ensures ReadFrame(c, r, Protect(c, w, d, iv)).0.cur == Counted(w) <==> !c.IsSwitch(d)
  {
    UnprotectProtect(c, w, d, iv);
  }

  /** A payload is delivered exactly when it is neither taken for a switch message nor one whose type cannot be looked up. */
  lemma PayloadDeliveredIff(c: Crypto, r: End, d: Bytes, iv: Bytes)
    requires Honest(c)
    ensures var (r', reading) := ReadFrame(c, r, Protect(c, r.cur, d, iv));
            && (reading == Pass(d) <==> c.kindOf(d) == Ordinary)
            && (reading == Raise <==> c.kindOf(d) == Untyped)
            && (c.kindOf(d) == Untyped ==> r' == r.(cur := Counted(r.cur)))
  {
    UnprotectProtect(c, r.cur, d, iv);
  }

  lemma {:induction false} OutcomesAt(c: Crypto, ds: seq<Bytes>, k: nat)
    requires k < |ds|
    ensures |OutcomesOf(c, ds)| == |ds| && OutcomesOf(c, ds)[k] == OutcomeOf(c, ds[k])
    decreases |ds|
  {
    if k > 0 {
      OutcomesAt(c, ds[1..], k - 1);
    } else if |ds| > 1 {
      OutcomesAt(c, ds[1..], 0);
    }
  }

  lemma AllDeliveredIff(c: Crypto, ds: seq<Bytes>)
    ensures (forall k :: 0 <= k < |ds| ==> c.kindOf(ds[k]) != Untyped) <==>
            |OutcomesOf(c, ds)| == |ds| && forall k :: 0 <= k < |ds| ==> OutcomesOf(c, ds)[k] == Pass(ds[k])
  {
    forall k | 0 <= k < |ds| ensures |OutcomesOf(c, ds)| == |ds| && OutcomesOf(c, ds)[k] == OutcomeOf(c, ds[k]) {
      OutcomesAt(c, ds, k);
    }
  }

  /** Once the channel is empty everything sent has been delivered, exactly when looking up the type raises for no payload. */
  lemma EmptyChannelDeliveredIff(c: Crypto, lines: seq<Line>, events: seq<Event>, k: nat)
    requires Honest(c) && IsRun(c, lines, events) && k < |lines| && lines[k].wire == []
    ensures var l := lines[k];
            (|l.got| == |l.sent| && forall j :: 0 <= j < |l.sent| ==> l.got[j] == Pass(l.sent[j])) <==>
            forall j :: 0 <= j < |l.sent| ==> c.kindOf(l.sent[j]) != Untyped
  {
    ChannelInSync(c, lines, events, k);
    hide Honest, IsRun;
    AllDeliveredIff(c, lines[k].sent);
  }
}
