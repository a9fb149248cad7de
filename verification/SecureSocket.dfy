/** The `SecureSocket` class of lnst/Common/SecureSocket.py on a pair of byte streams. */
module SecureSocket {
  import opened Sequences
  import opened Decimal
  import opened Framing
  import opened CipherState
  import opened KeyExpansion

  /** What a call of `recv` comes to: data (empty at the end of the stream), or an exception. */
  datatype Message = Got(data: Bytes) | Raised

  /** What `recv` makes of a payload that is no switch message. */
  function MessageOf(c: Crypto, d: Bytes): Message {
    if c.kindOf(d) == Untyped then Raised else Got(d)
  }

  /** `recv` as a function of the reading state and the stream. */
  function ReadMessage(c: Crypto, e: End, stream: Bytes): (Message, End, Bytes)
    decreases |stream|
  {
    match Decode(stream)
    case (Ended, rest) => (Got([]), e, rest)
    case (BadLength, rest) => (Raised, e, rest)
    case (Payload(frame), rest) =>
      match ReadFrame(c, e, frame)
      case (e', Pass(d)) => (Got(d), e', rest)
      case (e', Skip) => ReadMessage(c, e', rest)
      case (e', Raise) => (Raised, e', rest)
  }

  function Frames(wire: seq<Item>): Bytes {
    if wire == [] then [] else Encode(wire[0].frame) + Frames(wire[1..])
  }

  /** Each switch frame finds the reader's next state to be the one its sender went over to. */
  ghost predicate SwitchesAgreed(c: Crypto, e: End, wire: seq<Item>)
    decreases |wire|
  {
    wire == [] ||
    (if c.IsSwitch(wire[0].payload)
     then e.next == wire[0].after && SwitchesAgreed(c, Switched(e), wire[1..])
     else SwitchesAgreed(c, e.(cur := wire[0].after), wire[1..]))
  }

  /** The results of `n` calls of `recv`. */
  function ReadMessages(c: Crypto, e: End, stream: Bytes, n: nat): seq<Message>
    decreases n
  {
    if n == 0 then []
    else
      var (m, e', rest) := ReadMessage(c, e, stream);
      [m] + ReadMessages(c, e', rest, n - 1)
  }

  lemma ReadNextFrame(c: Crypto, e: End, it: Item, rest: Bytes)
    requires Honest(c) && it.used == e.cur && ItemOk(c, it)
    ensures ReadMessage(c, e, Encode(it.frame) + rest) ==
            if c.IsSwitch(it.payload) then ReadMessage(c, Switched(e), rest)
            else (MessageOf(c, it.payload), e.(cur := it.after), rest)
  {
    hide Protect, Unprotect, Encode, Decode;
    DecodeEncode(it.frame, rest);
    UnprotectProtect(c, it.used, it.payload, it.iv);
  }

  /**
    From bytes to bytes: the calls of `recv` return exactly the payloads of the frames on the wire, in
    order, and raise for those without a type to look up.
   */
  lemma {:induction false} WireDelivers(c: Crypto, e: End, wire: seq<Item>, w: Spec, rest: Bytes)
    requires Honest(c) && Walk(c, e.cur, wire, w) && SwitchesAgreed(c, e, wire)
    ensures |ReadMessages(c, e, Frames(wire) + rest, |Payloads(c, wire)|)| == |Payloads(c, wire)|
    ensures forall k :: 0 <= k < |Payloads(c, wire)| ==>
              ReadMessages(c, e, Frames(wire) + rest, |Payloads(c, wire)|)[k] == MessageOf(c, Payloads(c, wire)[k])
    decreases |wire|
  {
    hide Honest, ItemOk, ReadMessage, Encode;
    if wire != [] {
      var it := wire[0];
      var tail := Frames(wire[1..]) + rest;
      assert Frames(wire) + rest == Encode(it.frame) + tail;
      ReadNextFrame(c, e, it, tail);
      var e' := if c.IsSwitch(it.payload) then Switched(e) else e.(cur := it.after);
      WireDelivers(c, e', wire[1..], w, rest);
      if c.IsSwitch(it.payload) {
        assert Payloads(c, wire) == Payloads(c, wire[1..]);
        SameFirstRead(c, e, Frames(wire) + rest, e', tail, |Payloads(c, wire)|);
      } else {
        assert Payloads(c, wire) == [it.payload] + Payloads(c, wire[1..]);
      }
    }
  }

  lemma SameFirstRead(c: Crypto, e: End, stream: Bytes, e': End, stream': Bytes, n: nat)
    requires ReadMessage(c, e, stream) == ReadMessage(c, e', stream')
    ensures ReadMessages(c, e, stream, n) == ReadMessages(c, e', stream', n)
  {
  }

  // ---- Frames that the signature keeps out ----

  /** A frame that is read at another number than its own is skipped: the call returns what follows it. */
  lemma OutOfTurnSkipped(c: Crypto, e: End, s: Spec, d: Bytes, iv: Bytes, rest: Bytes)
    requires Honest(c) && Unforgeable(c) && s.macKey != []
    requires e.cur == s.(seqNum := e.cur.seqNum) && e.cur.seqNum != s.seqNum
    ensures ReadMessage(c, e, Encode(Protect(c, s, d, iv)) + rest) == ReadMessage(c, CountedBy(e, 1), rest)
  {
    hide Protect, Unprotect, Encode, Decode;
    DecodeEncode(Protect(c, s, d, iv), rest);
    OpensAtItsNumber(c, s, e.cur.seqNum, d, iv);
  }

  /** So is a frame whose data was altered. */
  lemma AlteredSkipped(c: Crypto, e: End, d: Bytes, d': Bytes, iv: Bytes, rest: Bytes)
    requires Honest(c) && Unforgeable(c) && e.cur.macKey != [] && d' != d
    ensures ReadMessage(c, e, Encode(Altered(c, e.cur, d, d', iv)) + rest) == ReadMessage(c, CountedBy(e, 1), rest)
  {
    hide Altered, Unprotect, Encode, Decode;
    DecodeEncode(Altered(c, e.cur, d, d', iv), rest);
    OpensUnaltered(c, e.cur, d, d', iv);
  }

  /** The reader that has counted `n` more frames. */
  function CountedBy(e: End, n: nat): End {
    e.(cur := e.cur.(seqNum := e.cur.seqNum + n))
  }

  /** A frame that is sent once and comes twice is delivered once. */
  lemma ReplaySkipped(c: Crypto, e: End, d: Bytes, iv: Bytes, rest: Bytes)
    requires Honest(c) && Unforgeable(c) && e.cur.macKey != [] && !c.IsSwitch(d)
    ensures var frame := Encode(Protect(c, e.cur, d, iv));
            && ReadMessage(c, e, frame + (frame + rest)) == (MessageOf(c, d), CountedBy(e, 1), frame + rest)
            && ReadMessage(c, CountedBy(e, 1), frame + rest) == ReadMessage(c, CountedBy(e, 2), rest)
  {
    hide Protect, Encode, ReadMessage, Honest, Unforgeable;
    var frame := Encode(Protect(c, e.cur, d, iv));
    ReadNextFrame(c, e, Item(Protect(c, e.cur, d, iv), d, iv, e.cur, Counted(e.cur)), frame + rest);
    OutOfTurnSkipped(c, CountedBy(e, 1), e.cur, d, iv, rest);
    assert CountedBy(CountedBy(e, 1), 1) == CountedBy(e, 2);
  }

  /** A reader out of step with its peer skips every frame up to the next switch, and that one, too. */
  lemma {:induction false} OutOfStepSkipsAll(c: Crypto, e: End, r: Spec, wire: seq<Item>, w: Spec, rest: Bytes)
    requires Honest(c) && Unforgeable(c) && Walk(c, r, wire, w)
    requires forall k :: 0 <= k < |wire| - 1 ==> !c.IsSwitch(wire[k].payload)
    requires e.cur == r.(seqNum := e.cur.seqNum) && r.macKey != [] && e.cur.seqNum != r.seqNum
    ensures ReadMessage(c, e, Frames(wire) + rest) == ReadMessage(c, CountedBy(e, |wire|), rest)
    decreases |wire|
  {
    hide Honest, Unforgeable, ReadMessage, Encode, Protect;
    if wire == [] {
      assert Frames(wire) + rest == rest && CountedBy(e, 0) == e;
    } else {
      var it, tail := wire[0], Frames(wire[1..]) + rest;
      assert Frames(wire) + rest == Encode(it.frame) + tail;
      OutOfTurnSkipped(c, e, it.used, it.payload, it.iv, tail);
      if |wire| == 1 {
        assert tail == rest;
      } else {
        assert !c.IsSwitch(wire[0].payload);
        assert forall k :: 0 <= k < |wire[1..]| - 1 ==> wire[1..][k] == wire[k + 1];
        OutOfStepSkipsAll(c, CountedBy(e, 1), it.after, wire[1..], w, rest);
        assert CountedBy(CountedBy(e, 1), |wire| - 1) == CountedBy(e, |wire|);
      }
    }
  }

  /** A frame with bad padding is skipped and not counted, so the frames behind it are read as if it had not come. */
  lemma BadPaddingSkipped(c: Crypto, e: End, p: Bytes, iv: Bytes, rest: Bytes)
    requires Honest(c) && e.cur.encKey != [] && |p| % BLOCK == 0 && Unpad(p) == None
    requires e.cur.macKey == [] || c.unpackSigned(p).Some?
    ensures ReadMessage(c, e, Encode(c.packEncrypted(iv, c.encrypt(e.cur.encKey, iv, p))) + rest) == ReadMessage(c, e, rest)
  {
    hide Unprotect, Encode, Decode;
    var frame := c.packEncrypted(iv, c.encrypt(e.cur.encKey, iv, p));
    DecodeEncode(frame, rest);
    BadPaddingNotCounted(c, e.cur, p, iv);
  }

  /** What is read of a stream that ends within a frame, has no length in front, or has a frame that does not unpickle. */
  lemma BadStream(c: Crypto, e: End, data: Bytes, n: nat, text: Bytes, rest: Bytes)
    ensures n < |Encode(data)| ==> ReadMessage(c, e, Encode(data)[..n]) == (Got([]), e, [])
    ensures SPACE !in text && Parse(text) == None ==> ReadMessage(c, e, text + [SPACE] + rest) == (Raised, e, rest)
    ensures Unprotect(c, e.cur, data) == (Broken, e.cur) ==> ReadMessage(c, e, Encode(data) + rest) == (Raised, e, rest)
  {
    if n < |Encode(data)| {
      TruncatedFrame(data, n);
    }
    if SPACE !in text {
      FirstSpaceAt(text, rest);
      var s := text + [SPACE] + rest;
      assert s[..|text|] == text && s[|text| + 1..] == rest;
    }
    DecodeEncode(data, rest);
  }

  class Socket {
    const crypto: Crypto
    const role: Role
    const stream: StreamSocket
    var outgoing: Bytes             // everything given to `sendall`
    var currentWriteSpec: Spec
    var currentReadSpec: Spec
    var nextWriteSpec: Spec
    var nextReadSpec: Spec
    var masterSecret: Bytes

    ghost function Writer(): End
      reads this
    {
      End(currentWriteSpec, nextWriteSpec)
    }

    ghost function Reader(): End
      reads this
    {
      End(currentReadSpec, nextReadSpec)
    }

    constructor (crypto: Crypto, role: Role, stream: StreamSocket)
      ensures this.crypto == crypto && this.role == role && this.stream == stream
      ensures Writer() == End(BLANK, BLANK) && Reader() == End(BLANK, BLANK) && outgoing == [] && masterSecret == []
    {
      this.crypto, this.role, this.stream := crypto, role, stream;
      outgoing, masterSecret := [], [];
      currentWriteSpec, currentReadSpec, nextWriteSpec, nextReadSpec := BLANK, BLANK, BLANK, BLANK;
    }

    /** `_protect_data`; the initialisation vector comes from the operating system. */
    method ProtectData(data: Bytes, iv: Bytes) returns (encrypted: Bytes)
      modifies `currentWriteSpec
      ensures encrypted == Protect(crypto, old(currentWriteSpec), data, iv)
      ensures currentWriteSpec == Counted(old(currentWriteSpec))
    {
      var signed := AddMac(crypto, currentWriteSpec, data);
      var padded := AddPadding(currentWriteSpec, signed);
      encrypted := AddEncrypt(crypto, currentWriteSpec, padded, iv);
      currentWriteSpec := currentWriteSpec.(seqNum := currentWriteSpec.seqNum + 1);
    }

    /** `send`. */
    method Send(data: Bytes, iv: Bytes)
      modifies `currentWriteSpec, `outgoing
      ensures outgoing == old(outgoing) + Encode(Protect(crypto, old(currentWriteSpec), data, iv))
      ensures currentWriteSpec == Counted(old(currentWriteSpec))
    {
      var protected := ProtectData(data, iv);
      outgoing := outgoing + (Print(|protected|) + [SPACE] + protected);
    }

    /** `_send_change_cipher_spec`. */
    method SendChangeCipherSpec(iv: Bytes)
      modifies `currentWriteSpec, `nextWriteSpec, `outgoing
      ensures outgoing == old(outgoing) + Encode(Protect(crypto, old(currentWriteSpec), crypto.switchMsg, iv))
      ensures Writer() == Switched(old(Writer()))
    {
      Send(crypto.switchMsg, iv);
      currentWriteSpec := nextWriteSpec;
      nextWriteSpec := BLANK;
    }

    /** `_uprotect_data`. */
    method UprotectData(encrypted: Bytes) returns (r: Opened)
      modifies `currentReadSpec
      ensures (r, currentReadSpec) == Unprotect(crypto, old(currentReadSpec), encrypted)
    {
      var padded := DelEncrypt(crypto, currentReadSpec, encrypted);
      if padded.None? { return Broken; }
      var signed := DelPadding(currentReadSpec, padded.value);
      if signed.None? {
        r := DelMac(crypto, currentReadSpec, padded.value);
        return if r.Broken? then Broken else Rejected;
      }
      r := DelMac(crypto, currentReadSpec, signed.value);
      if !r.Broken? {
        currentReadSpec := currentReadSpec.(seqNum := currentReadSpec.seqNum + 1);
      }
    }

    /** `recv` with `_handle_internal`: their mutual recursion is the loop here. */
    method Recv() returns (m: Message)
      modifies `currentReadSpec, `nextReadSpec, stream
      ensures (m, Reader(), stream.incoming) == ReadMessage(crypto, old(Reader()), old(stream.incoming))
    {
      ghost var e0, s0 := Reader(), stream.incoming;
      while true
        invariant ReadMessage(crypto, Reader(), stream.incoming) == ReadMessage(crypto, e0, s0)
        decreases |stream.incoming|
      {
        var frame := stream.RecvFrame();
        if frame.Ended? { return Got([]); }
        if frame.BadLength? { return Raised; }
        var msg := UprotectData(frame.data);
        if msg.Broken? { return Raised; }
        if msg.Rejected? { continue; }
        if crypto.IsSwitch(msg.data) {
          currentReadSpec := nextReadSpec;
          nextReadSpec := BLANK;
          continue;
        }
        if crypto.kindOf(msg.data) == Untyped { return Raised; }
        return Got(msg.data);
      }
    }

    /** `_init_cipher_spec` for a key block from the master secret and both random values. */
    method InitCipherSpec(ctlRandom: Bytes, agentRandom: Bytes, ghost size: nat) returns (ghost block: Bytes)
      requires FixedSize(crypto.mac, size)
      modifies `nextWriteSpec, `nextReadSpec
      ensures |block| == 2 * AES_KEYSIZE + 2 * MAC_KEYSIZE
      ensures IsPHash(crypto.mac, masterSecret, KEY_EXPANSION + (agentRandom + ctlRandom), |block|, block)
      ensures nextWriteSpec == InstallWrite(role, KeysOf(block), old(nextWriteSpec))
      ensures nextReadSpec == InstallRead(role, KeysOf(block), old(nextReadSpec))
    {
      var prfSeq := PSha256(crypto.mac, size, masterSecret, KEY_EXPANSION + (agentRandom + ctlRandom), 2 * AES_KEYSIZE + 2 * MAC_KEYSIZE);
      block := prfSeq;
      var clientEnc := prfSeq[..AES_KEYSIZE];
      prfSeq := prfSeq[AES_KEYSIZE..];
      var serverEnc := prfSeq[..AES_KEYSIZE];
      prfSeq := prfSeq[AES_KEYSIZE..];
      var clientMac := prfSeq[..MAC_KEYSIZE];
      prfSeq := prfSeq[MAC_KEYSIZE..];
      var serverMac := prfSeq[..MAC_KEYSIZE];
      assert Keys(clientEnc, serverEnc, clientMac, serverMac) == KeysOf(block);
      if role == Client {
        nextWriteSpec := nextWriteSpec.(encKey := clientEnc, macKey := clientMac);
        nextReadSpec := nextReadSpec.(encKey := serverEnc, macKey := serverMac);
      } else {
        nextReadSpec := nextReadSpec.(encKey := clientEnc, macKey := clientMac);
        nextWriteSpec := nextWriteSpec.(encKey := serverEnc, macKey := serverMac);
      }
    }
  }

  /** The ASCII bytes of "key expansion" and "master secret". */
  const KEY_EXPANSION: Bytes := [107, 101, 121, 32, 101, 120, 112, 97, 110, 115, 105, 111, 110]
  const MASTER_SECRET: Bytes := [109, 97, 115, 116, 101, 114, 32, 115, 101, 99, 114, 101, 116]
}
