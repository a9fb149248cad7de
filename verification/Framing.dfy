/**
  The length-prefixed frames of `send` and `recv` in lnst/Common/SecureSocket.py over a byte stream
  that the socket may deliver in any chunks.
 */
module Framing {
  import opened Sequences
  import opened Decimal

  /** `str(len(data)) + b" " + data`. */
  function Encode(data: Bytes): Bytes {
    Print(|data|) + [SPACE] + data
  }

  /** What one `recv` makes of the stream: a payload, the end of the stream (where it returns `b""`), or an error of `int`. */
  datatype Received = Payload(data: Bytes) | Ended | BadLength

  function FirstSpace(s: Bytes): (k: nat)
    ensures k <= |s| && (k < |s| ==> s[k] == SPACE && SPACE in s) && SPACE !in s[..k]
    ensures forall j :: 0 <= j < |s| && s[j] == SPACE ==> k <= j
  {
    if s == [] || s[0] == SPACE then 0 else 1 + FirstSpace(s[1..])
  }

  /** The reading part of `recv` as a function of the stream: the result and what is left. */
  function Decode(stream: Bytes): (r: (Received, Bytes))
    ensures r.0.Payload? ==> |r.1| < |stream|
  {
    var k := FirstSpace(stream);
    if k == |stream| then (Ended, [])
    else
      var rest := stream[k + 1..];
      match Parse(stream[..k])
      case None => (BadLength, rest)
      case Some(n) => if n <= |rest| then (Payload(rest[..n]), rest[n..]) else (Ended, [])
  }

  lemma {:induction false} FirstSpaceAt(a: Bytes, b: Bytes)
    requires SPACE !in a
    ensures FirstSpace(a + [SPACE] + b) == |a|
  {
    var s := a + [SPACE] + b;
    assert s[|a|] == SPACE;
    assert forall i :: 0 <= i < |a| ==> s[i] == a[i];
  }

  /** A frame is read back whatever follows it. */
  lemma DecodeEncode(data: Bytes, rest: Bytes)
    ensures Decode(Encode(data) + rest) == (Payload(data), rest)
  {
    var p := Print(|data|);
    var s := Encode(data) + rest;
    assert SPACE !in p;
    assert s == p + [SPACE] + (data + rest);
    FirstSpaceAt(p, data + rest);
    assert s[..|p|] == p && s[|p| + 1..] == data + rest;
    ParsePrint(|data|);
    assert (data + rest)[..|data|] == data && (data + rest)[|data|..] == rest;
  }

  /** Frames delimit themselves. */
  lemma FramesSelfDelimiting(a: Bytes, x: Bytes, b: Bytes, y: Bytes)
    requires Encode(a) + x == Encode(b) + y
    ensures a == b && x == y
  {
    DecodeEncode(a, x);
    DecodeEncode(b, y);
  }

  /** A stream that ends within a frame yields no payload. */
  lemma TruncatedFrame(data: Bytes, n: nat)
    requires n < |Encode(data)|
    ensures Decode(Encode(data)[..n]) == (Ended, [])
  {
    var p := Print(|data|);
    var s := Encode(data)[..n];
    if n <= |p| {
      assert s == p[..n];
      assert SPACE !in s;
    } else {
      var part := data[..n - |p| - 1];
      assert s == p + [SPACE] + part;
      FirstSpaceAt(p, part);
      assert s[..|p|] == p && s[|p| + 1..] == part;
      ParsePrint(|data|);
    }
  }

  function EncodeAll(payloads: seq<Bytes>): Bytes {
    if payloads == [] then [] else Encode(payloads[0]) + EncodeAll(payloads[1..])
  }

  /** The receiving end of a stream socket. */
  class StreamSocket {
    var incoming: Bytes    // what the peer has sent and this end has not read; nothing follows it

    constructor (incoming: Bytes)
      ensures this.incoming == incoming
    {
      this.incoming := incoming;
    }

    /** `socket.recv(n)`: some of the bytes at hand, as the network pleases, and none only at the end. */
    method RecvSome(n: nat) returns (chunk: Bytes)
      requires n > 0
      modifies this
      ensures old(incoming) == chunk + incoming && |chunk| <= n
      ensures chunk == [] ==> old(incoming) == []
    {
      if incoming == [] { return []; }
      var k: nat :| 1 <= k <= n && k <= |incoming|;
      chunk := incoming[..k];
      incoming := incoming[k..];
    }

    /** Reads up to the next space: the bytes before it, or none if the stream ends first. */
    method RecvLength() returns (text: Bytes, ended: bool)
      modifies this
      ensures ended <==> FirstSpace(old(incoming)) == |old(incoming)|
      ensures ended ==> incoming == []
      ensures !ended ==> text == old(incoming)[..FirstSpace(old(incoming))]
      ensures !ended ==> incoming == old(incoming)[FirstSpace(old(incoming)) + 1..]
    {
      text, ended := [], false;
      ghost var s := incoming;
      while true
        invariant s == text + incoming && SPACE !in text
        decreases |incoming|
      {
        ghost var before := incoming;
        var c := RecvSome(1);
        if c == [SPACE] {
          assert s == text + [SPACE] + incoming;
          FirstSpaceAt(text, incoming);
          return;
        } else if c == [] {
          assert s == text;
          return text, true;
        } else {
          assert before == c + incoming && c == [c[0]];
          text := text + c;
        }
      }
    }

    /** Reads `n` bytes, or reports that the stream ends first. */
    method RecvExactly(n: nat) returns (data: Bytes, ended: bool)
      modifies this
      ensures ended <==> |old(incoming)| < n
      ensures ended ==> incoming == []
      ensures !ended ==> data == old(incoming)[..n] && incoming == old(incoming)[n..]
    {
      data := [];
      ghost var s := incoming;
      while |data| < n
        invariant s == data + incoming && |data| <= n
        decreases n - |data|
      {
        var c := RecvSome(n - |data|);
        if c == [] { return data, true; }
        data := data + c;
      }
      ended := false;
    }

    /** One frame: the part of `recv` before the cipher state comes in. */
    method RecvFrame() returns (r: Received)
      modifies this
      ensures (r, incoming) == Decode(old(incoming))
    {
      var text, ended := RecvLength();
      if ended { return Ended; }
      var n := Parse(text);
      if n.None? { return BadLength; }
      var data, short := RecvExactly(n.value);
      r := if short then Ended else Payload(data);
    }

    /** Successive calls return exactly the payloads that were sent, in order, whatever the chunks. */
    method RecvFrames(ghost payloads: seq<Bytes>, count: nat) returns (got: seq<Received>)
      requires incoming == EncodeAll(payloads) && count == |payloads|
      modifies this
      ensures |got| == |payloads| && forall k :: 0 <= k < |got| ==> got[k] == Payload(payloads[k])
      ensures incoming == []
    {
      got := [];
      for i := 0 to count
        invariant incoming == EncodeAll(payloads[i..]) && |got| == i
        invariant forall k :: 0 <= k < i ==> got[k] == Payload(payloads[k])
      {
        DecodeEncode(payloads[i], EncodeAll(payloads[i + 1..]));
        assert payloads[i..][1..] == payloads[i + 1..];
        var r := RecvFrame();
        got := got + [r];
      }
    }
  }
}
