/** Message framing over a byte stream whose reads and writes come in pieces of any size. */
module Net {
  import opened Bytes
  import opened Proto

  const CHUNK := 32768

  /** What one send or recv call comes to. */
  datatype Io = Moved(n: nat) | WouldBlock | Closed | Broken

  /** A connected socket: what is still to be read from the peer, what was written to it, whether an
      I/O error was seen, and how many calls will still report that they would block. */
  class Socket {
    var incoming: seq<byte>
    var outgoing: seq<byte>
    var failed: bool
    var stalls: nat

    /** Writes some nonempty piece of the data, would block, or fails. */
    method Send(data: seq<byte>) returns (r: Io)
      requires data != []
      modifies this`outgoing, this`failed, this`stalls
      ensures r.Moved? ==> 0 < r.n <= |data| && outgoing == old(outgoing) + data[..r.n] && stalls == old(stalls)
      ensures !r.Moved? ==> outgoing == old(outgoing)
      ensures stalls <= old(stalls) && (r.WouldBlock? ==> stalls < old(stalls))
      ensures r.Closed? || r.Broken? ==> failed
      ensures old(failed) ==> failed
    {
      if
      case true =>
        failed, r := true, Broken;
      case stalls > 0 =>
        stalls, r := stalls - 1, WouldBlock;
      case true =>
        var n :| 1 <= n <= |data|;
        outgoing, r := outgoing + data[..n], Moved(n);
    }

    /** Reads some nonempty piece of what is there into the buffer; Closed at the end of the stream. */
    method Recv(buf: array<byte>, at: nat, max: nat) returns (r: Io)
      requires max > 0 && at + max <= buf.Length
      modifies this`incoming, this`failed, this`stalls, buf
      ensures r.Moved? ==> 0 < r.n <= max && r.n <= |old(incoming)| && incoming == old(incoming)[r.n..] && stalls == old(stalls)
                           && buf[..at + r.n] == old(buf[..at]) + old(incoming)[..r.n]
      ensures !r.Moved? ==> incoming == old(incoming) && buf[..] == old(buf[..])
      ensures r.WouldBlock? ==> stalls < old(stalls)
      ensures r.Closed? ==> incoming == []
      ensures r.Broken? ==> failed
      ensures old(failed) ==> failed
    {
      if
      case true =>
        failed, r := true, Broken;
      case stalls > 0 =>
        stalls, r := stalls - 1, WouldBlock;
      case incoming == [] =>
        r := Closed;
      case incoming != [] =>
        var n :| 1 <= n <= max && n <= |incoming|;
        forall k | 0 <= k < n {
          buf[at + k] := incoming[k];
        }
        incoming, r := incoming[n..], Moved(n);
    }

    /** Waits until the socket is ready again, or gives up. */
    method Wait() returns (ok: bool)
      modifies this`failed
      ensures ok ==> failed == old(failed)
      ensures !ok ==> failed
    {
      ok := *;
      if !ok {
        failed := true;
      }
    }
  }

  /** Writes all the data; an error, or a socket that would block, ends it part of the way. */
  method SendAll(s: Socket, data: seq<byte>) returns (ok: bool)
    modifies s`outgoing, s`failed, s`stalls
    ensures ok ==> s.outgoing == old(s.outgoing) + data
    ensures !ok ==> s.failed || s.stalls < old(s.stalls)
    ensures old(s.failed) ==> s.failed
    ensures s.stalls <= old(s.stalls)
    ensures old(s.outgoing) <= s.outgoing <= old(s.outgoing) + data
  {
    var at := 0;
    while at < |data|
      invariant 0 <= at <= |data|
      invariant s.outgoing == old(s.outgoing) + data[..at]
      invariant s.stalls == old(s.stalls) && (old(s.failed) ==> s.failed)
    {
      var chunk := if |data| - at > CHUNK then CHUNK else |data| - at;
      var r := s.Send(data[at..at + chunk]);
      if !r.Moved? {
        return false;
      }
      assert data[..at] + data[at..at + chunk][..r.n] == data[..at + r.n];
      at := at + r.n;
    }
    assert data[..at] == data;
    ok := true;
  }

  /** The writer thread's form, which waits when the socket would block. */
  method SendAllTimeout(s: Socket, data: seq<byte>) returns (ok: bool)
    modifies s`outgoing, s`failed, s`stalls
    ensures ok ==> s.outgoing == old(s.outgoing) + data
    ensures !ok ==> s.failed
    ensures old(s.outgoing) <= s.outgoing <= old(s.outgoing) + data
  {
    var at := 0;
    while at < |data|
      invariant 0 <= at <= |data|
      invariant s.outgoing == old(s.outgoing) + data[..at]
      decreases |data| - at, s.stalls
    {
      var chunk := if |data| - at > CHUNK then CHUNK else |data| - at;
      var r := s.Send(data[at..at + chunk]);
      if r.Moved? {
        assert data[..at] + data[at..at + chunk][..r.n] == data[..at + r.n];
        at := at + r.n;
      } else if r.WouldBlock? {
        ok := s.Wait();
        if !ok {
          return false;
        }
      } else {
        return false;
      }
    }
    assert data[..at] == data;
    ok := true;
  }

  /** Reads exactly len bytes, unless the stream ends first or an error comes up. */
  method RecvAll(s: Socket, buf: array<byte>, len: nat) returns (ok: bool)
    requires len <= buf.Length
    modifies s`incoming, s`failed, s`stalls, buf
    ensures ok ==> len <= |old(s.incoming)| && buf[..len] == old(s.incoming)[..len] && s.incoming == old(s.incoming)[len..]
    ensures !ok ==> s.failed || |old(s.incoming)| < len
    ensures old(s.failed) ==> s.failed
  {
    var at := 0;
    while at < len
      invariant 0 <= at <= len && at <= |old(s.incoming)|
      invariant buf[..at] == old(s.incoming)[..at] && s.incoming == old(s.incoming)[at..]
      invariant old(s.failed) ==> s.failed
      decreases len - at, s.stalls
    {
      var chunk := if len - at > CHUNK then CHUNK else len - at;
      var r := s.Recv(buf, at, chunk);
      match r {
        case Moved(n) =>
          assert buf[..at + n] == old(s.incoming)[..at + n];
          at := at + n;
        case Closed => return false;
        case Broken => return false;
        case WouldBlock =>
          assert buf[..at] == buf[..][..at];
          ok := s.Wait();
          if !ok {
            return false;
          }
      }
    }
    ok := true;
  }

  // ---- Messages ---------------------------------------------------------------------------

  datatype Message = Message(ty: byte, sid: u32, payload: seq<byte>)

  function HeaderFor(m: Message): Header
    requires |m.payload| < U32_MOD
  {
    Header(MAGIC, VERSION, m.ty, 0, m.sid, |m.payload|)
  }

  function FrameBytes(m: Message): seq<byte>
    requires |m.payload| < U32_MOD
  {
    HeaderBytes(HeaderFor(m)) + m.payload
  }

  method SendMsg(s: Socket, m: Message) returns (ok: bool)
    requires |m.payload| < U32_MOD
    modifies s`outgoing, s`failed, s`stalls
    ensures ok ==> ValidType(m.ty) && s.outgoing == old(s.outgoing) + FrameBytes(m)
    ensures !ok ==> !ValidType(m.ty) || s.failed || s.stalls < old(s.stalls)
    ensures s.stalls <= old(s.stalls)
    ensures !ValidType(m.ty) ==> s.outgoing == old(s.outgoing)
    ensures old(s.outgoing) <= s.outgoing <= old(s.outgoing) + FrameBytes(m)
  {
    var raw := new byte[HDR_SIZE];
    var rc := EncodeHeader(raw, HeaderFor(m));
    if rc != Ok {
      return false;
    }
    ok := SendAll(s, raw[..]);
    if !ok {
      return;
    }
    if |m.payload| > 0 {
      ok := SendAll(s, m.payload);
    }
    assert ok ==> s.outgoing == old(s.outgoing) + FrameBytes(m);
  }

  /** The writer thread's form. */
  method SendMsgTimeout(s: Socket, m: Message) returns (ok: bool)
    requires |m.payload| < U32_MOD
    modifies s`outgoing, s`failed, s`stalls
    ensures ok ==> ValidType(m.ty) && s.outgoing == old(s.outgoing) + FrameBytes(m)
    ensures !ok ==> !ValidType(m.ty) || s.failed
    ensures !ValidType(m.ty) ==> s.outgoing == old(s.outgoing)
    ensures old(s.outgoing) <= s.outgoing <= old(s.outgoing) + FrameBytes(m)
  {
    var raw := new byte[HDR_SIZE];
    var rc := EncodeHeader(raw, HeaderFor(m));
    if rc != Ok {
      return false;
    }
    ok := SendAllTimeout(s, raw[..]);
    if !ok {
      return;
    }
    if |m.payload| > 0 {
      ok := SendAllTimeout(s, m.payload);
    }
    assert ok ==> s.outgoing == old(s.outgoing) + FrameBytes(m);
  }

  /** What the front of a byte stream is to a reader with room for cap payload bytes. */
  datatype Parsed = Whole(h: Header, payload: seq<byte>, rest: seq<byte>) | Short | BadHeader | TooLarge | NoRoom

  function Parse(s: seq<byte>, cap: nat): Parsed {
    if |s| < HDR_SIZE then Short
    else
      var h := HeaderOf(s);
      if Check(h) != Ok then BadHeader
      else if !LengthAllowed(h.ty, h.length, DEFAULT_MTU) then TooLarge
      else if h.length > cap then NoRoom
      else if |s| < HDR_SIZE + h.length then Short
      else Whole(h, s[HDR_SIZE..HDR_SIZE + h.length], s[HDR_SIZE + h.length..])
  }

  /** Reads one message; always holds payloads to the default MTU. */
  method RecvMsg(s: Socket, payload: array<byte>) returns (ok: bool, h: Header, len: nat)
    modifies s`incoming, s`failed, s`stalls, payload
    ensures len <= payload.Length
    ensures ok ==> Parse(old(s.incoming), payload.Length) == Whole(h, payload[..len], s.incoming)
    ensures !ok ==> s.failed || !Parse(old(s.incoming), payload.Length).Whole?
    ensures old(s.failed) ==> s.failed
  {
    h, len := Header(0, 0, 0, 0, 0, 0), 0;
    var raw := new byte[HDR_SIZE];
    ok := RecvAll(s, raw, HDR_SIZE);
    if !ok {
      return;
    }
    ghost var all := old(s.incoming);
    assert raw[..] == all[..HDR_SIZE];
    HeaderPrefix(all);
    var rc;
    h, rc := DecodeHeader(raw);
    if rc != Ok || !LengthAllowed(h.ty, h.length, DEFAULT_MTU) || h.length > payload.Length {
      return false, h, 0;
    }
    ok := RecvAll(s, payload, h.length);
    if ok {
      len := h.length;
      assert all[HDR_SIZE..][..len] == all[HDR_SIZE..HDR_SIZE + len];
      assert all[HDR_SIZE..][len..] == all[HDR_SIZE + len..];
    }
  }

  lemma HeaderPrefix(s: seq<byte>)
    requires |s| >= HDR_SIZE
    ensures HeaderOf(s[..HDR_SIZE]) == HeaderOf(s)
  {
  }

  /** A message every reader with room for cap bytes takes. */
  predicate Sendable(m: Message, cap: nat) {
    |m.payload| < U32_MOD && |m.payload| <= cap && LengthAllowed(m.ty, |m.payload|, DEFAULT_MTU)
  }

  predicate AllSendable(ms: seq<Message>, cap: nat) {
    forall i | 0 <= i < |ms| :: Sendable(ms[i], cap)
  }

  function StreamBytes(ms: seq<Message>, cap: nat): seq<byte>
    requires AllSendable(ms, cap)
  {
    if ms == [] then [] else FrameBytes(ms[0]) + StreamBytes(ms[1..], cap)
  }

  lemma ParseFrame(m: Message, rest: seq<byte>, cap: nat)
    requires |m.payload| < U32_MOD
    ensures ValidType(m.ty) && LengthAllowed(m.ty, |m.payload|, DEFAULT_MTU) && |m.payload| <= cap
            <==> Parse(FrameBytes(m) + rest, cap) == Whole(HeaderFor(m), m.payload, rest)
  {
    var s := FrameBytes(m) + rest;
    assert s == HeaderBytes(HeaderFor(m)) + (m.payload + rest);
    HeaderRoundTrip(HeaderFor(m), m.payload + rest);
    assert s[HDR_SIZE..] == m.payload + rest;
    assert s[HDR_SIZE..HDR_SIZE + |m.payload|] == m.payload && s[HDR_SIZE + |m.payload|..] == rest;
  }

  /** Repeated reading: n messages and what is left, if the stream starts with n messages. */
  function ParseN(s: seq<byte>, cap: nat, n: nat): Option<(seq<Message>, seq<byte>)> {
    if n == 0 then Some(([], s))
    else
      match Parse(s, cap)
      case Whole(h, payload, rest) => Prepend(Message(h.ty, h.sid, payload), ParseN(rest, cap, n - 1))
      case _ => None
  }

  function Prepend(m: Message, r: Option<(seq<Message>, seq<byte>)>): Option<(seq<Message>, seq<byte>)> {
    match r
    case Some((ms, end)) => Some(([m] + ms, end))
    case None => None
  }

  /** Framing round trip: reading back the concatenation of any list of allowed messages gives that list. */
  lemma {:induction false} FramingRoundTrip(ms: seq<Message>, rest: seq<byte>, cap: nat)
    requires AllSendable(ms, cap)
    ensures ParseN(StreamBytes(ms, cap) + rest, cap, |ms|) == Some((ms, rest))
  {
    if ms == [] {
      assert StreamBytes(ms, cap) + rest == rest;
    } else {
      var tail := StreamBytes(ms[1..], cap) + rest;
      assert StreamBytes(ms, cap) + rest == FrameBytes(ms[0]) + tail;
      ParseFrame(ms[0], tail, cap);
      FramingRoundTrip(ms[1..], rest, cap);
      assert [ms[0]] + ms[1..] == ms;
    }
  }

  lemma ParseNStep(s: seq<byte>, cap: nat, n: nat)
    requires n > 0
    ensures !Parse(s, cap).Whole? ==> ParseN(s, cap, n) == None
    ensures Parse(s, cap).Whole? ==>
              var Whole(h, payload, rest) := Parse(s, cap);
              ParseN(s, cap, n) == Prepend(Message(h.ty, h.sid, payload), ParseN(rest, cap, n - 1))
  {
  }

  /** Reads the first of n messages. */
  method RecvFirst(s: Socket, payload: array<byte>, ghost n: nat) returns (ok: bool, m: Message)
    requires n > 0
    modifies s`incoming, s`failed, s`stalls, payload
    ensures ok ==> ParseN(old(s.incoming), payload.Length, n) == Prepend(m, ParseN(s.incoming, payload.Length, n - 1))
    ensures !ok ==> s.failed || ParseN(old(s.incoming), payload.Length, n) == None
    ensures old(s.failed) ==> s.failed
  {
    ParseNStep(s.incoming, payload.Length, n);
    var h, len;
    ok, h, len := RecvMsg(s, payload);
    m := Message(h.ty, h.sid, payload[..len]);
  }

  /** Reads n messages, whatever pieces the stream comes in. */
  method RecvMessages(s: Socket, payload: array<byte>, n: nat) returns (ok: bool, got: seq<Message>)
    modifies s`incoming, s`failed, s`stalls, payload
    ensures ok ==> ParseN(old(s.incoming), payload.Length, n) == Some((got, s.incoming))
    ensures !ok ==> s.failed || ParseN(old(s.incoming), payload.Length, n) == None
    ensures old(s.failed) ==> s.failed
  {
    if n == 0 {
      return true, [];
    }
    var m, tail;
    ok, m := RecvFirst(s, payload, n);
    if !ok {
      return false, [];
    }
    ok, tail := RecvMessages(s, payload, n - 1);
    got := [m] + tail;
  }

  /** Sends the first of a list of messages. */
  method SendFirst(s: Socket, ms: seq<Message>, cap: nat) returns (ok: bool)
    requires ms != [] && AllSendable(ms, cap)
    modifies s`outgoing, s`failed, s`stalls
    ensures ok ==> s.outgoing + StreamBytes(ms[1..], cap) == old(s.outgoing) + StreamBytes(ms, cap)
    ensures !ok ==> s.failed || s.stalls < old(s.stalls)
    ensures s.stalls <= old(s.stalls)
  {
    ghost var before := s.outgoing;
    ok := SendMsg(s, ms[0]);
    assert before + FrameBytes(ms[0]) + StreamBytes(ms[1..], cap) == before + (FrameBytes(ms[0]) + StreamBytes(ms[1..], cap));
  }

  /** Sends messages one after another. */
  method SendMessages(s: Socket, ms: seq<Message>, cap: nat) returns (ok: bool)
    requires AllSendable(ms, cap)
    modifies s`outgoing, s`failed, s`stalls
    ensures ok ==> s.outgoing == old(s.outgoing) + StreamBytes(ms, cap)
    ensures !ok ==> s.failed || s.stalls < old(s.stalls)
    ensures s.stalls <= old(s.stalls)
  {
    if ms == [] {
      return true;
    }
    ok := SendFirst(s, ms, cap);
    if ok {
      ok := SendMessages(s, ms[1..], cap);
    }
  }

  /** End to end: messages sent on one socket arrive, over a stream that keeps the order of its bytes, as the
      same list in the same order, whatever pieces they are written and read in; only an I/O error or a
      sender that would block stops them. */
  method Exchange(from: Socket, to: Socket, payload: array<byte>, ms: seq<Message>) returns (ok: bool, got: seq<Message>)
    requires from != to && AllSendable(ms, payload.Length)
    modifies from, to, payload
    ensures ok ==> got == ms && to.incoming == []
    ensures !ok ==> from.failed || from.stalls < old(from.stalls) || to.failed
  {
    got := [];
    var sent := |from.outgoing|;
    ok := SendMessages(from, ms, payload.Length);
    if ok {
      to.incoming := from.outgoing[sent..];
      assert to.incoming == StreamBytes(ms, payload.Length) == StreamBytes(ms, payload.Length) + [];
      FramingRoundTrip(ms, [], payload.Length);
      ok, got := RecvMessages(to, payload, |ms|);
    }
  }

  /** A TAP frame message gets through if and only if its payload is at most 1432 bytes, because the
      reader always applies the default MTU ... */
  lemma TapFrameGetsThrough(m: Message, rest: seq<byte>, cap: nat)
    requires m.ty == MSG_TAP_FRAME && |m.payload| <= cap && |m.payload| < U32_MOD
    ensures Parse(FrameBytes(m) + rest, cap).Whole? <==> |m.payload| <= 1432
  {
    ParseFrame(m, rest, cap);
    var s := FrameBytes(m) + rest;
    assert s == HeaderBytes(HeaderFor(m)) + (m.payload + rest);
    HeaderRoundTrip(HeaderFor(m), m.payload + rest);
  }

  /** ... so a payload that a legal MTU of 1500 allows can be refused. */
  lemma LargeMtuRefused()
    ensures LengthAllowed(MSG_TAP_FRAME, 1520, 1500)
    ensures forall payload: seq<byte> | |payload| == 1520 ::
              !Parse(FrameBytes(Message(MSG_TAP_FRAME, 1, payload)), MAX_CONTROL).Whole?
  {
    forall payload: seq<byte> | |payload| == 1520
      ensures !Parse(FrameBytes(Message(MSG_TAP_FRAME, 1, payload)), MAX_CONTROL).Whole?
    {
      var m := Message(MSG_TAP_FRAME, 1, payload);
      assert FrameBytes(m) + [] == FrameBytes(m);
      TapFrameGetsThrough(m, [], MAX_CONTROL);
    }
  }
}
