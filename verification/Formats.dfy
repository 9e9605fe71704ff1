/** The wire formats in offsets and numbers, for a reader of a protocol dump. */
module Formats {
  import opened Bytes
  import opened Proto
  import opened Net
  import opened Wire
  import opened ConfigPush

  /** The number that bytes spell, most significant first. */
  function Number(s: seq<byte>): nat {
    if s == [] then 0 else Number(s[..|s| - 1]) * 256 + s[|s| - 1]
  }

  lemma NumberOf16(v: u16)
    ensures Number(Be16(v)) == v
  {
    var s := Be16(v);
    assert s[..1][..0] == [] && Number(s[..1]) == s[0];
  }

  lemma NumberOf32(v: u32)
    ensures Number(Be32(v)) == v
  {
    var s := Be32(v);
    assert s[..3] == [s[0], s[1], s[2]] && s[..3][..2] == [s[0], s[1]] && s[..3][..2][..1] == [s[0]];
    assert s[..3][..2][..1][..0] == [];
    assert Number(s[..3][..2][..1]) == s[0];
    assert Number(s[..3][..2]) == Number([s[0]]) * 256 + s[1];
    assert Number(s[..3]) == Number([s[0], s[1]]) * 256 + s[2];
  }

  /** A number of two or four bytes at an offset. */
  predicate NumberAt(b: seq<byte>, at: nat, size: nat, v: nat) {
    at + size <= |b| && Number(b[at..at + size]) == v
  }

  /** A text at an offset, after its length in two bytes. */
  predicate TextAt(b: seq<byte>, at: nat, text: seq<byte>) {
    NumberAt(b, at, 2, |text|) && at + 2 + |text| <= |b| && b[at + 2..at + 2 + |text|] == text
  }

  lemma At16(b: seq<byte>, before: seq<byte>, v: u16, rest: seq<byte>)
    requires b == before + Be16(v) + rest
    ensures NumberAt(b, |before|, 2, v)
  {
    NumberOf16(v);
    assert b[|before|..|before| + 2] == Be16(v);
  }

  lemma At32(b: seq<byte>, before: seq<byte>, v: u32, rest: seq<byte>)
    requires b == before + Be32(v) + rest
    ensures NumberAt(b, |before|, 4, v)
  {
    NumberOf32(v);
    assert b[|before|..|before| + 4] == Be32(v);
  }

  lemma AtText(b: seq<byte>, before: seq<byte>, text: seq<byte>, rest: seq<byte>)
    requires |text| < 0x1_0000 && b == before + Str(text) + rest
    ensures TextAt(b, |before|, text)
  {
    assert b == before + Be16(|text|) + (text + rest);
    At16(b, before, |text|, text + rest);
    assert b[|before| + 2..|before| + 2 + |text|] == text;
  }

  // ---- The message header ------------------------------------------------------------------------

  /** Types 1 to 14 are valid; TAP frames (7) may be as long as the MTU plus 32 bytes, SOCKS messages (12 to
      14) 16384 and the others 65536; an MTU outside 576..1500 counts as 1400. */
  lemma TypesAndLengths(ty: byte, length: u32, mtu: u16)
    ensures ValidType(ty) <==> 1 <= ty <= 14
    ensures LengthAllowed(ty, length, mtu) <==>
              && 1 <= ty <= 14
              && length <= if ty == 7 then (if 576 <= mtu <= 1500 then mtu else 1400) + 32
                           else if 12 <= ty then 16384 else 65536
  {
  }

  /** Sixteen bytes: magic "NTAP", version 1, type, flags, session and length; the first wrong field is named. */
  lemma HeaderLayout(h: Header)
    ensures var b := HeaderBytes(h);
            && |b| == 16 && NumberAt(b, 0, 4, h.magic) && b[4] == h.version && b[5] == h.ty
            && NumberAt(b, 6, 2, h.flags) && NumberAt(b, 8, 4, h.sid) && NumberAt(b, 12, 4, h.length)
    ensures Check(h) == if h.magic != 0x4e544150 then BadMagic else if h.version != 1 then BadVersion
                        else if h.ty < 1 || h.ty > 14 then BadType else Ok
  {
    var b := HeaderBytes(h);
    At32(b, [], h.magic, b[4..]);
    assert b == b[..6] + Be16(h.flags) + b[8..];
    At16(b, b[..6], h.flags, b[8..]);
    At32(b, b[..8], h.sid, b[12..]);
    At32(b, b[..12], h.length, []);
  }

  /** What a message starts with on the wire. */
  lemma FrameLayout(m: Message)
    requires |m.payload| < 0x1_0000_0000
    ensures var b := FrameBytes(m);
            && |b| == 16 + |m.payload| && b[..6] == [0x4e, 0x54, 0x41, 0x50, 1, m.ty] && b[6..8] == [0, 0]
            && NumberAt(b, 8, 4, m.sid) && NumberAt(b, 12, 4, |m.payload|) && b[16..] == m.payload
  {
    var h, b := HeaderFor(m), FrameBytes(m);
    assert b == b[..8] + Be32(h.sid) + b[12..];
    At32(b, b[..8], h.sid, b[12..]);
    At32(b, b[..12], h.length, m.payload);
  }

  /** A payload of a type's numbers. */
  predicate InNumbers(m: Message, cap: nat) {
    && 1 <= m.ty <= 14 && |m.payload| <= cap
    && |m.payload| <= if m.ty == 7 then 1432 else if 12 <= m.ty then 16384 else 65536
  }

  /** The framing round trip for every list of messages of types 1 to 14 and lengths up to 1432 for TAP frames,
      16384 for SOCKS messages and 65536 for the others. */
  lemma FramingInNumbers(ms: seq<Message>, rest: seq<byte>, cap: nat)
    requires forall i | 0 <= i < |ms| :: InNumbers(ms[i], cap)
    ensures AllSendable(ms, cap) && ParseN(StreamBytes(ms, cap) + rest, cap, |ms|) == Some((ms, rest))
  {
    forall i | 0 <= i < |ms| ensures Sendable(ms[i], cap) {
      TypesAndLengths(ms[i].ty, |ms[i].payload|, 1400);
    }
    FramingRoundTrip(ms, rest, cap);
  }

  /** ... and what is sent is exactly the messages of those types. */
  lemma SentInNumbers(m: Message, rest: seq<byte>, cap: nat)
    requires |m.payload| < 0x1_0000_0000
    ensures Parse(FrameBytes(m) + rest, cap) == Whole(HeaderFor(m), m.payload, rest) <==> InNumbers(m, cap)
  {
    TypesAndLengths(m.ty, |m.payload|, 1400);
    ParseFrame(m, rest, cap);
  }

  /** Every in-range HELLO (1), AUTH_NODE (2), AUTH_TAP (3) and SOCKS_OPEN (12) gets through, as it was. */
  lemma OpeningMessagesGetThrough(hello: Hello, node: AuthNode, tap: AuthTap, open: SocksOpen, sid: u32, rest: seq<byte>)
    requires |hello.version| < 64 && |node.nodeId| < 128 && |tap.username| < 512 && |tap.password| < 512
    requires open.stream != 0 && 0 < |open.host| < 256 && open.host[0] != 0 && open.port != 0
    ensures GetsThrough(Message(1, sid, HelloBytes(hello)), rest) && HelloOf(HelloBytes(hello)) == Some(hello)
    ensures GetsThrough(Message(2, sid, AuthNodeBytes(node)), rest) && AuthNodeOf(AuthNodeBytes(node)) == Some(node)
    ensures GetsThrough(Message(3, sid, AuthTapBytes(tap)), rest) && AuthTapOf(AuthTapBytes(tap)) == Some(tap)
    ensures GetsThrough(Message(12, sid, SocksOpenBytes(open)), rest) && SocksOpenOf(SocksOpenBytes(open)) == Some(open)
  {
    HelloGetsThrough(hello, sid, rest);
    AuthNodeGetsThrough(node, sid, rest);
    AuthTapGetsThrough(tap, sid, rest);
    SocksOpenGetsThrough(open, sid, rest);
  }

  lemma HelloGetsThrough(x: Hello, sid: u32, rest: seq<byte>)
    requires |x.version| < 64
    ensures GetsThrough(Message(1, sid, HelloBytes(x)), rest) && HelloOf(HelloBytes(x)) == Some(x)
  {
    SentInNumbers(Message(1, sid, HelloBytes(x)), rest, 65536);
    HelloExact(HelloBytes(x), x);
  }

  lemma AuthNodeGetsThrough(x: AuthNode, sid: u32, rest: seq<byte>)
    requires |x.nodeId| < 128
    ensures GetsThrough(Message(2, sid, AuthNodeBytes(x)), rest) && AuthNodeOf(AuthNodeBytes(x)) == Some(x)
  {
    SentInNumbers(Message(2, sid, AuthNodeBytes(x)), rest, 65536);
    AuthNodeExact(AuthNodeBytes(x), x);
  }

  lemma AuthTapGetsThrough(x: AuthTap, sid: u32, rest: seq<byte>)
    requires |x.username| < 512 && |x.password| < 512
    ensures GetsThrough(Message(3, sid, AuthTapBytes(x)), rest) && AuthTapOf(AuthTapBytes(x)) == Some(x)
  {
    SentInNumbers(Message(3, sid, AuthTapBytes(x)), rest, 65536);
    AuthTapExact(AuthTapBytes(x), x);
  }

  lemma SocksOpenGetsThrough(x: SocksOpen, sid: u32, rest: seq<byte>)
    requires x.stream != 0 && 0 < |x.host| < 256 && x.host[0] != 0 && x.port != 0
    ensures GetsThrough(Message(12, sid, SocksOpenBytes(x)), rest) && SocksOpenOf(SocksOpenBytes(x)) == Some(x)
  {
    SentInNumbers(Message(12, sid, SocksOpenBytes(x)), rest, 65536);
    SocksOpenExact(SocksOpenBytes(x), x);
  }

  /** A reader with room for 65536 bytes takes the message whole. */
  predicate GetsThrough(m: Message, rest: seq<byte>)
    requires |m.payload| < 0x1_0000_0000
  {
    Parse(FrameBytes(m) + rest, 65536) == Whole(HeaderFor(m), m.payload, rest)
  }

  // ---- The payloads --------------------------------------------------------------------------------

  /** HELLO: role, version text, features, nonce. */
  lemma HelloLayout(x: Hello)
    requires |x.version| < 0x1_0000
    ensures var b, n := HelloBytes(x), |x.version|;
            |b| == 23 + n && b[0] == x.role && TextAt(b, 1, x.version) && NumberAt(b, 3 + n, 4, x.features) && b[7 + n..] == x.nonce
    ensures HelloOf(HelloBytes(x)) == Some(x) <==> |x.version| < 64
  {
    var b, n := HelloBytes(x), |x.version|;
    AtText(b, [x.role], x.version, Be32(x.features) + x.nonce);
    At32(b, [x.role] + Str(x.version), x.features, x.nonce);
    HelloExact(b, x);
  }

  /** AUTH_NODE: node id, nonce, signature. */
  lemma AuthNodeLayout(x: AuthNode)
    requires |x.nodeId| < 0x1_0000
    ensures var b, n := AuthNodeBytes(x), |x.nodeId|;
            |b| == 50 + n && TextAt(b, 0, x.nodeId) && b[2 + n..18 + n] == x.nonce && b[18 + n..] == x.sign
    ensures AuthNodeOf(AuthNodeBytes(x)) == Some(x) <==> |x.nodeId| < 128
  {
    var b := AuthNodeBytes(x);
    assert b == [] + Str(x.nodeId) + (x.nonce + x.sign);
    AtText(b, [], x.nodeId, x.nonce + x.sign);
    AuthNodeExact(b, x);
  }

  /** AUTH_TAP: user name, password, network, nonce. */
  lemma AuthTapLayout(x: AuthTap)
    requires |x.username| < 0x1_0000 && |x.password| < 0x1_0000
    ensures var b, m, n := AuthTapBytes(x), |x.username|, |x.password|;
            && |b| == 24 + m + n && TextAt(b, 0, x.username) && TextAt(b, 2 + m, x.password)
            && NumberAt(b, 4 + m + n, 4, x.net) && b[8 + m + n..] == x.nonce
    ensures AuthTapOf(AuthTapBytes(x)) == Some(x) <==> |x.username| < 512 && |x.password| < 512
  {
    var b, user, password, net := AuthTapBytes(x), Str(x.username), Str(x.password), Be32(x.net);
    Four(user, password, net, x.nonce);
    AtText(b, [], x.username, password + net + x.nonce);
    AtText(b, user, x.password, net + x.nonce);
    At32(b, user + password, x.net, x.nonce);
    AuthTapExact(b, x);
  }

  lemma Four(a: seq<byte>, b: seq<byte>, c: seq<byte>, d: seq<byte>)
    ensures var s := a + b + c + d; s == [] + a + (b + c + d) && s == a + b + (c + d)
  {
  }

  /** TAP_FRAME: network, frame of at least 14 bytes. */
  lemma TapFrameLayout(x: TapFrame)
    requires |x.frame| < 0x1_0000
    ensures var b := TapFrameBytes(x);
            |b| == 6 + |x.frame| && NumberAt(b, 0, 4, x.net) && TextAt(b, 4, x.frame)
    ensures TapFrameOf(TapFrameBytes(x)) == Some(x) <==> |x.frame| >= 14
  {
    var b := TapFrameBytes(x);
    assert b == [] + Be32(x.net) + Str(x.frame);
    At32(b, [], x.net, Str(x.frame));
    assert b == Be32(x.net) + Str(x.frame) + [];
    AtText(b, Be32(x.net), x.frame, []);
    TapFrameExact(b, x);
  }

  /** SOCKS_OPEN: stream, host, port. */
  lemma SocksOpenLayout(x: SocksOpen)
    requires |x.host| < 0x1_0000
    ensures var b, n := SocksOpenBytes(x), |x.host|;
            |b| == 8 + n && NumberAt(b, 0, 4, x.stream) && TextAt(b, 4, x.host) && NumberAt(b, 6 + n, 2, x.port)
    ensures SocksOpenOf(SocksOpenBytes(x)) == Some(x) <==>
              x.stream != 0 && 0 < |x.host| < 256 && x.host[0] != 0 && x.port != 0
  {
    var b := SocksOpenBytes(x);
    assert b == [] + Be32(x.stream) + (Str(x.host) + Be16(x.port));
    At32(b, [], x.stream, Str(x.host) + Be16(x.port));
    AtText(b, Be32(x.stream), x.host, Be16(x.port));
    assert b == Be32(x.stream) + Str(x.host) + Be16(x.port) + [];
    At16(b, Be32(x.stream) + Str(x.host), x.port, []);
    SocksOpenExact(b, x);
  }

  /** SOCKS_CLOSE: stream, reason, flags; a bare stream means reason 2, the remote side closed. */
  lemma SocksCloseLayout(x: SocksClose)
    ensures var b := SocksCloseBytes(x);
            |b| == 8 && NumberAt(b, 0, 4, x.stream) && NumberAt(b, 4, 2, x.reason) && NumberAt(b, 6, 2, x.flags)
    ensures x.stream != 0 ==> SocksCloseOf(SocksCloseBytes(x)) == Some(x)
    ensures x.stream != 0 ==> SocksCloseOf(Be32(x.stream)) == Some(SocksClose(x.stream, 2, 0))
  {
    var b := SocksCloseBytes(x);
    assert b == [] + Be32(x.stream) + (Be16(x.reason) + Be16(x.flags));
    At32(b, [], x.stream, Be16(x.reason) + Be16(x.flags));
    At16(b, Be32(x.stream), x.reason, Be16(x.flags));
    assert b == Be32(x.stream) + Be16(x.reason) + Be16(x.flags) + [];
    At16(b, Be32(x.stream) + Be16(x.reason), x.flags, []);
    SocksCloseExact(b, x);
    SocksCloseExact(Be32(x.stream), SocksClose(x.stream, 2, 0));
  }

  /** CONFIG_PUSH: version, network, three switches, network device names, MTU, port, flags, direct texts. */
  lemma ConfigLayout(x: Config)
    requires Encodable(x)
    ensures var b, m, n := FullBytes(x), |x.tapName|, |x.bridge|;
            && NumberAt(b, 0, 4, x.version) && NumberAt(b, 4, 4, x.net) && b[8..11] == [x.tap, x.socks, x.direct]
            && TextAt(b, 11, x.tapName) && TextAt(b, 13 + m, x.bridge)
            && NumberAt(b, 15 + m + n, 2, x.mtu) && NumberAt(b, 17 + m + n, 2, x.port) && NumberAt(b, 19 + m + n, 4, x.flags)
            && TextAt(b, 23 + m + n, x.mode) && TextAt(b, 25 + m + n + |x.mode|, x.addr)
            && TextAt(b, 27 + m + n + |x.mode| + |x.addr|, x.token)
            && |b| == 29 + m + n + |x.mode| + |x.addr| + |x.token|
  {
    ConfigFront(x);
    ConfigNumbers(x);
    ConfigTexts(x);
    Flat(x);
  }

  lemma ConfigFront(x: Config)
    requires Encodable(x)
    ensures var b := FullBytes(x);
            && NumberAt(b, 0, 4, x.version) && NumberAt(b, 4, 4, x.net) && |b| >= 11 && b[8..11] == [x.tap, x.socks, x.direct]
            && TextAt(b, 11, x.tapName) && TextAt(b, 13 + |x.tapName|, x.bridge)
  {
    Flat(x);
    var b, head, name, bridge := FullBytes(x), Head(x), Str(x.tapName), Str(x.bridge);
    var tail := Middle(x) + Str(x.mode) + Str(x.addr) + Str(x.token);
    Three(head, name, bridge, Middle(x), Str(x.mode), Str(x.addr), Str(x.token));
    HeadAt(x, name + bridge + tail);
    AtText(b, head, x.tapName, bridge + tail);
    AtText(b, head + name, x.bridge, tail);
  }

  /** One concatenation, bracketed as each field needs it. */
  lemma Three(a: seq<byte>, b: seq<byte>, c: seq<byte>, d: seq<byte>, e: seq<byte>, f: seq<byte>, g: seq<byte>)
    ensures var s := a + b + c + d + e + f + g;
            && s == a + (b + c + (d + e + f + g)) && s == a + b + (c + (d + e + f + g)) && s == a + b + c + (d + e + f + g)
            && s == a + b + c + d + e + (f + g) && s == a + b + c + d + e + f + g + [] && s == a + b + c + d + (e + f + g)
  {
  }

  lemma HeadAt(x: Config, rest: seq<byte>)
    ensures var b := Head(x) + rest;
            NumberAt(b, 0, 4, x.version) && NumberAt(b, 4, 4, x.net) && |b| >= 11 && b[8..11] == [x.tap, x.socks, x.direct]
  {
    var b := Head(x) + rest;
    assert b == [] + Be32(x.version) + b[4..];
    At32(b, [], x.version, b[4..]);
    assert b == Be32(x.version) + Be32(x.net) + b[8..];
    At32(b, Be32(x.version), x.net, b[8..]);
  }

  lemma MiddleAt(before: seq<byte>, x: Config, rest: seq<byte>)
    ensures var b, k := before + Middle(x) + rest, |before|;
            NumberAt(b, k, 2, x.mtu) && NumberAt(b, k + 2, 2, x.port) && NumberAt(b, k + 4, 4, x.flags)
  {
    var b, mtu, port, flags := before + Middle(x) + rest, Be16(x.mtu), Be16(x.port), Be32(x.flags);
    Pair(before, mtu, port, flags, rest);
    At16(b, before, x.mtu, port + flags + rest);
    At16(b, before + mtu, x.port, flags + rest);
    At32(b, before + mtu + port, x.flags, rest);
  }

  lemma Pair(a: seq<byte>, b: seq<byte>, c: seq<byte>, d: seq<byte>, e: seq<byte>)
    ensures var s := a + (b + c + d) + e;
            s == a + b + (c + d + e) && s == a + b + c + (d + e) && s == a + b + c + d + e
  {
  }

  /** Three texts in a row, from an offset on. */
  lemma TextsAt(before: seq<byte>, p: seq<byte>, q: seq<byte>, r: seq<byte>)
    requires |p| < 0x1_0000 && |q| < 0x1_0000 && |r| < 0x1_0000
    ensures var b, k := before + Str(p) + Str(q) + Str(r), |before|;
            TextAt(b, k, p) && TextAt(b, k + 2 + |p|, q) && TextAt(b, k + 4 + |p| + |q|, r)
  {
    var b := before + Str(p) + Str(q) + Str(r);
    assert b == before + Str(p) + (Str(q) + Str(r));
    AtText(b, before, p, Str(q) + Str(r));
    AtText(b, before + Str(p), q, Str(r));
    assert b == before + Str(p) + Str(q) + Str(r) + [];
    AtText(b, before + Str(p) + Str(q), r, []);
  }

  /** Where the second half starts. */
  lemma Halves(x: Config) returns (front: seq<byte>)
    requires Encodable(x)
    ensures |front| == 15 + |x.tapName| + |x.bridge|
    ensures FullBytes(x) == front + Middle(x) + (Str(x.mode) + Str(x.addr) + Str(x.token))
    ensures FullBytes(x) == front + Middle(x) + Str(x.mode) + Str(x.addr) + Str(x.token)
  {
    Flat(x);
    front := Head(x) + Str(x.tapName) + Str(x.bridge);
    Three(Head(x), Str(x.tapName), Str(x.bridge), Middle(x), Str(x.mode), Str(x.addr), Str(x.token));
  }

  lemma ConfigNumbers(x: Config)
    requires Encodable(x)
    ensures var b, k := FullBytes(x), 15 + |x.tapName| + |x.bridge|;
            NumberAt(b, k, 2, x.mtu) && NumberAt(b, k + 2, 2, x.port) && NumberAt(b, k + 4, 4, x.flags)
  {
    var front := Halves(x);
    MiddleAt(front, x, Str(x.mode) + Str(x.addr) + Str(x.token));
  }

  lemma ConfigTexts(x: Config)
    requires Encodable(x)
    ensures var b, k := FullBytes(x), 23 + |x.tapName| + |x.bridge|;
            && TextAt(b, k, x.mode) && TextAt(b, k + 2 + |x.mode|, x.addr)
            && TextAt(b, k + 4 + |x.mode| + |x.addr|, x.token)
  {
    var front := Halves(x);
    EightMore(front, x);
    TextsAt(front + Middle(x), x.mode, x.addr, x.token);
  }

  lemma EightMore(front: seq<byte>, x: Config)
    ensures |front + Middle(x)| == |front| + 8
  {
  }
}
