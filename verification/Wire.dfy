/** Message payloads: what the encoders write, what the decoders accept, and when each undoes the other.
    A decoder's result holds the raw bytes of a string field; C code reads such a field up to its first
    NUL, and so do the encoders. */
module Wire {
  import opened Bytes
  import opened Proto

  const NONCE_SIZE := 16
  const HMAC_SIZE := 32
  const VERSION_TEXT_MAX := 64
  const NODE_ID_MAX := 128
  const VALUE_MAX := 512
  const HOST_MAX := 256
  const TOKEN_MAX := 1024

  type Nonce = s: seq<byte> | |s| == 16 witness seq(16, _ => 0)
  type Hmac = s: seq<byte> | |s| == 32 witness seq(32, _ => 0)

  datatype Hello = Hello(role: byte, version: seq<byte>, features: u32, nonce: Nonce)
  datatype AuthNode = AuthNode(nodeId: seq<byte>, nonce: Nonce, sign: Hmac)
  datatype AuthTap = AuthTap(username: seq<byte>, password: seq<byte>, net: u32, nonce: Nonce)
  datatype TapFrame = TapFrame(net: u32, frame: seq<byte>)
  datatype SocksOpen = SocksOpen(stream: u32, host: seq<byte>, port: u16)
  datatype SocksClose = SocksClose(stream: u32, reason: u16, flags: u16)

  // ---- Strings ------------------------------------------------------------------------------

  function Str(s: seq<byte>): seq<byte>
    requires |s| < 0x1_0000
  {
    Be16(|s|) + s
  }

  /** A length-prefixed string at the front of p, if it is whole and leaves room for a terminator. */
  function TakeStr(p: seq<byte>, max: nat): Option<(seq<byte>, seq<byte>)> {
    if |p| < 2 || Get16(p) > |p| - 2 || Get16(p) >= max then None
    else Some((p[2..2 + Get16(p)], p[2 + Get16(p)..]))
  }

  lemma TakeStrOfStr(s: seq<byte>, rest: seq<byte>, max: nat)
    requires |s| < 0x1_0000 && |s| < max
    ensures TakeStr(Str(s) + rest, max) == Some((s, rest))
  {
    var p := Str(s) + rest;
    assert p == Be16(|s|) + (s + rest);
    Get16OfBe16(|s|, s + rest);
    assert p[2..] == s + rest;
    assert p[2..2 + |s|] == s && p[2 + |s|..] == rest;
  }

  lemma StrOfTakeStr(p: seq<byte>, max: nat)
    requires TakeStr(p, max).Some?
    ensures var (s, rest) := TakeStr(p, max).value; |s| < max && |s| < 0x1_0000 && p == Str(s) + rest
  {
    Be16OfGet16(p);
  }

  /** A string field as C reads it: up to the first NUL. */
  function CText(s: seq<byte>): (t: seq<byte>)
    ensures |t| <= |s| && t == s[..|t|] && 0 !in t
    ensures |t| < |s| ==> s[|t|] == 0
  {
    if s == [] || s[0] == 0 then [] else [s[0]] + CText(s[1..])
  }

  lemma CTextIs(s: seq<byte>, n: nat)
    requires n <= |s| && (forall k | 0 <= k < n :: s[k] != 0) && (n < |s| ==> s[n] == 0)
    ensures CText(s) == s[..n]
  {
    var t := CText(s);
    assert forall k | 0 <= k < |t| :: s[k] == t[k] != 0;
    assert |t| == n;
  }

  /** Reading as C text loses nothing exactly when there is no NUL. */
  lemma CTextLoses(s: seq<byte>)
    ensures CText(s) == s <==> 0 !in s
    ensures |CText(s)| == |s| <==> 0 !in s
  {
    if |CText(s)| == |s| {
      assert s[..|s|] == s;
    }
  }

  lemma CTextOnce(s: seq<byte>)
    ensures CText(CText(s)) == CText(s)
  {
    CTextLoses(CText(s));
  }

  // ---- The layouts and their readers ------------------------------------------------------------

  predicate HelloOk(x: Hello) {
    |x.version| < VERSION_TEXT_MAX
  }

  function HelloBytes(x: Hello): seq<byte>
    requires |x.version| < 0x1_0000
  {
    [x.role] + Str(x.version) + Be32(x.features) + x.nonce
  }

  function HelloOf(p: seq<byte>): Option<Hello> {
    if |p| < 1 then None
    else
      match TakeStr(p[1..], VERSION_TEXT_MAX)
      case None => None
      case Some((version, rest)) =>
        if |rest| != 4 + NONCE_SIZE then None else Some(Hello(p[0], version, Get32(rest), rest[4..]))
  }

  /** HELLO: a payload is accepted if and only if it is the encoding of an in-range value, and the
      decoder returns that value. */
  lemma HelloExact(p: seq<byte>, x: Hello)
    ensures HelloOf(p) == Some(x) <==> HelloOk(x) && p == HelloBytes(x)
  {
    if HelloOk(x) && p == HelloBytes(x) {
      var rest := Be32(x.features) + x.nonce;
      assert p[1..] == Str(x.version) + rest;
      TakeStrOfStr(x.version, rest, VERSION_TEXT_MAX);
      Get32OfBe32(x.features, x.nonce);
      assert rest[4..] == x.nonce;
    }
    if HelloOf(p) == Some(x) {
      StrOfTakeStr(p[1..], VERSION_TEXT_MAX);
      var rest := TakeStr(p[1..], VERSION_TEXT_MAX).value.1;
      Be32OfGet32(rest);
      assert rest == rest[..4] + rest[4..];
      assert p == [p[0]] + p[1..];
    }
  }

  /** What C code sees of a HELLO. */
  function HelloView(x: Hello): Hello {
    x.(version := CText(x.version))
  }

  /** An accepted HELLO re-encodes byte for byte if and only if its text holds no NUL. */
  lemma HelloReencodes(p: seq<byte>, x: Hello)
    requires HelloOf(p) == Some(x)
    ensures |HelloView(x).version| < VERSION_TEXT_MAX
    ensures HelloBytes(HelloView(x)) == p <==> 0 !in x.version
  {
    HelloExact(p, x);
    CTextLoses(x.version);
  }

  /** Different payloads that C code cannot tell apart: versions "a" and "a" with a NUL. */
  lemma NulIsLost() returns (p: seq<byte>, q: seq<byte>, x: Hello, y: Hello)
    ensures p != q && HelloOf(p) == Some(x) && HelloOf(q) == Some(y) && HelloView(x) == HelloView(y)
    ensures HelloBytes(HelloView(y)) == p
  {
    var nonce: Nonce := seq(NONCE_SIZE, _ => 0);
    x, y := Hello(1, [97], 0, nonce), Hello(1, [97, 0], 0, nonce);
    p, q := HelloBytes(x), HelloBytes(y);
    HelloExact(p, x);
    HelloExact(q, y);
    assert CText([97]) == [97] && CText([97, 0]) == [97];
  }

  function AuthNodeBytes(x: AuthNode): seq<byte>
    requires |x.nodeId| < 0x1_0000
  {
    Str(x.nodeId) + x.nonce + x.sign
  }

  function AuthNodeOf(p: seq<byte>): Option<AuthNode> {
    match TakeStr(p, NODE_ID_MAX)
    case None => None
    case Some((id, rest)) =>
      if |rest| != NONCE_SIZE + HMAC_SIZE then None else Some(AuthNode(id, rest[..NONCE_SIZE], rest[NONCE_SIZE..]))
  }

  lemma AuthNodeExact(p: seq<byte>, x: AuthNode)
    ensures AuthNodeOf(p) == Some(x) <==> |x.nodeId| < NODE_ID_MAX && p == AuthNodeBytes(x)
  {
    if |x.nodeId| < NODE_ID_MAX && p == AuthNodeBytes(x) {
      assert p == Str(x.nodeId) + (x.nonce + x.sign);
      TakeStrOfStr(x.nodeId, x.nonce + x.sign, NODE_ID_MAX);
      assert (x.nonce + x.sign)[..NONCE_SIZE] == x.nonce;
    }
    if AuthNodeOf(p) == Some(x) {
      StrOfTakeStr(p, NODE_ID_MAX);
    }
  }

  function AuthNodeView(x: AuthNode): AuthNode {
    x.(nodeId := CText(x.nodeId))
  }

  lemma AuthNodeReencodes(p: seq<byte>, x: AuthNode)
    requires AuthNodeOf(p) == Some(x)
    ensures |AuthNodeView(x).nodeId| < NODE_ID_MAX
    ensures AuthNodeBytes(AuthNodeView(x)) == p <==> 0 !in x.nodeId
  {
    AuthNodeExact(p, x);
    CTextLoses(x.nodeId);
  }

  predicate AuthTapOk(x: AuthTap) {
    |x.username| < VALUE_MAX && |x.password| < VALUE_MAX
  }

  function AuthTapBytes(x: AuthTap): seq<byte>
    requires |x.username| < 0x1_0000 && |x.password| < 0x1_0000
  {
    Str(x.username) + Str(x.password) + Be32(x.net) + x.nonce
  }

  function AuthTapOf(p: seq<byte>): Option<AuthTap> {
    match TakeStr(p, VALUE_MAX)
    case None => None
    case Some((user, p1)) =>
      match TakeStr(p1, VALUE_MAX)
      case None => None
      case Some((password, p2)) =>
        if |p2| != 4 + NONCE_SIZE then None else Some(AuthTap(user, password, Get32(p2), p2[4..]))
  }

  lemma AuthTapReads(x: AuthTap)
    requires AuthTapOk(x)
    ensures AuthTapOf(AuthTapBytes(x)) == Some(x)
  {
    var p2 := Be32(x.net) + x.nonce;
    assert AuthTapBytes(x) == Str(x.username) + (Str(x.password) + p2);
    TakeStrOfStr(x.username, Str(x.password) + p2, VALUE_MAX);
    TakeStrOfStr(x.password, p2, VALUE_MAX);
    Get32OfBe32(x.net, x.nonce);
    assert p2[4..] == x.nonce;
  }

  lemma AuthTapExact(p: seq<byte>, x: AuthTap)
    ensures AuthTapOf(p) == Some(x) <==> AuthTapOk(x) && p == AuthTapBytes(x)
  {
    if AuthTapOk(x) && p == AuthTapBytes(x) {
      AuthTapReads(x);
    }
    if AuthTapOf(p) == Some(x) {
      StrOfTakeStr(p, VALUE_MAX);
      var p1 := TakeStr(p, VALUE_MAX).value.1;
      StrOfTakeStr(p1, VALUE_MAX);
      var p2 := TakeStr(p1, VALUE_MAX).value.1;
      Be32OfGet32(p2);
      assert p2 == p2[..4] + p2[4..];
      assert Str(x.username) + (Str(x.password) + (Be32(x.net) + x.nonce)) == AuthTapBytes(x);
    }
  }

  function AuthTapView(x: AuthTap): AuthTap {
    x.(username := CText(x.username), password := CText(x.password))
  }

  lemma AuthTapReencodes(p: seq<byte>, x: AuthTap)
    requires AuthTapOf(p) == Some(x)
    ensures AuthTapOk(AuthTapView(x))
    ensures AuthTapBytes(AuthTapView(x)) == p <==> 0 !in x.username && 0 !in x.password
  {
    AuthTapExact(p, x);
    CTextLoses(x.username);
    CTextLoses(x.password);
  }

  function TapFrameBytes(x: TapFrame): seq<byte>
    requires |x.frame| < 0x1_0000
  {
    Be32(x.net) + Str(x.frame)
  }

  function TapFrameOf(p: seq<byte>): Option<TapFrame> {
    if |p| < 6 then None
    else
      var n := Get16(p[4..]);
      if n < MIN_FRAME || |p| != 6 + n then None else Some(TapFrame(Get32(p), p[6..]))
  }

  lemma TapFrameExact(p: seq<byte>, x: TapFrame)
    ensures TapFrameOf(p) == Some(x) <==> MIN_FRAME <= |x.frame| < 0x1_0000 && p == TapFrameBytes(x)
  {
    if MIN_FRAME <= |x.frame| < 0x1_0000 && p == TapFrameBytes(x) {
      Get32OfBe32(x.net, Str(x.frame));
      assert p[4..] == Be16(|x.frame|) + x.frame;
      Get16OfBe16(|x.frame|, x.frame);
      assert p[6..] == x.frame;
    }
    if TapFrameOf(p) == Some(x) {
      Be32OfGet32(p);
      Be16OfGet16(p[4..]);
      assert p == p[..4] + p[4..][..2] + p[6..];
    }
  }

  predicate SocksOpenOk(x: SocksOpen) {
    x.stream != 0 && 0 < |x.host| < HOST_MAX && x.host[0] != 0 && x.port != 0
  }

  function SocksOpenBytes(x: SocksOpen): seq<byte>
    requires |x.host| < 0x1_0000
  {
    Be32(x.stream) + Str(x.host) + Be16(x.port)
  }

  function SocksOpenOf(p: seq<byte>): Option<SocksOpen> {
    if |p| < 8 then None
    else
      match TakeStr(p[4..], HOST_MAX)
      case None => None
      case Some((host, rest)) =>
        if |rest| != 2 then None
        else
          var x := SocksOpen(Get32(p), host, Get16(rest));
          if x.stream == 0 || host == [] || host[0] == 0 || x.port == 0 then None else Some(x)
  }

  lemma SocksOpenExact(p: seq<byte>, x: SocksOpen)
    ensures SocksOpenOf(p) == Some(x) <==> SocksOpenOk(x) && p == SocksOpenBytes(x)
  {
    if SocksOpenOk(x) && p == SocksOpenBytes(x) {
      Get32OfBe32(x.stream, Str(x.host) + Be16(x.port));
      assert p == Be32(x.stream) + (Str(x.host) + Be16(x.port));
      assert p[4..] == Str(x.host) + Be16(x.port);
      TakeStrOfStr(x.host, Be16(x.port), HOST_MAX);
      Get16OfBe16(x.port, []);
      assert Be16(x.port) + [] == Be16(x.port);
    }
    if SocksOpenOf(p) == Some(x) {
      Be32OfGet32(p);
      StrOfTakeStr(p[4..], HOST_MAX);
      Be16OfGet16(TakeStr(p[4..], HOST_MAX).value.1);
      assert p == p[..4] + p[4..];
    }
  }

  function SocksOpenView(x: SocksOpen): SocksOpen {
    x.(host := CText(x.host))
  }

  lemma SocksOpenReencodes(p: seq<byte>, x: SocksOpen)
    requires SocksOpenOf(p) == Some(x)
    ensures SocksOpenOk(SocksOpenView(x))
    ensures SocksOpenBytes(SocksOpenView(x)) == p <==> 0 !in x.host
  {
    SocksOpenExact(p, x);
    CTextLoses(x.host);
  }

  /** The two close layouts: a bare stream id means "remote closed". */
  function SocksCloseBytes(x: SocksClose): seq<byte> {
    Be32(x.stream) + Be16(x.reason) + Be16(x.flags)
  }

  const REMOTE_CLOSED: u16 := 2

  function SocksCloseOf(p: seq<byte>): Option<SocksClose> {
    if |p| != 4 && |p| != 8 then None
    else if Get32(p) == 0 then None
    else if |p| == 8 then Some(SocksClose(Get32(p), Get16(p[4..]), Get16(p[6..])))
    else Some(SocksClose(Get32(p), REMOTE_CLOSED, 0))
  }

  /** A close is accepted exactly in its full form, or in the short form of a plain remote close. */
  lemma SocksCloseExact(p: seq<byte>, x: SocksClose)
    ensures SocksCloseOf(p) == Some(x) <==>
              x.stream != 0 && (p == SocksCloseBytes(x) || (p == Be32(x.stream) && x.reason == REMOTE_CLOSED && x.flags == 0))
  {
    if p == SocksCloseBytes(x) {
      assert p == Be32(x.stream) + (Be16(x.reason) + Be16(x.flags));
      Get32OfBe32(x.stream, Be16(x.reason) + Be16(x.flags));
      assert p[4..] == Be16(x.reason) + Be16(x.flags);
      Get16OfBe16(x.reason, Be16(x.flags));
      assert p[6..] == Be16(x.flags) + [];
      Get16OfBe16(x.flags, []);
    }
    if p == Be32(x.stream) {
      Get32OfBe32(x.stream, []);
      assert p + [] == p;
    }
    if SocksCloseOf(p) == Some(x) {
      Be32OfGet32(p);
      if |p| == 8 {
        Be16OfGet16(p[4..]);
        Be16OfGet16(p[6..]);
        assert p == p[..4] + p[4..][..2] + p[6..][..2];
      } else {
        assert p == p[..4];
      }
    }
  }

  // ---- No accepted payload is a proper prefix of another ------------------------------------------

  lemma TakeStrExtends(p: seq<byte>, q: seq<byte>, max: nat)
    requires TakeStr(p, max).Some?
    ensures TakeStr(p + q, max) == Some((TakeStr(p, max).value.0, TakeStr(p, max).value.1 + q))
  {
    StrOfTakeStr(p, max);
    var (s, rest) := TakeStr(p, max).value;
    assert p + q == Str(s) + (rest + q);
    TakeStrOfStr(s, rest + q, max);
  }

  lemma HelloPrefixFree(p: seq<byte>, q: seq<byte>)
    requires q != [] && HelloOf(p).Some?
    ensures HelloOf(p + q).None?
  {
    TakeStrExtends(p[1..], q, VERSION_TEXT_MAX);
    assert (p + q)[1..] == p[1..] + q;
  }

  lemma AuthNodePrefixFree(p: seq<byte>, q: seq<byte>)
    requires q != [] && AuthNodeOf(p).Some?
    ensures AuthNodeOf(p + q).None?
  {
    TakeStrExtends(p, q, NODE_ID_MAX);
  }

  lemma AuthTapPrefixFree(p: seq<byte>, q: seq<byte>)
    requires q != [] && AuthTapOf(p).Some?
    ensures AuthTapOf(p + q).None?
  {
    TakeStrExtends(p, q, VALUE_MAX);
    var rest := TakeStr(p, VALUE_MAX).value.1;
    TakeStrExtends(rest, q, VALUE_MAX);
  }

  lemma TapFramePrefixFree(p: seq<byte>, q: seq<byte>)
    requires q != [] && TapFrameOf(p).Some?
    ensures TapFrameOf(p + q).None?
  {
    assert (p + q)[4..] == p[4..] + q;
  }

  lemma SocksOpenPrefixFree(p: seq<byte>, q: seq<byte>)
    requires q != [] && SocksOpenOf(p).Some?
    ensures SocksOpenOf(p + q).None?
  {
    TakeStrExtends(p[4..], q, HOST_MAX);
    assert (p + q)[4..] == p[4..] + q;
  }

  /** HELLO, AUTH_NODE, AUTH_TAP, TAP_FRAME and SOCKS_OPEN: nothing can be added to, or taken off the
      end of, an accepted payload. */
  lemma PrefixFree(p: seq<byte>, q: seq<byte>)
    requires q != []
    ensures HelloOf(p).Some? ==> HelloOf(p + q).None?
    ensures AuthNodeOf(p).Some? ==> AuthNodeOf(p + q).None?
    ensures AuthTapOf(p).Some? ==> AuthTapOf(p + q).None?
    ensures TapFrameOf(p).Some? ==> TapFrameOf(p + q).None?
    ensures SocksOpenOf(p).Some? ==> SocksOpenOf(p + q).None?
  {
    if HelloOf(p).Some? {
      HelloPrefixFree(p, q);
    }
    if AuthNodeOf(p).Some? {
      AuthNodePrefixFree(p, q);
    }
    if AuthTapOf(p).Some? {
      AuthTapPrefixFree(p, q);
    }
    if SocksOpenOf(p).Some? {
      SocksOpenPrefixFree(p, q);
    }
    if TapFrameOf(p).Some? {
      TapFramePrefixFree(p, q);
    }
  }
}
