/** CONFIG_PUSH: its full and legacy layouts, and the message the server builds from a runtime configuration. */
module ConfigPush {
  import opened Bytes
  import opened Buffer
  import opened Wire
  import opened Codec
  import opened Proto
  import opened Net

  const NAME_MAX := 64
  const MODE_MAX := 32
  const ADDR_MAX := 256

  datatype Config = Config(
    version: u32, net: u32, tap: byte, socks: byte, direct: byte, tapName: seq<byte>, bridge: seq<byte>,
    mtu: u16, port: u16, flags: u32, mode: seq<byte>, addr: seq<byte>, token: seq<byte>)

  /** What a receiver takes: a network, a legal MTU, and strings that fit its fields. */
  predicate Acceptable(x: Config) {
    && x.net != 0 && MIN_MTU <= x.mtu <= MAX_MTU
    && |x.tapName| < NAME_MAX && |x.bridge| < NAME_MAX
    && |x.mode| < MODE_MAX && |x.addr| < ADDR_MAX && |x.token| < TOKEN_MAX
  }

  predicate Encodable(x: Config) {
    |x.tapName| < 0x1_0000 && |x.bridge| < 0x1_0000 && |x.mode| < 0x1_0000 && |x.addr| < 0x1_0000 && |x.token| < 0x1_0000
  }

  /** What C code sees of a configuration: its strings up to the first NUL. */
  function View(x: Config): Config {
    x.(tapName := CText(x.tapName), bridge := CText(x.bridge),
       mode := CText(x.mode), addr := CText(x.addr), token := CText(x.token))
  }

  predicate NulFree(x: Config) {
    0 !in x.tapName && 0 !in x.bridge && 0 !in x.mode && 0 !in x.addr && 0 !in x.token
  }

  function Head(x: Config): seq<byte> {
    Be32(x.version) + Be32(x.net) + [x.tap, x.socks, x.direct]
  }

  function Middle(x: Config): seq<byte> {
    Be16(x.mtu) + Be16(x.port) + Be32(x.flags)
  }

  /** The legacy layout, without the direct-connection strings. */
  function ShortBytes(x: Config): seq<byte>
    requires Encodable(x)
  {
    Head(x) + Str(x.tapName) + Str(x.bridge) + Middle(x)
  }

  function DirectBytes(x: Config): seq<byte>
    requires Encodable(x)
  {
    Str(x.mode) + Str(x.addr) + Str(x.token)
  }

  function FullBytes(x: Config): seq<byte>
    requires Encodable(x)
  {
    ShortBytes(x) + DirectBytes(x)
  }

  // ---- Reader ----------------------------------------------------------------------------------

  function LastOf(p: seq<byte>): Option<(seq<byte>, seq<byte>)> {
    match TakeStr(p, ADDR_MAX)
    case None => None
    case Some((addr, p1)) =>
      match TakeStr(p1, TOKEN_MAX)
      case None => None
      case Some((token, p2)) => if |p2| != 0 then None else Some((addr, token))
  }

  /** The three direct strings, which must be the whole rest; nothing at all stands for three empty ones. */
  function DirectOf(p: seq<byte>): Option<(seq<byte>, seq<byte>, seq<byte>)> {
    if |p| == 0 then Some(([], [], []))
    else
      match TakeStr(p, MODE_MAX)
      case None => None
      case Some((mode, p1)) =>
        match LastOf(p1)
        case None => None
        case Some((addr, token)) => Some((mode, addr, token))
  }

  function NamesOf(p: seq<byte>): Option<(seq<byte>, seq<byte>, seq<byte>)> {
    match TakeStr(p, NAME_MAX)
    case None => None
    case Some((tapName, p1)) =>
      match TakeStr(p1, NAME_MAX)
      case None => None
      case Some((bridge, p2)) => if |p2| < 8 then None else Some((tapName, bridge, p2))
  }

  function HeadOf(p: seq<byte>): Config
    requires |p| >= 11
  {
    Config(Get32(p), Get32(p[4..]), p[8], p[9], p[10], [], [], 0, 0, 0, [], [], [])
  }

  function MiddleOf(x: Config, p: seq<byte>): Config
    requires |p| >= 8
  {
    x.(mtu := Get16(p), port := Get16(p[2..]), flags := Get32(p[4..]))
  }

  function RestOf(x: Config, p: seq<byte>): Option<Config>
    requires |p| >= 8
  {
    var y := MiddleOf(x, p);
    if y.net == 0 || y.mtu < MIN_MTU || y.mtu > MAX_MTU then None
    else
      match DirectOf(p[8..])
      case None => None
      case Some((mode, addr, token)) => Some(y.(mode := mode, addr := addr, token := token))
  }

  function ConfigOf(p: seq<byte>): Option<Config> {
    if |p| < 19 then None
    else
      match NamesOf(p[11..])
      case None => None
      case Some((tapName, bridge, rest)) => RestOf(HeadOf(p).(tapName := tapName, bridge := bridge), rest)
  }

  lemma HeadRead(x: Config, rest: seq<byte>)
    ensures var p := Head(x) + rest;
            |p| >= 11 && Get32(p) == x.version && Get32(p[4..]) == x.net && p[8] == x.tap && p[9] == x.socks && p[10] == x.direct && p[11..] == rest
  {
    var p := Head(x) + rest;
    assert p == Be32(x.version) + (Be32(x.net) + ([x.tap, x.socks, x.direct] + rest));
    Get32OfBe32(x.version, Be32(x.net) + ([x.tap, x.socks, x.direct] + rest));
    assert p[4..] == Be32(x.net) + ([x.tap, x.socks, x.direct] + rest);
    Get32OfBe32(x.net, [x.tap, x.socks, x.direct] + rest);
    assert p[8..] == [x.tap, x.socks, x.direct] + rest;
  }

  lemma MiddleRead(x: Config, rest: seq<byte>)
    ensures var p := Middle(x) + rest;
            |p| >= 8 && Get16(p) == x.mtu && Get16(p[2..]) == x.port && Get32(p[4..]) == x.flags && p[8..] == rest
  {
    var p := Middle(x) + rest;
    assert p == Be16(x.mtu) + (Be16(x.port) + (Be32(x.flags) + rest));
    Get16OfBe16(x.mtu, Be16(x.port) + (Be32(x.flags) + rest));
    assert p[2..] == Be16(x.port) + (Be32(x.flags) + rest);
    Get16OfBe16(x.port, Be32(x.flags) + rest);
    assert p[4..] == Be32(x.flags) + rest;
    Get32OfBe32(x.flags, rest);
  }

  lemma DirectExact(p: seq<byte>, mode: seq<byte>, addr: seq<byte>, token: seq<byte>)
    ensures DirectOf(p) == Some((mode, addr, token)) <==>
              || (p == [] && mode == addr == token == [])
              || (|mode| < MODE_MAX && |addr| < ADDR_MAX && |token| < TOKEN_MAX && p == Str(mode) + Str(addr) + Str(token))
  {
    if |mode| < MODE_MAX && |addr| < ADDR_MAX && |token| < TOKEN_MAX && p == Str(mode) + Str(addr) + Str(token) {
      assert p == Str(mode) + (Str(addr) + Str(token));
      TakeStrOfStr(mode, Str(addr) + Str(token), MODE_MAX);
      TakeStrOfStr(addr, Str(token), ADDR_MAX);
      TakeStrOfStr(token, [], TOKEN_MAX);
      assert Str(token) + [] == Str(token);
    }
    if p != [] && DirectOf(p) == Some((mode, addr, token)) {
      StrOfTakeStr(p, MODE_MAX);
      var p1 := TakeStr(p, MODE_MAX).value.1;
      StrOfTakeStr(p1, ADDR_MAX);
      var p2 := TakeStr(p1, ADDR_MAX).value.1;
      StrOfTakeStr(p2, TOKEN_MAX);
      assert Str(token) + [] == Str(token);
    }
  }

  lemma NamesExact(p: seq<byte>, tapName: seq<byte>, bridge: seq<byte>, rest: seq<byte>)
    ensures NamesOf(p) == Some((tapName, bridge, rest)) <==>
              |tapName| < NAME_MAX && |bridge| < NAME_MAX && |rest| >= 8 && p == Str(tapName) + Str(bridge) + rest
  {
    if |tapName| < NAME_MAX && |bridge| < NAME_MAX && |rest| >= 8 && p == Str(tapName) + Str(bridge) + rest {
      assert p == Str(tapName) + (Str(bridge) + rest);
      TakeStrOfStr(tapName, Str(bridge) + rest, NAME_MAX);
      TakeStrOfStr(bridge, rest, NAME_MAX);
    }
    if NamesOf(p) == Some((tapName, bridge, rest)) {
      StrOfTakeStr(p, NAME_MAX);
      StrOfTakeStr(TakeStr(p, NAME_MAX).value.1, NAME_MAX);
    }
  }

  lemma HeadBytes(p: seq<byte>, x: Config)
    requires |p| >= 11 && HeadOf(p) == HeadOf(p).(version := x.version, net := x.net, tap := x.tap, socks := x.socks, direct := x.direct)
    ensures p == Head(x) + p[11..]
  {
    Be32OfGet32(p);
    Be32OfGet32(p[4..]);
    assert p == p[..4] + p[4..][..4] + [p[8], p[9], p[10]] + p[11..];
  }

  lemma MiddleBytes(p: seq<byte>, x: Config)
    requires |p| >= 8 && Get16(p) == x.mtu && Get16(p[2..]) == x.port && Get32(p[4..]) == x.flags
    ensures p == Middle(x) + p[8..]
  {
    Be16OfGet16(p);
    Be16OfGet16(p[2..]);
    Be32OfGet32(p[4..]);
    assert p == p[..2] + p[2..][..2] + p[4..][..4] + p[8..];
  }

  lemma RestReads(x: Config, tail: seq<byte>)
    requires Acceptable(x) && (tail == DirectBytes(x) || (tail == [] && x.mode == x.addr == x.token == []))
    ensures |Middle(x) + tail| >= 8
    ensures RestOf(x.(mtu := 0, port := 0, flags := 0, mode := [], addr := [], token := []), Middle(x) + tail) == Some(x)
  {
    MiddleRead(x, tail);
    DirectExact(tail, x.mode, x.addr, x.token);
  }

  lemma DecodesBytes(x: Config, tail: seq<byte>)
    requires Acceptable(x) && (tail == DirectBytes(x) || (tail == [] && x.mode == x.addr == x.token == []))
    ensures ConfigOf(ShortBytes(x) + tail) == Some(x)
  {
    var p2 := Middle(x) + tail;
    var p1 := Str(x.tapName) + Str(x.bridge) + p2;
    assert ShortBytes(x) + tail == Head(x) + p1;
    HeadRead(x, p1);
    NamesExact(p1, x.tapName, x.bridge, p2);
    RestReads(x, tail);
  }

  lemma RestBytes(x0: Config, p: seq<byte>, x: Config)
    requires |p| >= 8 && RestOf(x0, p) == Some(x) && |x0.tapName| < NAME_MAX && |x0.bridge| < NAME_MAX
    ensures Acceptable(x) && x == x0.(mtu := x.mtu, port := x.port, flags := x.flags, mode := x.mode, addr := x.addr, token := x.token)
    ensures p == Middle(x) + p[8..]
    ensures p[8..] == DirectBytes(x) || (p[8..] == [] && x.mode == x.addr == x.token == [])
  {
    MiddleBytes(p, x);
    DirectExact(p[8..], x.mode, x.addr, x.token);
  }

  lemma DecodedBytes(p: seq<byte>, x: Config)
    requires ConfigOf(p) == Some(x)
    ensures Acceptable(x)
    ensures p == FullBytes(x) || (p == ShortBytes(x) && x.mode == x.addr == x.token == [])
  {
    var (tapName, bridge, p2) := NamesOf(p[11..]).value;
    NamesExact(p[11..], tapName, bridge, p2);
    RestBytes(HeadOf(p).(tapName := tapName, bridge := bridge), p2, x);
    HeadBytes(p, x);
    Joined(p, x, p2);
  }

  lemma Joined(p: seq<byte>, x: Config, p2: seq<byte>)
    requires Encodable(x) && |p| >= 11 && |p2| >= 8
    requires p == Head(x) + p[11..] && p[11..] == Str(x.tapName) + Str(x.bridge) + p2 && p2 == Middle(x) + p2[8..]
    ensures p == ShortBytes(x) + p2[8..]
    ensures p2[8..] == [] ==> p == ShortBytes(x)
  {
    var tail := p2[8..];
    assert Head(x) + (Str(x.tapName) + Str(x.bridge) + (Middle(x) + tail)) == ShortBytes(x) + tail;
  }

  /** A payload is accepted if and only if it is the full encoding of an acceptable configuration, or
      the legacy encoding of one without direct strings; and the decoder returns that configuration, with
      the raw bytes of its strings. */
  lemma ConfigExact(p: seq<byte>, x: Config)
    ensures ConfigOf(p) == Some(x) <==>
              Acceptable(x) && (p == FullBytes(x) || (p == ShortBytes(x) && x.mode == x.addr == x.token == []))
  {
    if Acceptable(x) && p == FullBytes(x) {
      DecodesBytes(x, DirectBytes(x));
    }
    if Acceptable(x) && p == ShortBytes(x) && x.mode == x.addr == x.token == [] {
      DecodesBytes(x, []);
      assert ShortBytes(x) + [] == ShortBytes(x);
    }
    if ConfigOf(p) == Some(x) {
      DecodedBytes(p, x);
    }
  }

  lemma ViewLoses(x: Config)
    requires Encodable(x)
    ensures Encodable(View(x)) && |FullBytes(View(x))| <= |FullBytes(x)|
    ensures View(x) == x <==> NulFree(x)
    ensures |FullBytes(View(x))| == |FullBytes(x)| <==> NulFree(x)
  {
    CTextLoses(x.tapName);
    CTextLoses(x.bridge);
    CTextLoses(x.mode);
    CTextLoses(x.addr);
    CTextLoses(x.token);
    Flat(x);
    Flat(View(x));
  }

  /** An accepted full-form payload re-encodes byte for byte if and only if no string holds a NUL. */
  lemma FullReencodes(x: Config)
    requires Acceptable(x)
    ensures ConfigOf(FullBytes(x)) == Some(x) && Acceptable(View(x))
    ensures FullBytes(View(x)) == FullBytes(x) <==> NulFree(x)
  {
    ConfigExact(FullBytes(x), x);
    ViewLoses(x);
  }

  /** Every accepted payload, re-encoded from what C code sees of it, comes back as the same view: byte for
      byte what C code sees survives, and a second round changes nothing. */
  lemma ViewSurvives(p: seq<byte>, x: Config)
    requires ConfigOf(p) == Some(x)
    ensures Acceptable(View(x)) && ConfigOf(FullBytes(View(x))) == Some(View(x)) && View(View(x)) == View(x)
  {
    ConfigExact(p, x);
    ConfigExact(FullBytes(View(x)), View(x));
    CTextOnce(x.tapName);
    CTextOnce(x.bridge);
    CTextOnce(x.mode);
    CTextOnce(x.addr);
    CTextOnce(x.token);
  }

  /** A payload that does not come back: its network name is a single NUL. */
  lemma NulNameIsLost() returns (p: seq<byte>, x: Config)
    ensures ConfigOf(p) == Some(x) && Acceptable(View(x)) && |FullBytes(View(x))| < |p|
  {
    x := Config(2, 1, 1, 0, 0, [0], [], 1500, 0, 0, [], [], []);
    p := FullBytes(x);
    ConfigExact(p, x);
    assert 0 in x.tapName;
    ViewLoses(x);
  }

  /** The legacy form decodes to the same value as the full form with three empty direct strings. */
  lemma LegacyForm(x: Config)
    requires Acceptable(x)
    ensures var plain := x.(mode := [], addr := [], token := []);
            ConfigOf(ShortBytes(x)) == ConfigOf(FullBytes(plain)) == Some(plain)
  {
    var plain := x.(mode := [], addr := [], token := []);
    assert ShortBytes(plain) == ShortBytes(x);
    ConfigExact(ShortBytes(x), plain);
    ConfigExact(FullBytes(plain), plain);
  }

  // ---- In place ------------------------------------------------------------------------------------

  method EncodeConfig(out: array<byte>, x: Config) returns (r: Option<nat>)
    modifies out
    ensures r.Some? <==> Encodable(View(x)) && |FullBytes(View(x))| <= out.Length
    ensures r.Some? ==> Wrote(out, r.value, FullBytes(View(x)))
    ensures r.None? ==> out[..] == old(out[..])
  {
    var buf := new ByteBuffer();
    AppendAll(buf, Be32(x.version));
    AppendAll(buf, Be32(x.net));
    AppendAll(buf, [x.tap, x.socks, x.direct]);
    assert buf.Contents() == Head(x);
    var ok := AppendPair(buf, x.tapName, x.bridge);
    if !ok {
      return None;
    }
    AppendMiddle(buf, x);
    ok := AppendPair(buf, x.mode, x.addr);
    if !ok {
      return None;
    }
    ok := AppendString(buf, x.token);
    if !ok {
      return None;
    }
    Flat(View(x));
    r := Finish(buf, out);
  }

  lemma Flat(x: Config)
    requires Encodable(x)
    ensures FullBytes(x) == Head(x) + Str(x.tapName) + Str(x.bridge) + Middle(x) + Str(x.mode) + Str(x.addr) + Str(x.token)
    ensures |FullBytes(x)| == 29 + |x.tapName| + |x.bridge| + |x.mode| + |x.addr| + |x.token|
  {
    var short, a, b, c := ShortBytes(x), Str(x.mode), Str(x.addr), Str(x.token);
    assert short + (a + b + c) == short + a + b + c;
    assert |Head(x)| == 11 && |Middle(x)| == 8;
  }

  method AppendMiddle(buf: ByteBuffer, x: Config)
    requires buf.Valid() && |buf.Contents()| < 0x40_0000
    modifies buf.Repr
    ensures buf.Valid() && fresh(buf.Repr - old(buf.Repr)) && buf.Contents() == old(buf.Contents()) + Middle(x)
  {
    ghost var before := buf.Contents();
    AppendAll(buf, Be16(x.mtu));
    AppendAll(buf, Be16(x.port));
    AppendAll(buf, Be32(x.flags));
    assert before + Be16(x.mtu) + Be16(x.port) + Be32(x.flags) == before + Middle(x);
  }

  method DecodeConfig(payload: array<byte>, len: nat) returns (r: Option<Config>)
    requires len <= payload.Length
    ensures r == ConfigOf(payload[..len])
  {
    if len < 19 {
      return None;
    }
    var x := DecodeHead(payload, len);
    assert payload[..len][11..] == payload[11..len];
    var names, at := DecodeNames(payload, len, 11);
    if names.None? {
      return None;
    }
    r := DecodeRest(payload, len, at, x.(tapName := names.value.0, bridge := names.value.1));
  }

  method DecodeNames(payload: array<byte>, len: nat, at: nat) returns (r: Option<(seq<byte>, seq<byte>)>, next: nat)
    requires at <= len <= payload.Length
    ensures r.Some? <==> NamesOf(payload[at..len]).Some?
    ensures r.Some? ==> next + 8 <= len && NamesOf(payload[at..len]) == Some((r.value.0, r.value.1, payload[next..len]))
  {
    next := at;
    var tapName, pos := ReadString(payload, len, at, NAME_MAX);
    if tapName.None? {
      return None, at;
    }
    var bridge, pos2 := ReadString(payload, len, pos, NAME_MAX);
    if bridge.None? || pos2 + 8 > len {
      return None, at;
    }
    r, next := Some((tapName.value, bridge.value)), pos2;
  }

  method DecodeHead(payload: array<byte>, len: nat) returns (x: Config)
    requires 11 <= len <= payload.Length
    ensures x == HeadOf(payload[..len])
  {
    x := Config(Get32(payload[0..4]), Get32(payload[4..8]), payload[8], payload[9], payload[10], [], [], 0, 0, 0, [], [], []);
  }

  method DecodeRest(payload: array<byte>, len: nat, at: nat, x: Config) returns (r: Option<Config>)
    requires at + 8 <= len <= payload.Length
    ensures r == RestOf(x, payload[at..len])
  {
    var y := x.(mtu := Get16(payload[at..at + 2]), port := Get16(payload[at + 2..at + 4]), flags := Get32(payload[at + 4..at + 8]));
    assert y == MiddleOf(x, payload[at..len]);
    if y.net == 0 || y.mtu < MIN_MTU || y.mtu > MAX_MTU {
      return None;
    }
    SubSlice(payload[..], at, len, 8, len - at);
    assert payload[at..len][8..] == payload[at + 8..len];
    var direct := DecodeDirect(payload, len, at + 8);
    r := match direct case None => None case Some((mode, addr, token)) => Some(y.(mode := mode, addr := addr, token := token));
  }

  method DecodeDirect(payload: array<byte>, len: nat, at: nat) returns (r: Option<(seq<byte>, seq<byte>, seq<byte>)>)
    requires at <= len <= payload.Length
    ensures r == DirectOf(payload[at..len])
  {
    if at == len {
      return Some(([], [], []));
    }
    assert |payload[at..len]| > 0;
    var mode, pos := ReadString(payload, len, at, MODE_MAX);
    if mode.None? {
      return None;
    }
    var last := DecodeLast(payload, len, pos);
    r := match last case None => None case Some((addr, token)) => Some((mode.value, addr, token));
  }

  method DecodeLast(payload: array<byte>, len: nat, at: nat) returns (r: Option<(seq<byte>, seq<byte>)>)
    requires at <= len <= payload.Length
    ensures r == LastOf(payload[at..len])
  {
    var addr, pos := ReadString(payload, len, at, ADDR_MAX);
    if addr.None? {
      return None;
    }
    var token, end := ReadString(payload, len, pos, TOKEN_MAX);
    if token.None? || end != len {
      return None;
    }
    assert payload[end..len] == [];
    r := Some((addr.value, token.value));
  }

  // ---- What the server sends -------------------------------------------------------------------------

  /** A runtime configuration as the database delivers it; strings are C strings in fields of 512, 512,
      32, 512 and 1024 bytes. */
  datatype Runtime = Runtime(
    net: int, tap: bool, socks: bool, direct: bool, tapName: seq<byte>, bridge: seq<byte>,
    mtu: u16, port: u16, mode: seq<byte>, addr: seq<byte>, token: seq<byte>)

  function Flag(b: bool): byte {
    if b then 1 else 0
  }

  /** The message built from a runtime configuration; a missing network or an overlong string stops it. */
  function Push(rt: Runtime): Option<Config> {
    var x := View(Config(2, Wrap32(rt.net), Flag(rt.tap), Flag(rt.socks), Flag(rt.direct), rt.tapName, rt.bridge,
                         rt.mtu, rt.port, 0, rt.mode, rt.addr, rt.token));
    if rt.net <= 0 || |x.tapName| >= NAME_MAX || |x.bridge| >= NAME_MAX
       || |x.mode| >= MODE_MAX || |x.addr| >= ADDR_MAX || |x.token| >= TOKEN_MAX
    then None
    else Some(x)
  }

  lemma FullArrives(x: Config)
    requires |x.tapName| < NAME_MAX && |x.bridge| < NAME_MAX && |x.mode| < MODE_MAX && |x.addr| < ADDR_MAX && |x.token| < TOKEN_MAX
    ensures |FullBytes(x)| <= 1464
    ensures ConfigOf(FullBytes(x)) == Some(x) <==> x.net != 0 && 576 <= x.mtu <= 1500
  {
    Flat(x);
    ConfigExact(FullBytes(x), x);
  }

  /** Whatever the server builds is at most 1464 bytes and free of NULs; and the receiver decodes it, to the
      same configuration, if and only if the network id is not a multiple of 2^32 and the MTU is legal. */
  lemma PushArrives(rt: Runtime, x: Config)
    requires Push(rt) == Some(x)
    ensures |FullBytes(x)| <= 1464 && View(x) == x
    ensures ConfigOf(FullBytes(x)) == Some(x) <==> Wrap32(rt.net) != 0 && 576 <= rt.mtu <= 1500
    ensures rt.net < U32_MOD ==> x.net == rt.net
  {
    FullArrives(x);
    CTextOnce(rt.tapName);
    CTextOnce(rt.bridge);
    CTextOnce(rt.mode);
    CTextOnce(rt.addr);
    CTextOnce(rt.token);
  }

  /** t is s up to its first NUL. */
  predicate UptoNul(s: seq<byte>, t: seq<byte>) {
    t <= s && 0 !in t && (t == s || s[|t|] == 0)
  }

  lemma CTextIsUptoNul(s: seq<byte>, t: seq<byte>)
    ensures UptoNul(s, CText(s))
    ensures UptoNul(s, t) ==> t == CText(s)
  {
    CTextLoses(s);
    if UptoNul(s, t) {
      CTextIs(s, |t|);
    }
  }

  predicate EndsAt(s: seq<byte>, k: nat) {
    k == |s| || (k < |s| && s[k] == 0)
  }

  /** The text of s, up to its first NUL, has fewer than n bytes. */
  predicate Shorter(s: seq<byte>, n: nat) {
    exists k | 0 <= k < n :: EndsAt(s, k)
  }

  lemma ShorterIs(s: seq<byte>, n: nat)
    ensures |CText(s)| < n <==> Shorter(s, n)
  {
    assert EndsAt(s, |CText(s)|);
    if Shorter(s, n) {
      var k :| 0 <= k < n && EndsAt(s, k);
      assert forall i | 0 <= i < |CText(s)| :: s[i] == CText(s)[i] != 0;
    }
  }

  /** The push against the runtime configuration alone: it is refused exactly without a network, or when a text
      is not shorter than its field of 64, 64, 32, 256 or 1024 bytes; and whatever its payload decodes to
      has version 2 and no flags, and says of network, switches, MTU, port and texts what the runtime does. */
  lemma PushSaysRuntime(rt: Runtime, y: Config)
    ensures Push(rt).None? <==>
              || rt.net <= 0 || !Shorter(rt.tapName, 64) || !Shorter(rt.bridge, 64)
              || !Shorter(rt.mode, 32) || !Shorter(rt.addr, 256) || !Shorter(rt.token, 1024)
    ensures Push(rt).Some? && ConfigOf(FullBytes(Push(rt).value)) == Some(y) ==>
              && y.version == 2 && y.flags == 0 && (rt.net < 0x1_0000_0000 ==> y.net == rt.net)
              && y.tap == (if rt.tap then 1 else 0) && y.socks == (if rt.socks then 1 else 0)
              && y.direct == (if rt.direct then 1 else 0)
              && y.mtu == rt.mtu && y.port == rt.port
              && UptoNul(rt.tapName, y.tapName) && UptoNul(rt.bridge, y.bridge)
              && UptoNul(rt.mode, y.mode) && UptoNul(rt.addr, y.addr) && UptoNul(rt.token, y.token)
  {
    ShorterIs(rt.tapName, 64);
    ShorterIs(rt.bridge, 64);
    ShorterIs(rt.mode, 32);
    ShorterIs(rt.addr, 256);
    ShorterIs(rt.token, 1024);
    if Push(rt).Some? && ConfigOf(FullBytes(Push(rt).value)) == Some(y) {
      var x := Push(rt).value;
      DecodesToItself(x, y);
      CTextIsUptoNul(rt.tapName, []);
      CTextIsUptoNul(rt.bridge, []);
      CTextIsUptoNul(rt.mode, []);
      CTextIsUptoNul(rt.addr, []);
      CTextIsUptoNul(rt.token, []);
    }
  }

  /** A payload built from short enough texts decodes to what it was built from or not at all. */
  lemma DecodesToItself(x: Config, y: Config)
    requires |x.tapName| < NAME_MAX && |x.bridge| < NAME_MAX && |x.mode| < MODE_MAX && |x.addr| < ADDR_MAX && |x.token| < TOKEN_MAX
    requires ConfigOf(FullBytes(x)) == Some(y)
    ensures y == x
  {
    if x.net == 0 || x.mtu < MIN_MTU || x.mtu > MAX_MTU {
      NothingDecodes(x);
    } else {
      FullArrives(x);
    }
  }

  lemma NothingDecodes(x: Config)
    requires |x.tapName| < NAME_MAX && |x.bridge| < NAME_MAX && Encodable(x)
    requires x.net == 0 || x.mtu < MIN_MTU || x.mtu > MAX_MTU
    ensures ConfigOf(FullBytes(x)) == None
  {
    var p2 := Middle(x) + DirectBytes(x);
    var p1 := Str(x.tapName) + Str(x.bridge) + p2;
    assert FullBytes(x) == Head(x) + p1;
    HeadRead(x, p1);
    NamesExact(p1, x.tapName, x.bridge, p2);
    MiddleRead(x, DirectBytes(x));
  }

  /** Builds the message and sends it as one frame. Nothing is written when it cannot be built. */
  method SendConfigPush(s: Socket, sid: u32, rt: Runtime) returns (ok: bool)
    modifies s`outgoing, s`failed, s`stalls
    ensures ok ==> Push(rt).Some? && s.outgoing == old(s.outgoing) + FrameBytes(Message(6, sid, FullBytes(Push(rt).value)))
    ensures Push(rt).None? ==> s.outgoing == old(s.outgoing)
    ensures !ok ==> Push(rt).None? || s.failed || s.stalls < old(s.stalls)
  {
    var push := Push(rt);
    if push.None? {
      return false;
    }
    PushArrives(rt, push.value);
    var out := new byte[MAX_CONTROL];
    var len := EncodeConfig(out, push.value);
    ok := SendMsg(s, Message(MSG_CONFIG_PUSH, sid, out[..len.value]));
  }

  /** ... and the reader at the other end takes that frame. */
  lemma PushIsRead(rt: Runtime, x: Config, sid: u32, rest: seq<byte>)
    requires Push(rt) == Some(x)
    ensures |FullBytes(x)| <= 1464
    ensures Parse(FrameBytes(Message(6, sid, FullBytes(x))) + rest, MAX_CONTROL)
         == Whole(HeaderFor(Message(6, sid, FullBytes(x))), FullBytes(x), rest)
  {
    PushArrives(rt, x);
    ParseFrame(Message(6, sid, FullBytes(x)), rest, MAX_CONTROL);
  }
}
