/** The encoders over a growable buffer and the decoders over a received payload, in place. */
module Codec {
  import opened Bytes
  import opened Proto
  import opened Buffer
  import opened Wire

  /** The bytes at out's front are the encoding; the rest of out is as it was. */
  twostate predicate Wrote(out: array<byte>, len: nat, bytes: seq<byte>)
    reads out
  {
    len == |bytes| <= out.Length && out[..len] == bytes && out[len..] == old(out[len..])
  }

  method AppendAll(buf: ByteBuffer, bytes: seq<byte>)
    requires buf.Valid() && |buf.Contents()| + |bytes| <= 0x100_0000
    modifies buf.Repr
    ensures buf.Valid() && fresh(buf.Repr - old(buf.Repr)) && buf.Contents() == old(buf.Contents()) + bytes
  {
    var ok := buf.Append(bytes);
    assert ok;
  }

  /** The length of a C string. */
  method StrLen(s: seq<byte>) returns (n: nat)
    ensures n <= |s| && s[..n] == CText(s)
  {
    n := 0;
    while n < |s| && s[n] != 0
      invariant 0 <= n <= |s| && forall k | 0 <= k < n :: s[k] != 0
    {
      n := n + 1;
    }
    CTextIs(s, n);
  }

  /** A length-prefixed C string; one longer than 65535 bytes is refused. */
  method AppendString(buf: ByteBuffer, s: seq<byte>) returns (ok: bool)
    requires buf.Valid() && |buf.Contents()| < 0x80_0000
    modifies buf.Repr
    ensures buf.Valid() && fresh(buf.Repr - old(buf.Repr)) && ok == (|CText(s)| < 0x1_0000)
    ensures buf.Contents() == if |CText(s)| < 0x1_0000 then old(buf.Contents()) + Str(CText(s)) else old(buf.Contents())
  {
    var n := StrLen(s);
    if n > 65535 {
      return false;
    }
    AppendAll(buf, Be16(n));
    AppendAll(buf, s[..n]);
    assert old(buf.Contents()) + Be16(n) + s[..n] == old(buf.Contents()) + Str(s[..n]);
    ok := true;
  }

  method AppendPair(buf: ByteBuffer, a: seq<byte>, b: seq<byte>) returns (ok: bool)
    requires buf.Valid() && |buf.Contents()| < 0x40_0000
    modifies buf.Repr
    ensures buf.Valid() && fresh(buf.Repr - old(buf.Repr)) && ok == (|CText(a)| < 0x1_0000 && |CText(b)| < 0x1_0000)
    ensures ok ==> buf.Contents() == old(buf.Contents()) + Str(CText(a)) + Str(CText(b))
  {
    ok := AppendString(buf, a);
    if ok {
      ok := AppendString(buf, b);
    }
  }

  /** Copies a finished buffer out if it fits. */
  method Finish(buf: ByteBuffer, out: array<byte>) returns (r: Option<nat>)
    requires buf.Valid() && out !in buf.Repr
    modifies out
    ensures r == if |buf.Contents()| <= out.Length then Some(|buf.Contents()|) else None
    ensures r.Some? ==> Wrote(out, r.value, buf.Contents())
    ensures r.None? ==> out[..] == old(out[..])
    ensures buf.Valid() && buf.Contents() == old(buf.Contents())
  {
    if buf.len > out.Length {
      return None;
    }
    forall i | 0 <= i < buf.len {
      out[i] := buf.data[i];
    }
    r := Some(buf.len);
  }

  method EncodeHello(out: array<byte>, x: Hello) returns (r: Option<nat>)
    modifies out
    ensures var v := HelloView(x); r.Some? <==> |v.version| < 0x1_0000 && |HelloBytes(v)| <= out.Length
    ensures r.Some? ==> Wrote(out, r.value, HelloBytes(HelloView(x)))
    ensures r.None? ==> out[..] == old(out[..])
  {
    var buf := new ByteBuffer();
    AppendAll(buf, [x.role]);
    assert buf.Contents() == [x.role];
    var ok := AppendString(buf, x.version);
    if !ok {
      return None;
    }
    AppendAll(buf, Be32(x.features));
    AppendAll(buf, x.nonce);
    assert buf.Contents() == HelloBytes(HelloView(x));
    r := Finish(buf, out);
  }

  method EncodeAuthNode(out: array<byte>, x: AuthNode) returns (r: Option<nat>)
    modifies out
    ensures var v := AuthNodeView(x); r.Some? <==> |v.nodeId| < 0x1_0000 && |AuthNodeBytes(v)| <= out.Length
    ensures r.Some? ==> Wrote(out, r.value, AuthNodeBytes(AuthNodeView(x)))
    ensures r.None? ==> out[..] == old(out[..])
  {
    var buf := new ByteBuffer();
    var ok := AppendString(buf, x.nodeId);
    if !ok {
      return None;
    }
    assert buf.Contents() == Str(CText(x.nodeId));
    AppendAll(buf, x.nonce);
    AppendAll(buf, x.sign);
    assert buf.Contents() == AuthNodeBytes(AuthNodeView(x));
    r := Finish(buf, out);
  }

  method EncodeAuthTap(out: array<byte>, x: AuthTap) returns (r: Option<nat>)
    modifies out
    ensures var v := AuthTapView(x);
            r.Some? <==> |v.username| < 0x1_0000 && |v.password| < 0x1_0000 && |AuthTapBytes(v)| <= out.Length
    ensures r.Some? ==> Wrote(out, r.value, AuthTapBytes(AuthTapView(x)))
    ensures r.None? ==> out[..] == old(out[..])
  {
    var buf := new ByteBuffer();
    var ok := AppendPair(buf, x.username, x.password);
    if !ok {
      return None;
    }
    assert buf.Contents() == Str(CText(x.username)) + Str(CText(x.password));
    AppendAll(buf, Be32(x.net));
    AppendAll(buf, x.nonce);
    assert buf.Contents() == AuthTapBytes(AuthTapView(x));
    r := Finish(buf, out);
  }

  /** An open for an empty host, port 0 or an oversized payload is refused; stream 0 is not. */
  method EncodeSocksOpen(out: array<byte>, x: SocksOpen) returns (r: Option<nat>)
    modifies out
    ensures var v := SocksOpenView(x);
            r.Some? <==> v.host != [] && v.port != 0 && |v.host| < 0x1_0000
                         && |SocksOpenBytes(v)| <= out.Length && |SocksOpenBytes(v)| <= MAX_SOCKS
    ensures r.Some? ==> Wrote(out, r.value, SocksOpenBytes(SocksOpenView(x)))
    ensures r.None? ==> out[..] == old(out[..])
  {
    if x.host == [] || x.host[0] == 0 || x.port == 0 {
      return None;
    }
    var buf := new ByteBuffer();
    AppendAll(buf, Be32(x.stream));
    assert buf.Contents() == Be32(x.stream);
    var ok := AppendString(buf, x.host);
    if !ok {
      return None;
    }
    AppendAll(buf, Be16(x.port));
    var len := buf.len;
    assert buf.Contents() == SocksOpenBytes(SocksOpenView(x)) && len == 8 + |CText(x.host)|;
    if len > MAX_SOCKS {
      return None;
    }
    r := Finish(buf, out);
  }

  method EncodeTapFrame(out: array<byte>, x: TapFrame) returns (r: Option<nat>)
    requires |x.frame| < 0x1_0000
    modifies out
    ensures r.Some? <==> |x.frame| >= MIN_FRAME && |TapFrameBytes(x)| <= out.Length
    ensures r.Some? ==> Wrote(out, r.value, TapFrameBytes(x))
    ensures r.None? ==> out[..] == old(out[..])
  {
    if |x.frame| < MIN_FRAME || out.Length < 6 + |x.frame| {
      return None;
    }
    var front := Be32(x.net) + Be16(|x.frame|);
    forall i | 0 <= i < 6 {
      out[i] := front[i];
    }
    forall i | 0 <= i < |x.frame| {
      out[6 + i] := x.frame[i];
    }
    assert TapFrameBytes(x) == front + x.frame;
    r := Some(6 + |x.frame|);
  }

  /** The short close: the stream id alone. */
  method EncodeSocksClose(out: array<byte>, stream: u32) returns (ok: bool)
    requires out.Length == 4
    modifies out
    ensures ok == (stream != 0)
    ensures out[..] == if ok then Be32(stream) else old(out[..])
  {
    if stream == 0 {
      return false;
    }
    forall i | 0 <= i < 4 {
      out[i] := Be32(stream)[i];
    }
    ok := true;
  }

  method EncodeSocksCloseReason(out: array<byte>, x: SocksClose) returns (ok: bool)
    requires out.Length == 8
    modifies out
    ensures ok == (x.stream != 0)
    ensures out[..] == if ok then SocksCloseBytes(x) else old(out[..])
  {
    if x.stream == 0 {
      return false;
    }
    var bytes := SocksCloseBytes(x);
    forall i | 0 <= i < 8 {
      out[i] := bytes[i];
    }
    ok := true;
  }

  // ---- Decoders: every access is inside the payload -------------------------------------------------

  lemma SubSlice(s: seq<byte>, a: nat, b: nat, c: nat, d: nat)
    requires a <= b <= |s| && c <= d <= b - a
    ensures s[a..b][c..d] == s[a + c..a + d]
  {
    assert |s[a..b][c..d]| == |s[a + c..a + d]|;
    forall k | 0 <= k < d - c ensures s[a..b][c..d][k] == s[a + c..a + d][k] {
      assert s[a..b][c..d][k] == s[a..b][c + k] == s[a + (c + k)];
    }
  }

  method ReadString(payload: array<byte>, len: nat, pos: nat, max: nat) returns (r: Option<seq<byte>>, next: nat)
    requires pos <= len <= payload.Length
    ensures r.Some? <==> TakeStr(payload[pos..len], max).Some?
    ensures r.Some? ==> pos <= next <= len && TakeStr(payload[pos..len], max) == Some((r.value, payload[next..len]))
  {
    next := pos;
    if pos + 2 > len {
      return None, pos;
    }
    var n := Get16(payload[pos..pos + 2]);
    assert Get16(payload[pos..len]) == n;
    if pos + 2 + n > len || n >= max {
      return None, pos;
    }
    next := pos + 2 + n;
    r := Some(payload[pos + 2..next]);
    SubSlice(payload[..], pos, len, 2, 2 + n);
    SubSlice(payload[..], pos, len, 2 + n, len - pos);
    assert payload[..][pos..len] == payload[pos..len] && payload[..][pos + 2..next] == payload[pos + 2..next];
    assert payload[..][next..len] == payload[next..len];
  }

  method DecodeHello(payload: array<byte>, len: nat) returns (r: Option<Hello>)
    requires len <= payload.Length
    ensures r == HelloOf(payload[..len])
  {
    if len < 1 {
      return None;
    }
    assert payload[..len][1..] == payload[1..len];
    var version, pos := ReadString(payload, len, 1, VERSION_TEXT_MAX);
    if version.None? || pos + 4 + NONCE_SIZE != len {
      return None;
    }
    assert payload[pos..len][4..] == payload[pos + 4..len];
    r := Some(Hello(payload[0], version.value, Get32(payload[pos..len]), payload[pos + 4..len]));
  }

  method DecodeAuthNode(payload: array<byte>, len: nat) returns (r: Option<AuthNode>)
    requires len <= payload.Length
    ensures r == AuthNodeOf(payload[..len])
  {
    assert payload[..len] == payload[0..len];
    var id, pos := ReadString(payload, len, 0, NODE_ID_MAX);
    if id.None? || pos + NONCE_SIZE + HMAC_SIZE != len {
      return None;
    }
    assert payload[pos..len][..NONCE_SIZE] == payload[pos..pos + NONCE_SIZE];
    assert payload[pos..len][NONCE_SIZE..] == payload[pos + NONCE_SIZE..len];
    r := Some(AuthNode(id.value, payload[pos..pos + NONCE_SIZE], payload[pos + NONCE_SIZE..len]));
  }

  method DecodeAuthTap(payload: array<byte>, len: nat) returns (r: Option<AuthTap>)
    requires len <= payload.Length
    ensures r == AuthTapOf(payload[..len])
  {
    assert payload[..len] == payload[0..len];
    var user, pos := ReadString(payload, len, 0, VALUE_MAX);
    if user.None? {
      return None;
    }
    var password, pos2 := ReadString(payload, len, pos, VALUE_MAX);
    if password.None? || pos2 + 4 + NONCE_SIZE != len {
      return None;
    }
    assert payload[pos2..len][4..] == payload[pos2 + 4..len];
    r := Some(AuthTap(user.value, password.value, Get32(payload[pos2..len]), payload[pos2 + 4..len]));
  }

  method DecodeTapFrame(payload: array<byte>, len: nat) returns (r: Option<TapFrame>)
    requires len <= payload.Length
    ensures r == TapFrameOf(payload[..len])
  {
    if len < 6 {
      return None;
    }
    var n := Get16(payload[4..6]);
    assert Get16(payload[..len][4..]) == n;
    if n < MIN_FRAME || len != 6 + n {
      return None;
    }
    assert payload[..len][6..] == payload[6..len];
    r := Some(TapFrame(Get32(payload[..len]), payload[6..len]));
  }

  method DecodeSocksOpen(payload: array<byte>, len: nat) returns (r: Option<SocksOpen>)
    requires len <= payload.Length
    ensures r == SocksOpenOf(payload[..len])
  {
    if len < 8 {
      return None;
    }
    assert payload[..len][4..] == payload[4..len];
    var host, pos := ReadString(payload, len, 4, HOST_MAX);
    if host.None? || pos + 2 != len {
      return None;
    }
    var x := SocksOpen(Get32(payload[..len]), host.value, Get16(payload[pos..len]));
    r := if x.stream == 0 || x.host == [] || x.host[0] == 0 || x.port == 0 then None else Some(x);
  }

  method DecodeSocksClose(payload: array<byte>, len: nat) returns (r: Option<SocksClose>)
    requires len <= payload.Length
    ensures r == SocksCloseOf(payload[..len])
  {
    if len != 4 && len != 8 {
      return None;
    }
    var x := SocksClose(Get32(payload[..len]), REMOTE_CLOSED, 0);
    if len == 8 {
      assert payload[..len][4..][..2] == payload[4..6] && payload[..len][6..] == payload[6..8];
      x := x.(reason := Get16(payload[4..6]), flags := Get16(payload[6..8]));
    }
    r := if x.stream == 0 then None else Some(x);
  }
}
