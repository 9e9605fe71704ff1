/** The message header and the lengths the protocol allows. */
module Proto {
  import opened Bytes

  const MAGIC: u32 := 0x4e544150
  const VERSION: byte := 1
  const HDR_SIZE := 16
  const MSG_HELLO: byte := 0x01
  const MSG_CONFIG_PUSH: byte := 0x06
  const MSG_TAP_FRAME: byte := 0x07
  const MSG_SOCKS_OPEN: byte := 0x0c
  const MSG_SOCKS_CLOSE: byte := 0x0e
  const MAX_CONTROL := 64 * 1024
  const MAX_SOCKS := 16 * 1024
  const DEFAULT_MTU := 1400
  const MIN_MTU := 576
  const MAX_MTU := 1500
  const TAP_EXTRA := 32
  const MIN_FRAME := 14

  datatype Header = Header(magic: u32, version: byte, ty: byte, flags: u16, sid: u32, length: u32)

  datatype Status = Ok | BadMagic | BadVersion | BadType

  predicate ValidType(ty: byte) {
    MSG_HELLO <= ty <= MSG_SOCKS_CLOSE
  }

  predicate LengthAllowed(ty: byte, length: u32, mtu: u16) {
    var m := if mtu < MIN_MTU || mtu > MAX_MTU then DEFAULT_MTU else mtu;
    ValidType(ty) &&
    length <= if ty == MSG_TAP_FRAME then m + TAP_EXTRA
              else if MSG_SOCKS_OPEN <= ty <= MSG_SOCKS_CLOSE then MAX_SOCKS else MAX_CONTROL
  }

  function Check(h: Header): Status {
    if h.magic != MAGIC then BadMagic
    else if h.version != VERSION then BadVersion
    else if !ValidType(h.ty) then BadType
    else Ok
  }

  function HeaderBytes(h: Header): (s: seq<byte>)
    ensures |s| == HDR_SIZE
  {
    Be32(h.magic) + [h.version, h.ty] + Be16(h.flags) + Be32(h.sid) + Be32(h.length)
  }

  function HeaderOf(s: seq<byte>): Header
    requires |s| >= HDR_SIZE
  {
    Header(Get32(s), s[4], s[5], Get16(s[6..]), Get32(s[8..]), Get32(s[12..]))
  }

  lemma HeaderRoundTrip(h: Header, rest: seq<byte>)
    ensures HeaderOf(HeaderBytes(h) + rest) == h
  {
    var s := HeaderBytes(h) + rest;
    assert s == Be32(h.magic) + ([h.version, h.ty] + Be16(h.flags) + Be32(h.sid) + Be32(h.length) + rest);
    Get32OfBe32(h.magic, [h.version, h.ty] + Be16(h.flags) + Be32(h.sid) + Be32(h.length) + rest);
    assert s[6..] == Be16(h.flags) + (Be32(h.sid) + Be32(h.length) + rest);
    Get16OfBe16(h.flags, Be32(h.sid) + Be32(h.length) + rest);
    assert s[8..] == Be32(h.sid) + (Be32(h.length) + rest);
    Get32OfBe32(h.sid, Be32(h.length) + rest);
    assert s[12..] == Be32(h.length) + rest;
    Get32OfBe32(h.length, rest);
  }

  method PutBe16(out: array<byte>, at: nat, v: u16)
    requires at + 2 <= out.Length
    modifies out
    ensures out[..] == old(out[..at]) + Be16(v) + old(out[at + 2..])
  {
    out[at], out[at + 1] := v / 0x100, v % 0x100;
  }

  method PutBe32(out: array<byte>, at: nat, v: u32)
    requires at + 4 <= out.Length
    modifies out
    ensures out[..] == old(out[..at]) + Be32(v) + old(out[at + 4..])
  {
    var hi, lo := v / 0x1_0000, v % 0x1_0000;
    out[at], out[at + 1], out[at + 2], out[at + 3] := hi / 0x100, hi % 0x100, lo / 0x100, lo % 0x100;
  }

  /** Writes a header into place if it is one the protocol has. */
  method EncodeHeader(out: array<byte>, h: Header) returns (rc: Status)
    requires out.Length == HDR_SIZE
    modifies out
    ensures rc == Check(h)
    ensures out[..] == if rc == Ok then HeaderBytes(h) else old(out[..])
  {
    rc := Check(h);
    if rc != Ok {
      return;
    }
    PutBe32(out, 0, h.magic);
    out[4], out[5] := h.version, h.ty;
    PutBe16(out, 6, h.flags);
    PutBe32(out, 8, h.sid);
    PutBe32(out, 12, h.length);
  }

  method DecodeHeader(raw: array<byte>) returns (h: Header, rc: Status)
    requires raw.Length == HDR_SIZE
    ensures h == HeaderOf(raw[..]) && rc == Check(h)
  {
    h := Header(Get32(raw[0..4]), raw[4], raw[5], Get16(raw[6..8]), Get32(raw[8..12]), Get32(raw[12..16]));
    rc := Check(h);
  }
}
