/** JSON string literals (RFC 8259 section 7) appended to a growing, NUL-terminated buffer. */
module Json {
  import opened Bytes
  import opened Buffer

  const QUOTE: byte := 0x22
  const BACKSLASH: byte := 0x5c

  function HexDigit(n: int): byte
    requires 0 <= n < 16
  {
    if n < 10 then 0x30 + n else 0x61 + n - 10
  }

  /** How one byte is written inside a literal. */
  function Escape(b: byte): seq<byte> {
    if b == QUOTE then [BACKSLASH, QUOTE]
    else if b == BACKSLASH then [BACKSLASH, BACKSLASH]
    else if b == 0x08 then [BACKSLASH, 0x62]
    else if b == 0x0c then [BACKSLASH, 0x66]
    else if b == 0x0a then [BACKSLASH, 0x6e]
    else if b == 0x0d then [BACKSLASH, 0x72]
    else if b == 0x09 then [BACKSLASH, 0x74]
    else if b < 0x20 then [BACKSLASH, 0x75, 0x30, 0x30, HexDigit(b / 16), HexDigit(b % 16)]
    else [b]
  }

  function EscapeAll(text: seq<byte>): seq<byte> {
    if text == [] then [] else EscapeAll(text[..|text| - 1]) + Escape(text[|text| - 1])
  }

  function Literal(text: seq<byte>): seq<byte> {
    [QUOTE] + EscapeAll(text) + [QUOTE]
  }

  lemma EscapeNext(text: seq<byte>, i: nat)
    requires i < |text|
    ensures EscapeAll(text[..i + 1]) == EscapeAll(text[..i]) + Escape(text[i])
    ensures 1 <= |Escape(text[i])| <= 6
  {
    assert text[..i + 1][..i] == text[..i];
  }

  lemma Assoc(a: seq<byte>, b: seq<byte>, c: seq<byte>)
    ensures a + b + c == a + (b + c)
  {
  }

  class JsonBuf {
    var data: array<byte>
    var len: nat
    ghost var Repr: set<object>

    ghost predicate Valid()
      reads this, Repr
    {
      && this in Repr && data in Repr && data.Length <= SIZE_MAX
      && (if data.Length == 0 then len == 0 else len < data.Length)
    }

    ghost function Contents(): seq<byte>
      requires Valid()
      reads this, Repr
    {
      data[..len]
    }

    /** Nothing is stored yet, or the contents are followed by a NUL. */
    ghost predicate Terminated()
      requires Valid()
      reads this, Repr
    {
      data.Length > 0 ==> data[len] == 0
    }

    constructor ()
      ensures Valid() && fresh(Repr) && Contents() == [] && Terminated()
    {
      data := new byte[0];
      len := 0;
      Repr := {this, data};
    }

    /** Makes room for `extra` more bytes and the terminator. */
    method Reserve(extra: nat) returns (ok: bool)
      requires Valid() && extra <= SIZE_MAX
      modifies Repr
      ensures Valid() && fresh(Repr - old(Repr)) && Contents() == old(Contents())
      ensures ok == (len + extra + 1 <= SIZE_MAX)
      ensures ok ==> len + extra + 1 <= data.Length
      ensures !ok ==> data == old(data) && data[..] == old(data[..])
    {
      if extra > SIZE_MAX - len - 1 {
        return false;
      }
      var need := len + extra + 1;
      if need <= data.Length {
        return true;
      }
      var cap := Grow(data.Length, need);
      var next := new byte[cap];
      forall i | 0 <= i < len {
        next[i] := data[i];
      }
      data := next;
      Repr := Repr + {next};
      ok := true;
    }

    method AppendLen(text: seq<byte>) returns (ok: bool)
      requires Valid() && |text| <= SIZE_MAX && Terminated()
      modifies Repr
      ensures Valid() && fresh(Repr - old(Repr)) && Terminated()
      ensures ok == (|old(Contents())| + |text| + 1 <= SIZE_MAX)
      ensures Contents() == if ok then old(Contents()) + text else old(Contents())
    {
      ok := Reserve(|text|);
      if !ok {
        return;
      }
      ghost var before := data[..len];
      forall i | 0 <= i < |text| {
        data[len + i] := text[i];
      }
      len := len + |text|;
      assert data[..len] == before + text;
      data[len] := 0;
    }

    /** Appends one byte as it is written inside a literal. */
    method AppendByte(b: byte) returns (ok: bool)
      requires Valid() && Terminated()
      modifies Repr
      ensures Valid() && fresh(Repr - old(Repr)) && Terminated()
      ensures ok == (|old(Contents())| + |Escape(b)| + 1 <= SIZE_MAX)
      ensures Contents() == if ok then old(Contents()) + Escape(b) else old(Contents())
    {
      if b == QUOTE {
        ok := AppendLen([BACKSLASH, QUOTE]);
      } else if b == BACKSLASH {
        ok := AppendLen([BACKSLASH, BACKSLASH]);
      } else if b == 0x08 {
        ok := AppendLen([BACKSLASH, 0x62]);
      } else if b == 0x0c {
        ok := AppendLen([BACKSLASH, 0x66]);
      } else if b == 0x0a {
        ok := AppendLen([BACKSLASH, 0x6e]);
      } else if b == 0x0d {
        ok := AppendLen([BACKSLASH, 0x72]);
      } else if b == 0x09 {
        ok := AppendLen([BACKSLASH, 0x74]);
      } else if b < 0x20 {
        ok := AppendLen([BACKSLASH, 0x75, 0x30, 0x30, HexDigit(b / 16), HexDigit(b % 16)]);
      } else {
        ok := AppendLen([b]);
      }
    }

    method AppendEscaped(text: seq<byte>) returns (ok: bool)
      requires Valid() && Terminated()
      modifies Repr
      ensures Valid() && fresh(Repr - old(Repr)) && Terminated()
      ensures ok ==> Contents() == old(Contents()) + EscapeAll(text)
      ensures ok <== |old(Contents())| + |EscapeAll(text)| + 1 <= SIZE_MAX
    {
      ghost var before, done := Contents(), [];
      assert Contents() == before + done;
      var i := 0;
      while i < |text|
        invariant Valid() && fresh(Repr - old(Repr)) && Terminated()
        invariant 0 <= i <= |text| && done == EscapeAll(text[..i])
        invariant Contents() == before + done
      {
        EscapeNext(text, i);
        EscapeFits(text, i);
        ok := AppendByte(text[i]);
        if !ok {
          return;
        }
        Assoc(before, done, Escape(text[i]));
        done, i := done + Escape(text[i]), i + 1;
      }
      assert text[..i] == text;
      ok := true;
    }

    /** Appends one literal; it succeeds whenever the literal and the terminator fit the size range. */
    method AppendString(text: seq<byte>) returns (ok: bool)
      requires Valid() && Terminated()
      modifies Repr
      ensures Valid() && fresh(Repr - old(Repr)) && Terminated()
      ensures ok ==> Contents() == old(Contents()) + Literal(text)
      ensures ok <== |old(Contents())| + |Literal(text)| + 1 <= SIZE_MAX
    {
      ghost var before := Contents();
      ok := AppendLen([QUOTE]);
      if !ok {
        return;
      }
      ok := AppendEscaped(text);
      if !ok {
        return;
      }
      ok := AppendLen([QUOTE]);
      Assoc(before, [QUOTE], EscapeAll(text));
      Assoc(before, [QUOTE] + EscapeAll(text), [QUOTE]);
    }
  }

  lemma {:induction false} EscapeFits(text: seq<byte>, i: nat)
    requires i < |text|
    ensures |EscapeAll(text[..i])| + |Escape(text[i])| <= |EscapeAll(text)|
  {
    if i == |text| - 1 {
      EscapeNext(text, i);
      assert text[..i + 1] == text;
    } else {
      EscapeFits(text[..|text| - 1], i);
      assert text[..|text| - 1][..i] == text[..i];
    }
  }

  // ---- Reading a literal back -----------------------------------------------------------------

  function HexValue(b: byte): Option<int> {
    if 0x30 <= b <= 0x39 then Some(b - 0x30)
    else if 0x61 <= b <= 0x66 then Some(b - 0x61 + 10)
    else if 0x41 <= b <= 0x46 then Some(b - 0x41 + 10)
    else None
  }

  /** The byte of an ASCII \u escape's four digits. */
  function AsciiOf(d: seq<byte>): Option<byte>
    requires |d| == 4
  {
    var hi, lo := HexValue(d[2]), HexValue(d[3]);
    if d[..2] != [0x30, 0x30] || hi.None? || lo.None? || hi.value > 7 then None else Some(hi.value * 16 + lo.value)
  }

  /** The byte a two-character escape stands for. */
  function Unescaped(b: byte): Option<byte> {
    if b in {QUOTE, BACKSLASH, 0x2f} then Some(b)
    else if b == 0x62 then Some(0x08)
    else if b == 0x66 then Some(0x0c)
    else if b == 0x6e then Some(0x0a)
    else if b == 0x72 then Some(0x0d)
    else if b == 0x74 then Some(0x09)
    else None
  }

  /** A reader of literals, from after the opening quote: the text up to the first unescaped quote and
      what follows it. Raw control characters and unknown escapes are errors. */
  function ReadText(s: seq<byte>): Option<(seq<byte>, seq<byte>)> {
    if s == [] || s[0] < 0x20 then None
    else if s[0] == QUOTE then Some(([], s[1..]))
    else if s[0] != BACKSLASH then Prepend(s[0], ReadText(s[1..]))
    else if |s| < 2 then None
    else if s[1] == 0x75 then
      if |s| < 6 || AsciiOf(s[2..6]).None? then None else Prepend(AsciiOf(s[2..6]).value, ReadText(s[6..]))
    else if Unescaped(s[1]).None? then None
    else Prepend(Unescaped(s[1]).value, ReadText(s[2..]))
  }

  function Prepend(b: byte, r: Option<(seq<byte>, seq<byte>)>): Option<(seq<byte>, seq<byte>)> {
    match r
    case None => None
    case Some((text, rest)) => Some(([b] + text, rest))
  }

  function ReadLiteral(s: seq<byte>): Option<(seq<byte>, seq<byte>)> {
    if s == [] || s[0] != QUOTE then None else ReadText(s[1..])
  }

  lemma {:induction false} EscapeHead(text: seq<byte>)
    requires text != []
    ensures EscapeAll(text) == Escape(text[0]) + EscapeAll(text[1..])
  {
    var n := |text| - 1;
    if n > 0 {
      EscapeHead(text[..n]);
      assert text[1..][..n - 1] == text[..n][1..];
    } else {
      assert text[..0] == [];
    }
  }

  lemma ReadsEscape(b: byte, rest: seq<byte>)
    requires b != 0
    ensures ReadText(Escape(b) + rest) == Prepend(b, ReadText(rest))
  {
    var e := Escape(b);
    var s := e + rest;
    assert s[|e|..] == rest;
    if |e| == 6 {
      assert s[2..6] == [0x30, 0x30, HexDigit(b / 16), HexDigit(b % 16)];
    }
  }

  lemma {:induction false} ReadsText(text: seq<byte>, rest: seq<byte>)
    requires 0 !in text
    ensures ReadText(EscapeAll(text) + [QUOTE] + rest) == Some((text, rest))
  {
    if text == [] {
      assert EscapeAll(text) + [QUOTE] + rest == [QUOTE] + rest;
    } else {
      EscapeHead(text);
      ReadsText(text[1..], rest);
      assert EscapeAll(text) + [QUOTE] + rest == Escape(text[0]) + (EscapeAll(text[1..]) + [QUOTE] + rest);
      ReadsEscape(text[0], EscapeAll(text[1..]) + [QUOTE] + rest);
      assert [text[0]] + text[1..] == text;
    }
  }

  /** For every NUL-free byte string, what is appended is one literal that reads back as the string,
      whatever follows it. */
  lemma LiteralReadsBack(text: seq<byte>, rest: seq<byte>)
    requires 0 !in text
    ensures ReadLiteral(Literal(text) + rest) == Some((text, rest))
  {
    ReadsText(text, rest);
    assert (Literal(text) + rest)[1..] == EscapeAll(text) + [QUOTE] + rest;
  }

  /** How each byte is written: a two-character escape for quote, backslash, backspace, form feed, newline,
      carriage return and tab, \u00 and two hex digits for the other control bytes, and itself otherwise. */
  lemma EscapesAre(b: byte)
    ensures b == 34 ==> Escape(b) == [92, 34]
    ensures b == 92 ==> Escape(b) == [92, 92]
    ensures b == 8 ==> Escape(b) == [92, 'b' as byte]
    ensures b == 12 ==> Escape(b) == [92, 'f' as byte]
    ensures b == 10 ==> Escape(b) == [92, 'n' as byte]
    ensures b == 13 ==> Escape(b) == [92, 'r' as byte]
    ensures b == 9 ==> Escape(b) == [92, 't' as byte]
    ensures b < 32 && b !in {8, 9, 10, 12, 13} ==>
              |Escape(b)| == 6 && Escape(b)[..4] == [92, 'u' as byte, '0' as byte, '0' as byte]
              && HexValue(Escape(b)[4]) == Some(b / 16) && HexValue(Escape(b)[5]) == Some(b % 16)
              && Escape(b)[5] !in {'A' as byte, 'B' as byte, 'C' as byte, 'D' as byte, 'E' as byte, 'F' as byte}
    ensures b >= 32 && b != 34 && b != 92 ==> Escape(b) == [b]
    ensures forall text :: Literal(text)[0] == 34 && Literal(text)[|Literal(text)| - 1] == 34
  {
  }

  /** Inside the quotes there is no raw control byte, and every quote follows a backslash. */
  lemma {:induction false} NothingRaw(text: seq<byte>, k: nat)
    requires k < |EscapeAll(text)|
    ensures EscapeAll(text)[k] >= 0x20
    ensures EscapeAll(text)[k] == QUOTE ==> k > 0 && EscapeAll(text)[k - 1] == BACKSLASH
  {
    var n := |EscapeAll(text[..|text| - 1])|;
    if k < n {
      NothingRaw(text[..|text| - 1], k);
    }
  }
}
