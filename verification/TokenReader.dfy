/** The token verifier over a private copy of the text that is cut into fields in place. */
module TokenReader {
  import opened Bytes
  import opened Wire
  import opened DirectToken

  /** A cursor over a NUL-terminated copy; at is negative once the last field was taken. */
  class FieldCursor {
    const copy: array<char>
    const end: nat  // where the copy's terminator is
    var at: int

    ghost predicate Valid()
      reads this, copy
    {
      && at <= end < copy.Length && copy[end] == '\0'
      && (at >= 0 ==> '\0' !in copy[at..end])
    }

    ghost function Rest(): Option<string>
      requires Valid()
      reads this, copy
    {
      if at < 0 then None else Some(copy[at..end])
    }

    constructor (text: string)
      requires '\0' !in text
      ensures Valid() && fresh(copy) && Rest() == Some(text)
    {
      copy := new char[|text| + 1](i => if 0 <= i < |text| then text[i] else '\0');
      end, at := |text|, 0;
      new;
      assert copy[0..end] == text;
    }

    /** Cuts the next field off by overwriting its separator with a terminator. */
    method NextField() returns (field: Option<string>)
      requires Valid()
      modifies this, copy
      ensures Valid()
      ensures field.Some? == old(Rest()).Some?
      ensures field.Some? ==> field.value == Field(old(Rest()).value) && Rest() == Following(old(Rest()).value)
      ensures field.None? ==> Rest() == None
    {
      if at < 0 {
        return None;
      }
      var start := at;
      ghost var text := copy[start..end];
      var sep := FindSeparator();
      field := Some(copy[start..sep]);
      if sep < end {
        ghost var rest := copy[sep + 1..end];
        copy[sep], at := '\0', sep + 1;
        assert copy[at..end] == rest == text[|field.value| + 1..];
      } else {
        at := -1;
      }
    }

    /** The first separator at or after the cursor, or the terminator. */
    method FindSeparator() returns (sep: int)
      requires Valid() && at >= 0
      ensures at <= sep <= end
      ensures copy[at..sep] == Field(copy[at..end])
      ensures Following(copy[at..end]) == if sep < end then Some(copy[at..end][sep + 1 - at..]) else None
    {
      sep := at;
      while copy[sep] != '|' && copy[sep] != '\0'
        invariant at <= sep <= end
        invariant '|' !in copy[at..sep]
        decreases end - sep
      {
        assert copy[at..sep + 1] == copy[at..sep] + [copy[sep]];
        assert sep < end;
        sep := sep + 1;
      }
      ghost var text, field := copy[at..end], copy[at..sep];
      if sep < end {
        assert copy[sep] in copy[at..end];
        ghost var rest := text[sep + 1 - at..];
        assert text == field + "|" + rest;
        FieldIs(field, rest);
      } else {
        FieldIs(field, "");
      }
    }
  }

  method HexString(value: string, n: nat) returns (ok: bool)
    ensures ok == IsHex(value, n)
  {
    if |value| != n {
      return false;
    }
    var i := 0;
    while i < n
      invariant 0 <= i <= n && forall k | 0 <= k < i :: IsHexDigit(value[k])
    {
      if !IsHexDigit(value[i]) {
        return false;
      }
      i := i + 1;
    }
    ok := true;
  }

  /** Compares every digit before it answers. */
  method HexEqual(a: string, b: string) returns (equal: bool)
    ensures equal == EqualIgnoringCase(a, b)
  {
    var ok := HexString(a, SIGN_HEX);
    if !ok {
      return false;
    }
    ok := HexString(b, SIGN_HEX);
    if !ok {
      return false;
    }
    var differ, i := false, 0;
    while i < SIGN_HEX
      invariant 0 <= i <= SIGN_HEX
      invariant differ == exists k | 0 <= k < i :: Lower(a[k]) != Lower(b[k])
    {
      differ := differ || Lower(a[i]) != Lower(b[i]);
      i := i + 1;
    }
    equal := !differ;
    if differ {
      var k :| 0 <= k < SIGN_HEX && Lower(a[k]) != Lower(b[k]);
      assert LowerAll(a)[k] != LowerAll(b)[k];
    } else {
      assert LowerAll(a) == LowerAll(b);
    }
  }

  method TakeFields(cursor: FieldCursor, n: nat) returns (f: Option<seq<string>>)
    requires cursor.Valid()
    modifies cursor, cursor.copy
    ensures cursor.Valid()
    ensures match Fields(old(cursor.Rest()), n)
            case None => f == None
            case Some((fs, more)) => f == Some(fs) && cursor.Rest() == more
    decreases n
  {
    if n == 0 {
      return Some([]);
    }
    var field := cursor.NextField();
    if field.None? {
      return None;
    }
    f := TakeFields(cursor, n - 1);
    if f.Some? {
      f := Some([field.value] + f.value);
    }
  }

  /** Takes seven fields; a missing one is an error, and so is anything after the last. */
  method SevenFields(text: string) returns (f: Option<seq<string>>)
    requires '\0' !in text
    ensures f == match Fields(Some(text), 7)
                 case None => None
                 case Some((fs, more)) => if more.Some? then None else Some(fs)
  {
    var cursor := new FieldCursor(text);
    f := TakeFields(cursor, 7);
    if f.Some? && cursor.at >= 0 {
      f := None;
    }
  }

  method VerifyToken(hash: Hash, text: string, key: string, node: string, net: int, now: int) returns (r: Option<Token>)
    requires '\0' !in text
    ensures r == Verify(hash, text, key, node, net, now)
  {
    if key == "" || !NodeOk(node) || net <= 0 || |text| >= TOKEN_MAX {
      return None;
    }
    var f := SevenFields(text);
    if f.None? {
      return None;
    }
    r := TokenOf(f.value, node, net, now);
    if r.None? {
      return None;
    }
    var expected := Sign(hash, key, r.value);
    if expected.None? {
      return None;
    }
    var equal := HexEqual(f.value[6], expected.value);
    if !equal {
      return None;
    }
  }
}
