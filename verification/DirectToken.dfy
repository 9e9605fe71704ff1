/** Direct-connection tokens: their text, their signature, and the verifier that reads them back.
    The keyed hash is a parameter: any function from key and text to 32 bytes. */
module DirectToken {
  import opened Bytes
  import opened Wire

  const I64_MAX := 0x7fff_ffff_ffff_ffff
  const U64_MAX := U64_MOD - 1
  const NONCE_HEX := 32
  const SIGN_HEX := 64

  type Hash = (string, string) -> Hmac

  datatype Token = Token(user: int, node: string, net: int, expire: int, nonce: string)

  // ---- Characters ----------------------------------------------------------------------------

  predicate IsDigit(c: char) {
    '0' <= c <= '9'
  }

  predicate IsHexDigit(c: char) {
    IsDigit(c) || 'a' <= c <= 'f' || 'A' <= c <= 'F'
  }

  predicate IsSpace(c: char) {
    c == ' ' || '\t' <= c <= '\r'
  }

  predicate IsHex(s: string, n: nat) {
    |s| == n && forall i | 0 <= i < |s| :: IsHexDigit(s[i])
  }

  function Lower(c: char): char {
    if 'A' <= c <= 'Z' then c + ('a' - 'A') else c
  }

  function LowerAll(s: string): string {
    seq(|s|, i requires 0 <= i < |s| => Lower(s[i]))
  }

  function HexChar(n: int): char
    requires 0 <= n < 16
  {
    "0123456789abcdef"[n]
  }

  function HexOf(bytes: seq<byte>): (s: string)
    ensures |s| == 2 * |bytes|
    ensures forall i | 0 <= i < |s| :: IsHexDigit(s[i]) && Lower(s[i]) == s[i]
  {
    if bytes == [] then ""
    else [HexChar(bytes[0] / 16), HexChar(bytes[0] % 16)] + HexOf(bytes[1..])
  }

  // ---- Numbers -------------------------------------------------------------------------------

  /** Decimal text, as the printer writes it. */
  function Dec(n: nat): (s: string)
    ensures s != "" && forall i | 0 <= i < |s| :: IsDigit(s[i])
  {
    if n < 10 then [Digit(n)] else Dec(n / 10) + [Digit(n % 10)]
  }

  function Digit(n: nat): (c: char)
    requires n < 10
    ensures IsDigit(c)
  {
    '0' + n as char
  }

  function Value(s: string): nat
    requires forall i | 0 <= i < |s| :: IsDigit(s[i])
  {
    if s == "" then 0 else Value(s[..|s| - 1]) * 10 + DigitValue(s[|s| - 1])
  }

  function DigitValue(c: char): nat
    requires IsDigit(c)
  {
    c as int - '0' as int
  }

  lemma {:induction false} ValueOfDec(n: nat)
    ensures Value(Dec(n)) == n
  {
    if n >= 10 {
      ValueOfDec(n / 10);
      assert Dec(n)[..|Dec(n)| - 1] == Dec(n / 10);
    } else {
      assert Dec(n)[..0] == "";
    }
  }

  function Pow10(k: nat): nat {
    if k == 0 then 1 else 10 * Pow10(k - 1)
  }

  lemma {:induction false} DecLength(n: nat, k: nat)
    requires n < Pow10(k) && k > 0
    ensures |Dec(n)| <= k
  {
    if n >= 10 {
      assert Pow10(k) == 10 * Pow10(k - 1) && Pow10(0) == 1;
      DecLength(n / 10, k - 1);
    }
  }

  lemma Lengths(i: nat, u: nat)
    requires i <= I64_MAX && u <= U64_MAX
    ensures |Dec(i)| <= 19 && |Dec(u)| <= 20
  {
    assert Pow10(10) == 10_000_000_000 by {
      assert Pow10(5) == 100_000 by { assert Pow10(3) == 1000; }
      assert Pow10(8) == 100_000_000 by { assert Pow10(6) == 1_000_000; }
    }
    assert Pow10(15) == 1_000_000_000_000_000 by { assert Pow10(13) == 10_000_000_000_000; }
    assert Pow10(19) == 10_000_000_000_000_000_000 by { assert Pow10(17) == 100_000_000_000_000_000; }
    DecLength(i, 19);
    DecLength(u, 20);
  }

  function SkipSpace(s: string): string {
    if s != "" && IsSpace(s[0]) then SkipSpace(s[1..]) else s
  }

  predicate Digits(s: string) {
    s != "" && forall i | 0 <= i < |s| :: IsDigit(s[i])
  }

  /** A whole decimal number as the scanner reads it: blanks, a sign, digits, and nothing after them. */
  function ScanInt(text: string): Option<int> {
    var s := SkipSpace(text);
    var signed := s != "" && (s[0] == '-' || s[0] == '+');
    var digits := if signed then s[1..] else s;
    if !Digits(digits) then None
    else
      var v: int := Value(digits);
      Some(if signed && s[0] == '-' then 0 - v else v)
  }

  /** The scanner saturates at the ends of the range; only positive numbers are taken. */
  function ParseI64(text: string): Option<int> {
    match ScanInt(text)
    case None => None
    case Some(v) => if v <= 0 then None else Some(if v > I64_MAX then I64_MAX else v)
  }

  /** Unsigned: a minus sign wraps, and anything out of range saturates; zero is not taken. */
  function ParseU64(text: string): Option<int> {
    match ScanInt(text)
    case None => None
    case Some(v) =>
      if v == 0 then None
      else if v > U64_MAX || v < -U64_MAX then Some(U64_MAX)
      else if v < 0 then Some(v + U64_MOD)
      else Some(v)
  }

  lemma ScanDec(n: nat)
    ensures ScanInt(Dec(n)) == Some(n)
  {
    ValueOfDec(n);
    assert IsDigit(Dec(n)[0]);
  }

  lemma DecParses(n: nat)
    ensures 0 < n <= I64_MAX ==> ParseI64(Dec(n)) == Some(n)
    ensures 0 < n <= U64_MAX ==> ParseU64(Dec(n)) == Some(n)
  {
    ScanDec(n);
  }

  // ---- Signing --------------------------------------------------------------------------------

  predicate NodeOk(node: string) {
    0 < |node| < VALUE_MAX && '|' !in node
  }

  const PREFIX := "ntap-direct-v1\n"

  /** Node, network, expiry and nonce, one to a line; the node id may itself hold newlines. */
  function Tail(t: Token): string
    requires t.net >= 0 && t.expire >= 0
  {
    t.node + "\n" + Dec(t.net) + "\n" + Dec(t.expire) + "\n" + t.nonce
  }

  function Signing(t: Token): string
    requires t.user >= 0 && t.net >= 0 && t.expire >= 0
  {
    PREFIX + (Dec(t.user) + "\n" + Tail(t))
  }

  /** The field values that the printer accepts. */
  predicate TokenOk(t: Token) {
    && 0 < t.user <= I64_MAX && NodeOk(t.node) && 0 < t.net <= I64_MAX
    && 0 < t.expire <= U64_MAX && IsHex(t.nonce, NONCE_HEX)
  }

  function Sign(hash: Hash, key: string, t: Token): Option<string> {
    if key == "" || !TokenOk(t) || |Signing(t)| >= TOKEN_MAX then None
    else Some(HexOf(hash(key, Signing(t))))
  }

  function Text(t: Token, sign: string): string
    requires t.user >= 0 && t.net >= 0 && t.expire >= 0
  {
    "ntap1" + "|" + (Dec(t.user) + "|" + (t.node + "|" + (Dec(t.net) + "|" + (Dec(t.expire) + "|" + (t.nonce + "|" + sign)))))
  }

  function Make(hash: Hash, key: string, t: Token, outLen: nat): Option<string> {
    match Sign(hash, key, t)
    case None => None
    case Some(sign) => if |Text(t, sign)| < outLen then Some(Text(t, sign)) else None
  }

  /** The signing text always fits. */
  lemma SigningFits(t: Token)
    requires TokenOk(t)
    ensures |Signing(t)| <= 620
  {
    Lengths(t.user, t.expire);
    Lengths(t.net, t.expire);
  }

  /** For valid fields and a nonempty key, making a token succeeds within 676 characters. */
  lemma MakeSucceeds(hash: Hash, key: string, t: Token)
    requires TokenOk(t) && key != ""
    ensures Make(hash, key, t, 677) == Some(Text(t, HexOf(hash(key, Signing(t)))))
    ensures |Text(t, HexOf(hash(key, Signing(t))))| <= 676
  {
    SigningFits(t);
    Lengths(t.user, t.expire);
    Lengths(t.net, t.expire);
  }

  // ---- The signing text determines its fields ----------------------------------------------------

  lemma SplitFirst(x: string, y: string, r: string, s: string, c: char)
    requires c !in x && c !in y && x + [c] + r == y + [c] + s
    ensures x == y && r == s
  {
    var a, b := x + [c] + r, y + [c] + s;
    assert a[|x|] == c && b[|y|] == c;
    assert forall k | 0 <= k < |x| :: a[k] == x[k] != c;
    assert forall k | 0 <= k < |y| :: b[k] == y[k] != c;
    assert |x| == |y|;
    assert x == a[..|x|] && y == b[..|y|] && r == a[|x| + 1..] && s == b[|y| + 1..];
  }

  lemma SplitLast(x: string, y: string, r: string, s: string, c: char)
    requires c !in x && c !in y && r + [c] + x == s + [c] + y
    ensures x == y && r == s
  {
    var a, b := r + [c] + x, s + [c] + y;
    assert a[|r|] == c && b[|s|] == c;
    assert forall k | |r| < k < |a| :: a[k] == x[k - |r| - 1] != c;
    assert forall k | |s| < k < |b| :: b[k] == y[k - |s| - 1] != c;
    assert |r| == |s|;
    assert r == a[..|r|] && s == b[..|s|] && x == a[|r| + 1..] && y == b[|s| + 1..];
  }

  lemma NoNewline(n: nat)
    ensures '\n' !in Dec(n) && '|' !in Dec(n)
  {
  }

  lemma DecInjective(m: nat, n: nat)
    requires Dec(m) == Dec(n)
    ensures m == n
  {
    ValueOfDec(m);
    ValueOfDec(n);
  }

  lemma HexHas(s: string, n: nat, c: char)
    requires IsHex(s, n) && !IsHexDigit(c)
    ensures c !in s
  {
  }

  lemma TailInjective(t: Token, u: Token)
    requires TokenOk(t) && TokenOk(u) && Tail(t) == Tail(u)
    ensures t.node == u.node && t.net == u.net && t.expire == u.expire && t.nonce == u.nonce
  {
    var at, au := t.node + "\n" + Dec(t.net), u.node + "\n" + Dec(u.net);
    var bt, bu := at + "\n" + Dec(t.expire), au + "\n" + Dec(u.expire);
    HexHas(t.nonce, NONCE_HEX, '\n');
    HexHas(u.nonce, NONCE_HEX, '\n');
    SplitLast(t.nonce, u.nonce, bt, bu, '\n');
    NoNewline(t.expire);
    NoNewline(u.expire);
    SplitLast(Dec(t.expire), Dec(u.expire), at, au, '\n');
    NoNewline(t.net);
    NoNewline(u.net);
    SplitLast(Dec(t.net), Dec(u.net), t.node, u.node, '\n');
    DecInjective(t.expire, u.expire);
    DecInjective(t.net, u.net);
  }

  /** Different tokens have different signing texts, even when node ids contain newlines. */
  lemma SigningInjective(t: Token, u: Token)
    requires TokenOk(t) && TokenOk(u) && Signing(t) == Signing(u)
    ensures t == u
  {
    var a, b := Dec(t.user) + "\n" + Tail(t), Dec(u.user) + "\n" + Tail(u);
    assert (PREFIX + a)[|PREFIX|..] == a && (PREFIX + b)[|PREFIX|..] == b;
    NoNewline(t.user);
    NoNewline(u.user);
    SplitFirst(Dec(t.user), Dec(u.user), Tail(t), Tail(u), '\n');
    DecInjective(t.user, u.user);
    TailInjective(t, u);
  }

  // ---- Verifying ----------------------------------------------------------------------------------

  /** The text up to the first separator. */
  function Field(s: string): (f: string)
    ensures |f| <= |s| && f == s[..|f|] && '|' !in f
    ensures |f| < |s| ==> s[|f|] == '|'
  {
    if s == "" || s[0] == '|' then "" else [s[0]] + Field(s[1..])
  }

  /** What follows the first separator, if there is one. */
  function Following(s: string): Option<string> {
    if |Field(s)| < |s| then Some(s[|Field(s)| + 1..]) else None
  }

  lemma FieldIs(x: string, rest: string)
    requires '|' !in x
    ensures Field(x + "|" + rest) == x && Following(x + "|" + rest) == Some(rest)
    ensures Field(x) == x && Following(x) == None
  {
    var s := x + "|" + rest;
    var f := Field(s);
    assert s[|x|] == '|';
    assert forall k | 0 <= k < |x| :: s[k] == x[k] != '|';
    assert forall k | 0 <= k < |f| :: s[k] == f[k] != '|';
    assert |f| == |x|;
    assert s[..|x|] == x && s[|x| + 1..] == rest;
  }

  /** The first n fields; none if there are fewer. Taking a field after the last one fails. */
  function Fields(s: Option<string>, n: nat): (r: Option<(seq<string>, Option<string>)>)
    ensures r.Some? ==> |r.value.0| == n
    decreases n, s
  {
    if n == 0 then Some(([], s))
    else if s.None? then None
    else
      match Fields(Following(s.value), n - 1)
      case None => None
      case Some((fs, rest)) => Some(([Field(s.value)] + fs, rest))
  }

  function EqualIgnoringCase(a: string, b: string): bool {
    IsHex(a, SIGN_HEX) && IsHex(b, SIGN_HEX) && LowerAll(a) == LowerAll(b)
  }

  /** The token that seven fields spell, if they are the expected node's and network's and not expired. */
  function TokenOf(f: seq<string>, node: string, net: int, now: int): Option<Token>
    requires |f| == 7
  {
    var user, network, expire := ParseI64(f[1]), ParseI64(f[3]), ParseU64(f[4]);
    if f[0] != "ntap1" || user.None? || !NodeOk(f[2]) || f[2] != node
       || network != Some(net) || expire.None? || expire.value <= now
       || !IsHex(f[5], NONCE_HEX) || !IsHex(f[6], SIGN_HEX)
    then None
    else Some(Token(user.value, f[2], net, expire.value, f[5]))
  }

  function SignedBy(hash: Hash, key: string, t: Token, sign: string): bool {
    match Sign(hash, key, t)
    case None => false
    case Some(expected) => EqualIgnoringCase(sign, expected)
  }

  function Verify(hash: Hash, text: string, key: string, node: string, net: int, now: int): Option<Token> {
    if key == "" || !NodeOk(node) || net <= 0 || |text| >= TOKEN_MAX then None
    else
      match Fields(Some(text), 7)
      case None => None
      case Some((f, more)) =>
        if more.Some? then None
        else
          match TokenOf(f, node, net, now)
          case None => None
          case Some(t) => if SignedBy(hash, key, t, f[6]) then Some(t) else None
  }

  function FieldList(t: Token, sign: string): seq<string>
    requires TokenOk(t)
  {
    ["ntap1"] + ([Dec(t.user)] + ([t.node] + ([Dec(t.net)] + ([Dec(t.expire)] + ([t.nonce] + [sign])))))
  }

  lemma LastThree(t: Token, sign: string)
    requires TokenOk(t) && '|' !in sign
    ensures Fields(Some(Dec(t.expire) + "|" + (t.nonce + "|" + sign)), 3) == Some(([Dec(t.expire)] + ([t.nonce] + [sign]), None))
  {
    NoNewline(t.expire);
    HexHas(t.nonce, NONCE_HEX, '|');
    LastField(sign);
    NextField(t.nonce, sign, 1);
    NextField(Dec(t.expire), t.nonce + "|" + sign, 2);
  }

  lemma FieldsOfText(t: Token, sign: string)
    requires TokenOk(t) && '|' !in sign
    ensures Fields(Some(Text(t, sign)), 7) == Some((FieldList(t, sign), None))
  {
    var s4 := Dec(t.expire) + "|" + (t.nonce + "|" + sign);
    var s3 := Dec(t.net) + "|" + s4;
    var s2 := t.node + "|" + s3;
    NoNewline(t.user);
    NoNewline(t.net);
    LastThree(t, sign);
    NextField(Dec(t.net), s4, 3);
    NextField(t.node, s3, 4);
    NextField(Dec(t.user), s2, 5);
    NextField("ntap1", Dec(t.user) + "|" + s2, 6);
  }

  lemma LastField(x: string)
    requires '|' !in x
    ensures Fields(Some(x), 1) == Some(([x], None))
  {
    FieldIs(x, "");
    assert Fields(None, 0) == Some(([], None));
    assert [x] + [] == [x];
  }

  lemma NextField(x: string, rest: string, n: nat)
    requires '|' !in x
    ensures Fields(Some(x + "|" + rest), n + 1)
         == match Fields(Some(rest), n) case None => None case Some((fs, more)) => Some(([x] + fs, more))
  {
    FieldIs(x, rest);
  }

  /** A token that was made verifies before its expiry, to exactly the fields it was made of. */
  lemma MadeVerifies(hash: Hash, key: string, t: Token, now: int)
    requires TokenOk(t) && key != "" && now < t.expire
    ensures Make(hash, key, t, TOKEN_MAX).Some?
    ensures Verify(hash, Make(hash, key, t, TOKEN_MAX).value, key, t.node, t.net, now) == Some(t)
  {
    MakeSucceeds(hash, key, t);
    SigningFits(t);
    var sign := HexOf(hash(key, Signing(t)));
    HexHas(sign, SIGN_HEX, '|');
    FieldsOfText(t, sign);
    TokenOfFields(t, sign, now);
  }

  lemma TokenOfFields(t: Token, sign: string, now: int)
    requires TokenOk(t) && IsHex(sign, SIGN_HEX)
    ensures TokenOf(FieldList(t, sign), t.node, t.net, now) == if now < t.expire then Some(t) else None
    ensures FieldList(t, sign)[6] == sign
  {
    DecParses(t.user);
    DecParses(t.net);
    DecParses(t.expire);
    FieldListIs(t, sign);
    Spelled(FieldList(t, sign), t, now);
  }

  lemma FieldListIs(t: Token, sign: string)
    requires TokenOk(t)
    ensures var f := FieldList(t, sign);
            && |f| == 7 && f[0] == "ntap1" && f[1] == Dec(t.user) && f[2] == t.node && f[3] == Dec(t.net)
            && f[4] == Dec(t.expire) && f[5] == t.nonce && f[6] == sign
  {
  }

  lemma Spelled(f: seq<string>, t: Token, now: int)
    requires |f| == 7 && TokenOk(t) && f[0] == "ntap1" && f[2] == t.node && f[5] == t.nonce && IsHex(f[6], SIGN_HEX)
    requires ParseI64(f[1]) == Some(t.user) && ParseI64(f[3]) == Some(t.net) && ParseU64(f[4]) == Some(t.expire)
    ensures TokenOf(f, t.node, t.net, now) == if now < t.expire then Some(t) else None
  {
  }

  /** A token is made if and only if there is a key, the numbers are positive and fit 64 bits (signed for user
      and network), the node id is not empty, shorter than 512 characters and without '|', the nonce is 32
      hex digits, and the text fits. */
  lemma MakeExactly(hash: Hash, key: string, t: Token, outLen: nat)
    ensures Make(hash, key, t, outLen).Some? <==>
              && key != "" && 0 < t.user < 0x8000_0000_0000_0000 && 0 < t.net < 0x8000_0000_0000_0000
              && 0 < t.expire < 0x1_0000_0000_0000_0000
              && 0 < |t.node| < 512 && '|' !in t.node
              && |t.nonce| == 32 && (forall c | c in t.nonce :: '0' <= c <= '9' || 'a' <= c <= 'f' || 'A' <= c <= 'F')
              && |Text(t, HexOf(hash(key, Signing(t))))| < outLen
  {
    if |t.nonce| == 32 && (forall c | c in t.nonce :: '0' <= c <= '9' || 'a' <= c <= 'f' || 'A' <= c <= 'F') {
      forall i | 0 <= i < 32 ensures IsHexDigit(t.nonce[i]) {
        assert t.nonce[i] in t.nonce;
      }
    }
    if TokenOk(t) {
      SigningFits(t);
    }
  }

  /** The seven fields of a printed token, in numbers. */
  lemma PrintedFields(t: Token, sign: string)
    requires TokenOk(t) && '|' !in sign
    ensures var r := Fields(Some(Text(t, sign)), 7);
            && r.Some? && r.value.1 == None && |r.value.0| == 7
            && var f := r.value.0;
               && f[0] == "ntap1" && f[2] == t.node && f[5] == t.nonce && f[6] == sign
               && f[1] == Dec(t.user) && f[3] == Dec(t.net) && f[4] == Dec(t.expire)
               && Value(f[1]) == t.user && Value(f[3]) == t.net && Value(f[4]) == t.expire
  {
    FieldsOfText(t, sign);
    ValueOfDec(t.user);
    ValueOfDec(t.net);
    ValueOfDec(t.expire);
  }

  /** What the two texts look like. */
  lemma SampleToken()
    ensures var t := Token(7, "n", 42, 19, "ab");
            Signing(t) == "ntap-direct-v1\n7\nn\n42\n19\nab" && Text(t, "f0") == "ntap1|7|n|42|19|ab|f0"
    ensures HexOf([0x00, 0x9a, 0xff]) == "009aff"
  {
    var t := Token(7, "n", 42, 19, "ab");
    SampleNumbers();
    SampleSigning(t);
    SampleText(t);
    SampleHex();
  }

  lemma SampleNumbers()
    ensures Dec(7) == "7" && Dec(42) == "42" && Dec(19) == "19"
  {
    assert Dec(7) == "7" && Dec(42) == Dec(4) + "2" == "42" && Dec(19) == Dec(1) + "9" == "19";
  }

  lemma SampleHex()
    ensures HexOf([0x00, 0x9a, 0xff]) == "009aff"
  {
    assert [0x00, 0x9a, 0xff][1..] == [0x9a, 0xff] && [0x9a, 0xff][1..] == [0xff] && [0xff][1..] == [];
    assert HexOf([0xff]) == "ff" && HexOf([0x9a, 0xff]) == "9aff";
  }

  lemma SampleSigning(t: Token)
    requires t == Token(7, "n", 42, 19, "ab") && Dec(7) == "7" && Dec(42) == "42" && Dec(19) == "19"
    ensures Signing(t) == "ntap-direct-v1\n7\nn\n42\n19\nab"
  {
    assert Dec(19) + "\n" + t.nonce == "19\nab";
    assert Tail(t) == "n" + "\n" + "42" + "\n" + "19" + "\n" + "ab" == "n\n42\n19\nab";
    assert Dec(t.user) + "\n" + Tail(t) == "7\nn\n42\n19\nab";
  }

  lemma SampleText(t: Token)
    requires t == Token(7, "n", 42, 19, "ab") && Dec(7) == "7" && Dec(42) == "42" && Dec(19) == "19"
    ensures Text(t, "f0") == "ntap1|7|n|42|19|ab|f0"
  {
    assert "ab" + "|" + "f0" == "ab|f0";
    assert Dec(19) + "|" + "ab|f0" == "19|ab|f0";
    assert Dec(42) + "|" + "19|ab|f0" == "42|19|ab|f0";
    assert "n" + "|" + "42|19|ab|f0" == "n|42|19|ab|f0";
    assert Dec(7) + "|" + "n|42|19|ab|f0" == "7|n|42|19|ab|f0";
    assert "ntap1" + "|" + "7|n|42|19|ab|f0" == "ntap1|7|n|42|19|ab|f0";
  }

  /** A printed token with any 64 hex digits for a signature is accepted, with its fields, if and only if it
      has not expired and the digits spell, in either case, the keyed hash of its signing text. */
  lemma VerifyExactly(hash: Hash, key: string, t: Token, sign: string, now: int)
    requires TokenOk(t) && key != "" && IsHex(sign, 64)
    ensures Verify(hash, Text(t, sign), key, t.node, t.net, now)
         == if now < t.expire && LowerAll(sign) == HexOf(hash(key, Signing(t))) then Some(t) else None
  {
    SigningFits(t);
    HexHas(sign, SIGN_HEX, '|');
    FieldsOfText(t, sign);
    Lengths(t.user, t.expire);
    Lengths(t.net, t.expire);
    TokenOfFields(t, sign, now);
    var expected := HexOf(hash(key, Signing(t)));
    assert LowerAll(expected) == expected;
  }

  /** Fields joined by separators. */
  function Join(f: seq<string>): string {
    if |f| == 0 then "" else if |f| == 1 then f[0] else f[0] + "|" + Join(f[1..])
  }

  lemma {:induction false} FieldsJoin(s: string, n: nat)
    requires n > 0 && Fields(Some(s), n).Some? && Fields(Some(s), n).value.1 == None
    ensures s == Join(Fields(Some(s), n).value.0)
  {
    var f := Field(s);
    if n > 1 {
      var rest := Following(s).value;
      FieldsJoin(rest, n - 1);
      var tail := Fields(Some(rest), n - 1).value.0;
      assert ([f] + tail)[1..] == tail;
      assert s == f + "|" + rest;
    } else {
      assert Fields(Following(s), 0) == Some(([], Following(s)));
    }
  }

  lemma {:induction false} JoinFields(f: seq<string>, n: nat)
    requires |f| == n > 0 && NoneHasBar(f)
    ensures Fields(Some(Join(f)), n) == Some((f, None))
    decreases n
  {
    if n == 1 {
      OneField(f);
    } else {
      assert NoneHasBar(f[1..]);
      JoinFields(f[1..], n - 1);
      OneMoreField(f, Join(f[1..]), n);
      assert Join(f) == f[0] + "|" + Join(f[1..]);
    }
  }

  lemma OneField(f: seq<string>)
    requires |f| == 1 && '|' !in f[0]
    ensures Fields(Some(Join(f)), 1) == Some((f, None))
  {
    LastField(f[0]);
    assert [f[0]] == f;
  }

  lemma OneMoreField(f: seq<string>, rest: string, n: nat)
    requires |f| == n > 0 && '|' !in f[0] && Fields(Some(rest), n - 1) == Some((f[1..], None))
    ensures Fields(Some(f[0] + "|" + rest), n) == Some((f, None))
  {
    NextField(f[0], rest, n - 1);
    assert f == [f[0]] + f[1..];
  }

  /** What the verifier asks of a text of seven fields. */
  predicate Meets(hash: Hash, f: seq<string>, key: string, node: string, net: int, now: int, t: Token)
    requires |f| == 7
  {
    && f[0] == "ntap1" && ParseI64(f[1]) == Some(t.user) && f[2] == node == t.node
    && ParseI64(f[3]) == Some(net) && net == t.net && ParseU64(f[4]) == Some(t.expire) && now < t.expire
    && f[5] == t.nonce && IsHex(t.nonce, 32)
    && IsHex(f[6], 64) && LowerAll(f[6]) == HexOf(hash(key, Signing(t)))
  }

  /** A text is accepted, as a token, if and only if it is shorter than 1024 characters and consists of exactly
      seven fields that meet what is asked, for a nonempty key, a proper node id and a positive network. */
  lemma AcceptedExactly(hash: Hash, text: string, key: string, node: string, net: int, now: int, t: Token)
    requires t.user > 0 && t.net > 0 && t.expire > 0
    ensures Verify(hash, text, key, node, net, now) == Some(t) <==>
              && key != "" && 0 < |node| < 512 && '|' !in node && net > 0 && |text| < 1024
              && exists f: seq<string> :: |f| == 7 && text == Join(f) && NoneHasBar(f) && Meets(hash, f, key, node, net, now, t)
  {
    if Verify(hash, text, key, node, net, now) == Some(t) {
      var f := Fields(Some(text), 7).value.0;
      FieldsJoin(text, 7);
      NoSeparators(Some(text), 7);
      AcceptedIsSigned(hash, text, key, node, net, now, t);
      assert NoneHasBar(f) && Meets(hash, f, key, node, net, now, t);
    }
    if f: seq<string> :| |f| == 7 && text == Join(f) && NoneHasBar(f) && Meets(hash, f, key, node, net, now, t) {
      JoinFields(f, 7);
      MeetsIsToken(hash, f, key, node, net, now, t);
    }
  }

  predicate NoneHasBar(f: seq<string>) {
    forall i | 0 <= i < |f| :: '|' !in f[i]
  }

  lemma {:induction false} NoSeparators(s: Option<string>, n: nat)
    requires Fields(s, n).Some?
    ensures NoneHasBar(Fields(s, n).value.0)
    decreases n
  {
    if n > 0 {
      NoSeparators(Following(s.value), n - 1);
    }
  }

  lemma MeetsIsToken(hash: Hash, f: seq<string>, key: string, node: string, net: int, now: int, t: Token)
    requires |f| == 7 && t.user > 0 && t.net > 0 && t.expire > 0 && Meets(hash, f, key, node, net, now, t)
    ensures key != "" && NodeOk(node) && net > 0 ==>
              TokenOf(f, node, net, now) == Some(t) && SignedBy(hash, key, t, f[6])
  {
    if key != "" && NodeOk(node) && net > 0 {
      SigningFits(t);
      var expected := HexOf(hash(key, Signing(t)));
      assert LowerAll(expected) == expected;
    }
  }

  predicate Blanks(s: string) {
    forall i | 0 <= i < |s| :: s[i] == ' ' || '\t' <= s[i] <= '\r'
  }

  /** How numbers are read: after any blanks and one sign, digits alone. User and network must be positive and
      saturate at 2^63-1; the expiry must not be zero, wraps under a minus sign and saturates at 2^64-1. */
  lemma NumbersAre(blanks: string, sign: string, digits: string)
    requires Blanks(blanks) && sign in {"", "+", "-"} && Digits(digits)
    ensures ParseI64(blanks + (sign + digits))
         == if sign == "-" || Value(digits) == 0 then None
            else Some(if Value(digits) < 0x8000_0000_0000_0000 then Value(digits) else 0x7fff_ffff_ffff_ffff)
    ensures ParseU64(blanks + (sign + digits))
         == if Value(digits) == 0 then None
            else if Value(digits) >= 0x1_0000_0000_0000_0000 then Some(0xffff_ffff_ffff_ffff)
            else Some(if sign == "-" then 0x1_0000_0000_0000_0000 - Value(digits) else Value(digits))
  {
    NotBlank(sign, digits);
    Skipped(blanks, sign + digits);
    ScanAfterBlanks(blanks + (sign + digits), sign, digits);
    InRange(blanks + (sign + digits), sign == "-", Value(digits));
  }

  lemma InRange(text: string, minus: bool, n: nat)
    requires ScanInt(text) == Some(if minus then 0 - n else n)
    ensures ParseI64(text)
         == if minus || n == 0 then None else Some(if n < 0x8000_0000_0000_0000 then n else 0x7fff_ffff_ffff_ffff)
    ensures ParseU64(text)
         == if n == 0 then None
            else if n >= 0x1_0000_0000_0000_0000 then Some(0xffff_ffff_ffff_ffff)
            else Some(if minus then 0x1_0000_0000_0000_0000 - n else n)
  {
  }

  /** Nothing else is read as a number. */
  lemma NothingElseRead(text: string) returns (blanks: string, sign: string, digits: string)
    requires ParseI64(text).Some? || ParseU64(text).Some?
    ensures text == blanks + (sign + digits) && Blanks(blanks) && sign in {"", "+", "-"} && Digits(digits)
  {
    blanks := Leading(text);
    var s := SkipSpace(text);
    var signed := s[0] == '-' || s[0] == '+';
    sign := if signed then s[..1] else "";
    digits := if signed then s[1..] else s;
    assert s == sign + digits;
    assert signed ==> sign == [s[0]];
  }

  lemma {:induction false} Leading(text: string) returns (blanks: string)
    ensures text == blanks + SkipSpace(text) && Blanks(blanks)
  {
    if text != "" && IsSpace(text[0]) {
      var rest := Leading(text[1..]);
      blanks := [text[0]] + rest;
    } else {
      blanks := "";
    }
  }

  lemma NotBlank(sign: string, digits: string)
    requires sign in {"", "+", "-"} && Digits(digits)
    ensures sign + digits != "" && !IsSpace((sign + digits)[0])
  {
    if sign == "" {
      assert sign + digits == digits && IsDigit(digits[0]);
    } else {
      assert (sign + digits)[0] == sign[0];
    }
  }

  lemma ScanAfterBlanks(text: string, sign: string, digits: string)
    requires SkipSpace(text) == sign + digits && sign in {"", "+", "-"} && Digits(digits)
    ensures ScanInt(text) == Some(if sign == "-" then 0 - Value(digits) else Value(digits))
  {
    var s := SkipSpace(text);
    if sign == "" {
      assert s == digits && IsDigit(s[0]);
    } else {
      assert s[0] == sign[0] && s[1..] == digits;
    }
  }

  lemma {:induction false} Skipped(blanks: string, rest: string)
    requires Blanks(blanks) && rest != "" && !IsSpace(rest[0])
    ensures SkipSpace(blanks + rest) == rest
  {
    if blanks == "" {
      assert blanks + rest == rest;
    } else {
      assert (blanks + rest)[1..] == blanks[1..] + rest && (blanks + rest)[0] == blanks[0];
      Skipped(blanks[1..], rest);
    }
  }

  /** Each byte is two digits, the high half first, in lower case. */
  lemma {:induction false} HexSpells(bytes: seq<byte>, i: nat)
    requires i < |bytes|
    ensures var s := HexOf(bytes);
            LowerHex(s[2 * i]) == Some(bytes[i] / 16) && LowerHex(s[2 * i + 1]) == Some(bytes[i] % 16)
  {
    if i > 0 {
      HexSpells(bytes[1..], i - 1);
    }
  }

  function LowerHex(c: char): Option<int> {
    if '0' <= c <= '9' then Some(c as int - '0' as int)
    else if 'a' <= c <= 'f' then Some(c as int - 'a' as int + 10)
    else None
  }

  /** An accepted token names the expected node and network, has not expired, and its signature field is,
      up to letter case, the keyed hash of the signing text of the very fields returned. */
  lemma AcceptedIsSigned(hash: Hash, text: string, key: string, node: string, net: int, now: int, t: Token)
    requires Verify(hash, text, key, node, net, now) == Some(t)
    ensures TokenOk(t) && t.node == node && t.net == net && now < t.expire
    ensures Fields(Some(text), 7).Some? && |Fields(Some(text), 7).value.0| == 7
    ensures LowerAll(Fields(Some(text), 7).value.0[6]) == HexOf(hash(key, Signing(t)))
  {
    var sign := HexOf(hash(key, Signing(t)));
    assert LowerAll(sign) == sign;
  }

  /** Two accepted texts with different fields carry hashes of different texts. */
  lemma AcceptedHashesDiffer(hash: Hash, a: string, b: string, key: string, node: string, net: int, now: int, t: Token, u: Token)
    requires Verify(hash, a, key, node, net, now) == Some(t) && Verify(hash, b, key, node, net, now) == Some(u) && t != u
    ensures Signing(t) != Signing(u)
  {
    AcceptedIsSigned(hash, a, key, node, net, now, t);
    AcceptedIsSigned(hash, b, key, node, net, now, u);
    if Signing(t) == Signing(u) {
      SigningInjective(t, u);
    }
  }
}
