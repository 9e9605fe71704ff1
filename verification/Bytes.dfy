/** Octets, fixed-width unsigned integers and the big-endian layout of the wire format. */
module Bytes {
  type byte = b: int | 0 <= b < 0x100
  type u16 = n: int | 0 <= n < 0x1_0000
  type u32 = n: int | 0 <= n < 0x1_0000_0000

  const U32_MOD := 0x1_0000_0000
  const U64_MOD := 0x1_0000_0000_0000_0000

  datatype Option<+T> = None | Some(value: T)

  /** Unsigned 64-bit subtraction, which wraps below zero. */
  function Sub64(a: int, b: int): int {
    if a >= b then a - b else a - b + U64_MOD
  }

  /** A sum kept in a uint32_t. */
  function Wrap32(n: int): (r: int)
    ensures 0 <= n < U32_MOD ==> r == n
    ensures 0 <= r < U32_MOD
  {
    n % U32_MOD
  }

  /** A uint32_t converted to int. */
  function AsInt32(n: int): int {
    if n < 0x8000_0000 then n else n - U32_MOD
  }

  function Be16(v: u16): (s: seq<byte>)
    ensures |s| == 2
  {
    [v / 0x100, v % 0x100]
  }

  function Be32(v: u32): (s: seq<byte>)
    ensures |s| == 4
  {
    Be16(v / 0x1_0000) + Be16(v % 0x1_0000)
  }

  function Get16(s: seq<byte>): u16
    requires |s| >= 2
  {
    (s[0] as int) * 0x100 + s[1]
  }

  function Get32(s: seq<byte>): u32
    requires |s| >= 4
  {
    (Get16(s) as int) * 0x1_0000 + Get16(s[2..])
  }

  lemma Get16OfBe16(v: u16, rest: seq<byte>)
    ensures Get16(Be16(v) + rest) == v
  {
  }

  lemma Get32OfBe32(v: u32, rest: seq<byte>)
    ensures Get32(Be32(v) + rest) == v
  {
    assert (Be32(v) + rest)[2..] == Be16(v % 0x1_0000) + rest;
  }

  lemma Be16OfGet16(s: seq<byte>)
    requires |s| >= 2
    ensures Be16(Get16(s)) == s[..2]
  {
  }

  lemma Be32OfGet32(s: seq<byte>)
    requires |s| >= 4
    ensures Be32(Get32(s)) == s[..4]
  {
    var hi, lo := Get16(s), Get16(s[2..]);
    assert Get32(s) / 0x1_0000 == hi && Get32(s) % 0x1_0000 == lo;
    Be16OfGet16(s);
    Be16OfGet16(s[2..]);
  }
}
