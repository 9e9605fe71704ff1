/** The growable byte buffer of the encoders. */
module Buffer {
  import opened Bytes

  const SIZE_MAX := U64_MOD - 1
  const FIRST_CAP := 256

  /** Doubles a capacity until it reaches what is needed; near the end of the size range, where
      doubling would overflow, takes exactly what is needed. */
  method Grow(cap: nat, need: nat) returns (next: nat)
    requires cap <= SIZE_MAX && need <= SIZE_MAX
    ensures need <= next <= SIZE_MAX
    ensures next == cap || next == FIRST_CAP || next < 2 * need
  {
    next := if cap == 0 then FIRST_CAP else cap;
    while next < need
      invariant 0 < next <= SIZE_MAX
      invariant next == cap || next == FIRST_CAP || next < 2 * need
      decreases need - next
    {
      if next > SIZE_MAX / 2 {
        next := need;
        break;
      }
      next := next * 2;
    }
  }

  class ByteBuffer {
    var data: array<byte>  // its length is the capacity
    var len: nat
    ghost var Repr: set<object>

    ghost predicate Valid()
      reads this, Repr
    {
      this in Repr && data in Repr && len <= data.Length <= SIZE_MAX
    }

    ghost function Contents(): seq<byte>
      requires Valid()
      reads this, Repr
    {
      data[..len]
    }

    constructor ()
      ensures Valid() && fresh(Repr) && Contents() == []
    {
      data := new byte[0];
      len := 0;
      Repr := {this, data};
    }

    method Reserve(cap: nat)
      requires Valid() && cap <= SIZE_MAX
      modifies Repr
      ensures Valid() && fresh(Repr - old(Repr)) && Contents() == old(Contents())
      ensures data.Length >= cap && data.Length >= old(data.Length)
      ensures cap <= old(data.Length) ==> data == old(data)
    {
      if cap <= data.Length {
        return;
      }
      var next := new byte[cap];
      forall i | 0 <= i < len {
        next[i] := data[i];
      }
      data := next;
      Repr := Repr + {next};
    }

    /** Appends exactly the given bytes, unless the length would pass the size range. */
    method Append(bytes: seq<byte>) returns (ok: bool)
      requires Valid() && |bytes| <= SIZE_MAX
      modifies Repr
      ensures Valid() && fresh(Repr - old(Repr))
      ensures ok == (|old(Contents())| + |bytes| <= SIZE_MAX)
      ensures Contents() == if ok then old(Contents()) + bytes else old(Contents())
    {
      if |bytes| == 0 {
        return true;
      }
      if len > SIZE_MAX - |bytes| {
        return false;
      }
      if len + |bytes| > data.Length {
        var next := Grow(data.Length, len + |bytes|);
        Reserve(next);
      }
      ghost var before := data[..len];
      forall i | 0 <= i < |bytes| {
        data[len + i] := bytes[i];
      }
      len := len + |bytes|;
      assert data[..len] == before + bytes;
      ok := true;
    }
  }
}
