/** The SOCKS stream table updated in place; every method is proved to take the step of Socks.dfy. */
module SocksServer {
  import opened Bytes
  import opened Scan
  import opened Socks

  class Table {
    const slots: array<Stream>
    var nextId: u32
    var log: seq<Effect>  // shutdowns and row ends, in the order they are made

    ghost predicate Valid()
      reads this
    {
      slots.Length == MAX_STREAMS
    }

    ghost function View(): Registry
      reads this, slots
    {
      Registry(slots[..], nextId)
    }

    constructor ()
      ensures Valid() && fresh(slots) && View() == EMPTY && log == []
    {
      slots := new Stream[MAX_STREAMS](_ => NO_STREAM);
      nextId, log := 1, [];
    }

    method FindStream(id: u32) returns (i: int)
      ensures i == First(slots[..], IdKey(id))
    {
      i := 0;
      while i < slots.Length
        invariant 0 <= i <= slots.Length
        invariant forall k | 0 <= k < i :: !IdKey(id)(slots[k])
      {
        if slots[i].active && slots[i].id == id {
          FirstIs(slots[..], IdKey(id), i);
          return;
        }
        i := i + 1;
      }
      FirstIs(slots[..], IdKey(id), -1);
      i := -1;
    }

    method FindNodeStream(id: u32, nodeFd: int) returns (i: int)
      ensures i == First(slots[..], NodeStreamKey(id, nodeFd))
    {
      i := 0;
      while i < slots.Length
        invariant 0 <= i <= slots.Length
        invariant forall k | 0 <= k < i :: !NodeStreamKey(id, nodeFd)(slots[k])
      {
        if slots[i].active && slots[i].id == id && slots[i].nodeFd == nodeFd {
          FirstIs(slots[..], NodeStreamKey(id, nodeFd), i);
          return;
        }
        i := i + 1;
      }
      FirstIs(slots[..], NodeStreamKey(id, nodeFd), -1);
      i := -1;
    }

    method FindFree() returns (i: int)
      ensures i == First(slots[..], Free())
    {
      i := 0;
      while i < slots.Length
        invariant 0 <= i <= slots.Length
        invariant forall k | 0 <= k < i :: !Free()(slots[k])
      {
        if !slots[i].active {
          FirstIs(slots[..], Free(), i);
          return;
        }
        i := i + 1;
      }
      FirstIs(slots[..], Free(), -1);
      i := -1;
    }

    method CountNode(pk: int) returns (n: nat)
      ensures n == Count(slots[..], NodeKey(pk))
    {
      n := 0;
      var i := 0;
      while i < slots.Length
        invariant 0 <= i <= slots.Length
        invariant n == Count(slots[..i], NodeKey(pk))
      {
        CountPrefix(slots[..], i, NodeKey(pk));
        assert slots[..][..i] == slots[..i] && slots[..][..i + 1] == slots[..i + 1];
        if slots[i].active && slots[i].nodePk == pk {
          n := n + 1;
        }
        i := i + 1;
      }
      assert slots[..i] == slots[..];
    }

    method NextStreamId() returns (id: u32)
      modifies this`nextId
      ensures (id, nextId) == TakeId(old(nextId))
      decreases nextId == 0
    {
      id := nextId;
      nextId := if nextId + 1 == U32_MOD then 0 else nextId + 1;
      if nextId == 0 {
        nextId := 1;
      }
      if id == 0 {
        id := NextStreamId();
      }
    }

    method Register(pk: int, nodeFd: int, clientFd: int, dbFile: string, max: u32) returns (id: u32)
      requires Valid()
      modifies this`nextId, slots
      ensures (View(), id) == Open(old(View()), pk, nodeFd, clientFd, dbFile, max)
    {
      if pk <= 0 || nodeFd == INVALID_SOCKET || clientFd == INVALID_SOCKET || dbFile == "" {
        return 0;
      }
      var cap := if max == 0 then DEFAULT_MAX_STREAMS else max;
      var n := CountNode(pk);
      if n >= cap {
        return 0;
      }
      var i := FindFree();
      if i < 0 {
        return 0;
      }
      id := NextStreamId();
      slots[i] := Stream(true, id, pk, 0, nodeFd, clientFd, false, false, dbFile);
    }

    method SetDbId(id: u32, dbId: int)
      requires Valid()
      modifies slots
      ensures View() == AttachRow(old(View()), id, dbId)
    {
      if id == 0 || dbId <= 0 {
        return;
      }
      var i := FindStream(id);
      if i >= 0 {
        slots[i] := slots[i].(dbId := dbId);
      }
    }

    method EndDb(i: nat, s: Stream, reason: Reason)
      modifies this`log
      ensures log == old(log) + EndOf(i, s, reason)
    {
      if s.dbId <= 0 || s.dbFile == "" {
        return;
      }
      log := log + [EndRow(i, s.dbFile, s.dbId, reason)];
    }

    method UnregisterStream(id: u32, closeClient: bool, reason: Reason)
      requires Valid()
      modifies this`log, slots
      ensures View() == Unregister(old(View()), id, closeClient, reason).0
      ensures log == old(log) + Unregister(old(View()), id, closeClient, reason).1
    {
      if id == 0 {
        return;
      }
      var i := FindStream(id);
      if i < 0 {
        return;
      }
      var s := slots[i];
      slots[i] := s.(active := false);
      if closeClient && s.clientFd != INVALID_SOCKET {
        log := log + [Shutdown(i, s.clientFd)];
      }
      EndDb(i, s, reason);
    }

    method MarkClientFin(id: u32, reason: Reason)
      requires Valid()
      modifies this`log, slots
      ensures View() == ClientFin(old(View()), id, reason).0
      ensures log == old(log) + ClientFin(old(View()), id, reason).1
    {
      if id == 0 {
        return;
      }
      var i := FindStream(id);
      if i < 0 {
        return;
      }
      var s := slots[i];
      var complete := s.nodeFin;
      slots[i] := s.(clientFin := true, active := !complete);
      if complete {
        EndDb(i, s, reason);
      }
    }

    method HandleNodeClose(id: u32, nodeFd: int, code: u16, flags: u16)
      requires Valid()
      modifies this`log, slots
      ensures View() == NodeClose(old(View()), id, nodeFd, code, flags).0
      ensures log == old(log) + NodeClose(old(View()), id, nodeFd, code, flags).1
    {
      if flags % 2 == 0 {
        UnregisterStream(id, true, ReasonOf(code));
        return;
      }
      if id == 0 || nodeFd == INVALID_SOCKET {
        return;
      }
      var i := FindNodeStream(id, nodeFd);
      if i < 0 {
        return;
      }
      var s := slots[i];
      var complete := s.clientFin;
      slots[i] := s.(nodeFin := true, active := !complete);
      if s.clientFd != INVALID_SOCKET {
        log := log + [ShutdownSend(i, s.clientFd)];
      }
      if complete {
        EndDb(i, s, ReasonOf(code));
      }
    }

    /** Collects the node's streams under the lock, then shuts them down and ends their rows. */
    method CloseNode(nodeFd: int)
      requires Valid()
      modifies this`log, slots
      ensures View() == NodeGone(old(View()), nodeFd).0
      ensures log == old(log) + NodeGone(old(View()), nodeFd).1
    {
      if nodeFd == INVALID_SOCKET {
        return;
      }
      ghost var before := slots[..];
      var pending: seq<Effect> := [];
      var i := 0;
      while i < slots.Length
        invariant 0 <= i <= slots.Length
        invariant forall k | 0 <= k < slots.Length :: slots[k] == if k < i then CloseSlot(before[k], nodeFd) else before[k]
        invariant |before| == slots.Length
        invariant pending == NodeGoneEffects(before[..i], nodeFd)
        invariant nextId == old(nextId) && log == old(log)
      {
        var s := slots[i];
        GoneNext(before, i, nodeFd);
        if s.active && s.nodeFd == nodeFd {
          pending := pending + ([Shutdown(i, s.clientFd)] + EndOf(i, s, Reason.NodeClosed));
          slots[i] := s.(active := false);
        }
        i := i + 1;
      }
      assert before[..i] == before && slots[..] == NodeGone(Registry(before, nextId), nodeFd).0.slots;
      log := log + pending;
    }
  }
}
