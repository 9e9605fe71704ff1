/** What holds of the SOCKS stream registry in every run. */
module SocksRuns {
  import opened Bytes
  import opened Scan
  import opened Socks

  // ---- Stream ids ------------------------------------------------------------------------

  /** The counter never holds zero, so the retry in the allocator is dead and the n-th id is
      n mod (2^32-1) plus one. */
  lemma TakeIdIs(n: nat)
    ensures TakeId(IdOf(n)) == (IdOf(n), IdOf(n + 1))
  {
  }

  lemma IdsDiffer(a: nat, b: nat)
    requires a < b < a + ID_COUNT
    ensures IdOf(a) != IdOf(b)
  {
    var q, q' := a / ID_COUNT, b / ID_COUNT;
    assert a == q * ID_COUNT + a % ID_COUNT && b == q' * ID_COUNT + b % ID_COUNT;
  }

  // ---- One step ---------------------------------------------------------------------------

  lemma OpenInv(t: State, e: Event)
    requires Inv(t) && e.OpenStream?
    ensures Inv(Step(t, e))
  {
    var t' := Step(t, e);
    TakeIdIs(t.count);
    if t' != t {
      var i := First(t.reg.slots, Free());
      assert Holds(t', t.count, i);
      forall k: nat ensures LastRow(t'.hist, k) == LastRow(t.hist, k) && EndedRows(t'.hist, k) == EndedRows(t.hist, k) {}
      forall j | 0 <= j < MAX_STREAMS
        ensures SlotOk(t', j) && (j != i && t.reg.slots[j].active ==> t.serials[j] < t.count)
      {
        assert SlotOk(t, j);
      }
      forall k: nat ensures Settled(t', k) {
        assert Settled(t, k);
        if IsOpen(t, k) {
          var j :| 0 <= j < |t.serials| && Holds(t, k, j);
          assert Holds(t', k, j);
        }
      }
    }
  }

  lemma SameOpen(t: State, t': State, k: nat)
    requires |t.reg.slots| == |t'.reg.slots| && t'.serials == t.serials
    requires forall i | 0 <= i < |t.reg.slots| && t.serials == t'.serials && i < |t.serials| && t.serials[i] == k ::
      t'.reg.slots[i].active == t.reg.slots[i].active
    ensures IsOpen(t', k) == IsOpen(t, k)
  {
    if IsOpen(t, k) {
      var j :| 0 <= j < |t.serials| && Holds(t, k, j);
      assert Holds(t', k, j);
    }
    if IsOpen(t', k) {
      var j :| 0 <= j < |t.serials| && Holds(t', k, j);
      assert Holds(t, k, j);
    }
  }

  lemma AttachInv(t: State, e: Event)
    requires Inv(t) && e.Attach?
    ensures Inv(Step(t, e))
  {
    var t' := Step(t, e);
    var i := First(t.reg.slots, IdKey(e.id));
    if e.id != 0 && e.dbId > 0 && i >= 0 {
      var mine := t.serials[i];
      assert SlotOk(t, i) && Holds(t', mine, i);
      forall j | 0 <= j < MAX_STREAMS ensures SlotOk(t', j) {
        assert SlotOk(t, j);
      }
      forall k: nat ensures Settled(t', k) {
        assert Settled(t, k);
        SameOpen(t, t', k);
      }
      forall k | k >= t.count ensures LastRow(t'.hist, k) == 0 && EndedRows(t'.hist, k) == [] {}
    } else {
      assert t' == t;
    }
  }

  /** A FIN that does not complete the stream changes nothing but the flag. */
  lemma FlagInv(t: State, i: nat, s: Stream)
    requires Inv(t) && i < MAX_STREAMS && t.reg.slots[i].active
    requires s == t.reg.slots[i].(clientFin := s.clientFin, nodeFin := s.nodeFin) && !(s.clientFin && s.nodeFin)
    ensures Inv(t.(reg := t.reg.(slots := t.reg.slots[i := s])))
  {
    var t' := t.(reg := t.reg.(slots := t.reg.slots[i := s]));
    forall k: nat ensures Settled(t', k) {
      assert Settled(t, k);
      SameOpen(t, t', k);
    }
    forall j | 0 <= j < MAX_STREAMS ensures SlotOk(t', j) {
      assert SlotOk(t, j);
    }
  }

  function EndOfSlot(t: State, i: nat): Record
    requires i < |t.reg.slots| && i < |t.serials|
  {
    Ended(t.serials[i], t.reg.slots[i].dbFile, t.reg.slots[i].dbId)
  }

  /** Closing the stream of one slot and ending its row, if it has one. */
  lemma CloseInv(t: State, i: nat, s: Stream)
    requires Inv(t) && i < MAX_STREAMS && t.reg.slots[i].active && !s.active
    ensures Inv(t.(reg := t.reg.(slots := t.reg.slots[i := s]),
                   hist := if t.reg.slots[i].dbId > 0 then Then(t.hist, EndOfSlot(t, i)) else t.hist))
  {
    var old_k := t.serials[i];
    var t' := t.(reg := t.reg.(slots := t.reg.slots[i := s]),
                 hist := if t.reg.slots[i].dbId > 0 then Then(t.hist, EndOfSlot(t, i)) else t.hist);
    assert SlotOk(t, i);
    forall k: nat ensures LastRow(t'.hist, k) == LastRow(t.hist, k) {}
    forall k: nat ensures Settled(t', k) {
      assert Settled(t, k);
      if k != old_k {
        SameOpen(t, t', k);
      }
    }
    forall j | 0 <= j < MAX_STREAMS ensures SlotOk(t', j) {
      assert SlotOk(t, j);
    }
    forall k | k >= t.count ensures LastRow(t'.hist, k) == 0 && EndedRows(t'.hist, k) == [] {}
  }

  /** Effects of one slot end at most that slot's row. */
  lemma RecordOne(h: History, shut: seq<Effect>, serials: seq<nat>, i: nat, s: Stream, reason: Reason)
    requires i < |serials| && s.dbFile != "" && |shut| <= 1 && (shut != [] ==> !shut[0].EndRow?)
    ensures RecordEnds(h, shut + EndOf(i, s, reason), serials) == if s.dbId > 0 then Then(h, Ended(serials[i], s.dbFile, s.dbId)) else h
  {
    var fx := shut + EndOf(i, s, reason);
    assert shut != [] ==> shut[..0] == [];
    assert RecordEnds(h, shut, serials) == h;
    if s.dbId > 0 {
      assert fx[..|fx| - 1] == shut;
    } else {
      assert fx == shut;
    }
  }

  lemma RecordNone(h: History, x: Effect, serials: seq<nat>)
    requires !x.EndRow?
    ensures RecordEnds(h, [x], serials) == h && RecordEnds(h, [], serials) == h
  {
    assert [x][..0] == [];
  }

  lemma DropInv(t: State, e: Event)
    requires Inv(t) && e.Drop?
    ensures Inv(Step(t, e))
  {
    var i := First(t.reg.slots, IdKey(e.id));
    if e.id != 0 && i >= 0 {
      var s := t.reg.slots[i];
      assert SlotOk(t, i);
      RecordOne(t.hist, if e.closeClient && s.clientFd != INVALID_SOCKET then [Shutdown(i, s.clientFd)] else [],
                t.serials, i, s, e.reason);
      CloseInv(t, i, s.(active := false));
    }
  }

  lemma ClientFinInv(t: State, e: Event)
    requires Inv(t) && e.FinFromClient?
    ensures Inv(Step(t, e))
  {
    var i := First(t.reg.slots, IdKey(e.id));
    if e.id != 0 && i >= 0 {
      var s := t.reg.slots[i];
      assert SlotOk(t, i);
      if s.nodeFin {
        RecordOne(t.hist, [], t.serials, i, s, e.reason);
        assert [] + EndOf(i, s, e.reason) == EndOf(i, s, e.reason);
        CloseInv(t, i, s.(clientFin := true, active := false));
      } else {
        FlagInv(t, i, s.(clientFin := true));
      }
    }
  }

  lemma NodeFinInv(t: State, e: Event)
    requires Inv(t) && e.CloseFromNode? && e.flags % 2 != 0
    ensures Inv(Step(t, e))
  {
    var i := First(t.reg.slots, NodeStreamKey(e.id, e.nodeFd));
    if e.id != 0 && e.nodeFd != INVALID_SOCKET && i >= 0 {
      var s := t.reg.slots[i];
      assert SlotOk(t, i);
      if s.clientFin {
        RecordOne(t.hist, if s.clientFd != INVALID_SOCKET then [ShutdownSend(i, s.clientFd)] else [],
                  t.serials, i, s, ReasonOf(e.code));
        CloseInv(t, i, s.(nodeFin := true, active := false));
      } else {
        RecordNone(t.hist, ShutdownSend(i, s.clientFd), t.serials);
        FlagInv(t, i, s.(nodeFin := true));
      }
    }
  }

  // ---- A node leaves ----------------------------------------------------------------------

  lemma {:induction false} RecordConcat(h: History, a: seq<Effect>, b: seq<Effect>, serials: seq<nat>)
    ensures RecordEnds(h, a + b, serials) == RecordEnds(RecordEnds(h, a, serials), b, serials)
  {
    if b == [] {
      assert a + b == a;
    } else {
      assert (a + b)[..|a + b| - 1] == a + b[..|b| - 1];
      RecordConcat(h, a, b[..|b| - 1], serials);
    }
  }

  /** The first n slots closed for a node, with their rows ended. */
  function ClosedUpTo(t: State, nodeFd: int, n: nat): State
    requires n <= |t.reg.slots|
  {
    t.(reg := t.reg.(slots := seq(|t.reg.slots|, i requires 0 <= i < |t.reg.slots| =>
                       if i < n then CloseSlot(t.reg.slots[i], nodeFd) else t.reg.slots[i])),
       hist := RecordEnds(t.hist, NodeGoneEffects(t.reg.slots[..n], nodeFd), t.serials))
  }

  lemma RecordSlotGone(h: History, serials: seq<nat>, n: nat, s: Stream, nodeFd: int)
    requires n < |serials| && (s.active ==> s.dbFile != "")
    ensures RecordEnds(h, SlotGoneEffects(n, s, nodeFd), serials)
         == if s.active && s.nodeFd == nodeFd && s.dbId > 0 then Then(h, Ended(serials[n], s.dbFile, s.dbId)) else h
  {
    if s.active && s.nodeFd == nodeFd {
      RecordOne(h, [Shutdown(n, s.clientFd)], serials, n, s, Reason.NodeClosed);
    }
  }

  lemma RecordNext(t: State, nodeFd: int, n: nat)
    requires |t.reg.slots| == |t.serials| && n < |t.serials| && (t.reg.slots[n].active ==> t.reg.slots[n].dbFile != "")
    ensures var s, h1, h2 := t.reg.slots[n], ClosedUpTo(t, nodeFd, n).hist, ClosedUpTo(t, nodeFd, n + 1).hist;
            h2 == if s.active && s.nodeFd == nodeFd && s.dbId > 0 then Then(h1, Ended(t.serials[n], s.dbFile, s.dbId)) else h1
  {
    var s, slots := t.reg.slots[n], t.reg.slots;
    GoneNext(slots, n, nodeFd);
    RecordConcat(t.hist, NodeGoneEffects(slots[..n], nodeFd), SlotGoneEffects(n, s, nodeFd), t.serials);
    RecordSlotGone(ClosedUpTo(t, nodeFd, n).hist, t.serials, n, s, nodeFd);
  }

  lemma CloseNext(t: State, nodeFd: int, n: nat)
    requires |t.reg.slots| == |t.serials| == MAX_STREAMS && n < MAX_STREAMS && (t.reg.slots[n].active ==> t.reg.slots[n].dbFile != "")
    ensures var s, t1, t2 := t.reg.slots[n], ClosedUpTo(t, nodeFd, n), ClosedUpTo(t, nodeFd, n + 1);
            && t1.reg.slots[n] == s
            && t2 == if s.active && s.nodeFd == nodeFd
                     then t1.(reg := t1.reg.(slots := t1.reg.slots[n := s.(active := false)]),
                              hist := if s.dbId > 0 then Then(t1.hist, EndOfSlot(t, n)) else t1.hist)
                     else t1
  {
    var s := t.reg.slots[n];
    var t1, t2 := ClosedUpTo(t, nodeFd, n), ClosedUpTo(t, nodeFd, n + 1);
    RecordNext(t, nodeFd, n);
    if s.active && s.nodeFd == nodeFd {
      assert t2.reg.slots == t1.reg.slots[n := s.(active := false)];
    } else {
      assert t2.reg.slots == t1.reg.slots;
    }
  }

  lemma {:induction false} NodeLeftInv(t: State, nodeFd: int, n: nat)
    requires Inv(t) && n <= MAX_STREAMS
    ensures Inv(ClosedUpTo(t, nodeFd, n))
  {
    if n == 0 {
      assert ClosedUpTo(t, nodeFd, 0).reg.slots == t.reg.slots;
      assert ClosedUpTo(t, nodeFd, 0) == t;
    } else {
      NodeLeftInv(t, nodeFd, n - 1);
      assert SlotOk(t, n - 1);
      CloseNext(t, nodeFd, n - 1);
      var s := t.reg.slots[n - 1];
      if s.active && s.nodeFd == nodeFd {
        CloseInv(ClosedUpTo(t, nodeFd, n - 1), n - 1, s.(active := false));
      }
    }
  }

  lemma StepInv(t: State, e: Event)
    requires Inv(t)
    ensures Inv(Step(t, e))
  {
    match e {
      case OpenStream(_, _, _, _, _) => OpenInv(t, e);
      case Attach(_, _) => AttachInv(t, e);
      case Drop(_, _, _) => DropInv(t, e);
      case FinFromClient(_, _) => ClientFinInv(t, e);
      case CloseFromNode(id, _, code, flags) =>
        if flags % 2 == 0 {
          DropInv(t, Drop(id, true, ReasonOf(code)));
        } else {
          NodeFinInv(t, e);
        }
      case NodeLeft(fd) =>
        if fd != INVALID_SOCKET {
          NodeLeftInv(t, fd, MAX_STREAMS);
          assert t.reg.slots[..MAX_STREAMS] == t.reg.slots;
          assert Step(t, e).reg.slots == ClosedUpTo(t, fd, MAX_STREAMS).reg.slots;
        }
    }
  }

  lemma {:induction false} RunInv(r: Run)
    ensures Inv(StateOf(r))
  {
    match r
    case Init =>
    case More(before, e) =>
      RunInv(before);
      StepInv(StateOf(before), e);
  }

  // ---- What holds in every reachable state --------------------------------------------------

  /** A registered stream is as it was opened, with the row last attached to it. */
  lemma StreamsAsOpened(r: Run, i: nat)
    requires i < 128
    ensures |StateOf(r).reg.slots| == |StateOf(r).serials| == 128
    ensures var t := StateOf(r); var s, k := t.reg.slots[i], t.serials[i];
            s.active ==>
              && Birth(t.hist, k) == Some(Opened(k, s.nodePk, s.nodeFd, s.clientFd, s.dbFile))
              && s.dbId == LastRow(t.hist, k)
  {
    RunInv(r);
    assert SlotOk(StateOf(r), i);
  }

  /** No registered stream has both FIN flags set. */
  lemma NeverBothFins(r: Run, i: nat)
    requires i < MAX_STREAMS
    ensures |StateOf(r).reg.slots| == MAX_STREAMS
    ensures var s := StateOf(r).reg.slots[i]; s.active ==> !(s.clientFin && s.nodeFin)
  {
    RunInv(r);
    assert SlotOk(StateOf(r), i);
  }

  /** No row is ended for a stream while it is registered. Once it is gone, the row last attached to it has
      been ended, in the stream's own database, and nothing else, at all if none was attached. */
  lemma RowsEndOnce(r: Run, k: nat)
    ensures var t := StateOf(r);
            && (IsOpen(t, k) ==> EndedRows(t.hist, k) == [])
            && (!IsOpen(t, k) ==>
                  EndedRows(t.hist, k) == if LastRow(t.hist, k) > 0 then [(FileOf(t.hist, k), LastRow(t.hist, k))] else [])
  {
    RunInv(r);
    var t := StateOf(r);
    assert Settled(t, k);
    if IsOpen(t, k) {
      var i :| 0 <= i < |t.serials| && Holds(t, k, i);
      assert SlotOk(t, i);
    }
  }

  /** The n-th stream opened, counting from 0, gets id n mod (2^32-1) plus one, which is never 0. */
  lemma NthId(r: Run, pk: int, nodeFd: int, clientFd: int, dbFile: string, max: u32)
    ensures var t := StateOf(r); var id := Open(t.reg, pk, nodeFd, clientFd, dbFile, max).1;
            id != 0 ==> id == t.count % (U32_MOD - 1) + 1
                        && StateOf(More(r, OpenStream(pk, nodeFd, clientFd, dbFile, max))).count == t.count + 1
  {
    RunInv(r);
    TakeIdIs(StateOf(r).count);
  }

  /** Registered streams opened less than 2^32-1 streams apart have different ids. */
  lemma DistinctIds(r: Run, i: nat, j: nat)
    requires i < MAX_STREAMS && j < MAX_STREAMS && i != j && |StateOf(r).reg.slots| == MAX_STREAMS == |StateOf(r).serials|
    requires StateOf(r).reg.slots[i].active && StateOf(r).reg.slots[j].active
    requires -ID_COUNT < StateOf(r).serials[i] - StateOf(r).serials[j] < ID_COUNT
    ensures StateOf(r).reg.slots[i].id != StateOf(r).reg.slots[j].id
  {
    RunInv(r);
    var t := StateOf(r);
    assert SlotOk(t, i) && SlotOk(t, j);
    var a, b := t.serials[i], t.serials[j];
    assert a != b;
    if a < b { IdsDiffer(a, b); } else { IdsDiffer(b, a); }
  }

  /** Every stream of this node was opened under the same cap. */
  predicate FixedCap(r: Run, pk: int, max: u32) {
    r.More? ==> FixedCap(r.before, pk, max) && (r.event.OpenStream? && r.event.pk == pk ==> r.event.max == max)
  }

  lemma NoNewStream(t: State, e: Event, pk: int, i: nat)
    requires i < |t.reg.slots| && !(e.OpenStream? && e.pk == pk)
    ensures NodeKey(pk)(Step(t, e).reg.slots[i]) ==> NodeKey(pk)(t.reg.slots[i])
  {
  }

  /** With a fixed cap, a node never has more registered streams than the cap. */
  lemma {:induction false} NodeCap(r: Run, pk: int, max: u32)
    requires FixedCap(r, pk, max)
    ensures Count(StateOf(r).reg.slots, NodeKey(pk)) <= if max == 0 then 64 else max
  {
    match r
    case Init => CountZero(StateOf(r).reg.slots, NodeKey(pk));
    case More(before, e) =>
      NodeCap(before, pk, max);
      var t := StateOf(before);
      if e.OpenStream? && e.pk == pk {
        var i := First(t.reg.slots, Free());
        if i >= 0 {
          var s := Stream(true, TakeId(t.reg.nextId).0, pk, 0, e.nodeFd, e.clientFd, false, false, e.dbFile);
          CountUpdate(t.reg.slots, i, s, NodeKey(pk));
        }
      } else {
        forall i | 0 <= i < |t.reg.slots| ensures NodeKey(pk)(Step(t, e).reg.slots[i]) ==> NodeKey(pk)(t.reg.slots[i]) {
          NoNewStream(t, e, pk, i);
        }
        CountMono(t.reg.slots, Step(t, e).reg.slots, NodeKey(pk));
      }
  }

  /** The two sides' FINs close a stream whichever comes first: the registry ends up the same,
      and one row is ended in all, by the second FIN. */
  lemma FinsCommute(r: Registry, i: nat, clientWhy: Reason, nodeWhy: Reason)
    requires i < |r.slots|
    requires r.slots[i].active && r.slots[i].id != 0 && r.slots[i].nodeFd != INVALID_SOCKET
    requires !r.slots[i].clientFin && !r.slots[i].nodeFin
    requires forall j | 0 <= j < |r.slots| && j != i && r.slots[j].active :: r.slots[j].id != r.slots[i].id
    ensures var s := r.slots[i];
            var closed := r.(slots := r.slots[i := s.(active := false, clientFin := true, nodeFin := true)]);
            var (r1, fx1) := ClientFin(r, s.id, clientWhy);
            var (r2, fx2) := NodeFin(r, s.id, s.nodeFd, nodeWhy);
            && NodeFin(r1, s.id, s.nodeFd, nodeWhy).0 == ClientFin(r2, s.id, clientWhy).0 == closed
            && fx1 == [] && NodeFin(r1, s.id, s.nodeFd, nodeWhy).1 == fx2 + EndOf(i, s, nodeWhy)
            && ClientFin(r2, s.id, clientWhy).1 == EndOf(i, s, clientWhy)
            && forall x | x in fx2 :: x.ShutdownSend?
  {
    var s := r.slots[i];
    FirstIs(r.slots, IdKey(s.id), i);
    FirstIs(r.slots, NodeStreamKey(s.id, s.nodeFd), i);
    var r1, r2 := ClientFin(r, s.id, clientWhy).0, NodeFin(r, s.id, s.nodeFd, nodeWhy).0;
    FirstIs(r1.slots, NodeStreamKey(s.id, s.nodeFd), i);
    FirstIs(r2.slots, IdKey(s.id), i);
    assert EndOf(i, r1.slots[i], nodeWhy) == EndOf(i, s, nodeWhy);
    assert EndOf(i, r2.slots[i], clientWhy) == EndOf(i, s, clientWhy);
  }

  /** The effects that are about slot i, in order. */
  function OfSlot(fx: seq<Effect>, i: nat): seq<Effect> {
    if fx == [] then []
    else OfSlot(fx[..|fx| - 1], i) + if fx[|fx| - 1].slot == i then [fx[|fx| - 1]] else []
  }

  lemma {:induction false} OfSlotConcat(a: seq<Effect>, b: seq<Effect>, i: nat)
    ensures OfSlot(a + b, i) == OfSlot(a, i) + OfSlot(b, i)
  {
    if b == [] {
      assert a + b == a;
    } else {
      var n := |b| - 1;
      assert (a + b)[..|a + b| - 1] == a + b[..n];
      OfSlotConcat(a, b[..n], i);
    }
  }

  /** A node that leaves closes exactly its own streams; every other slot is untouched. Of each of its
      streams the client's socket is shut down and the row, if there is one, ended, once each. */
  lemma NodeGoneExactly(r: Registry, nodeFd: int, i: nat)
    requires nodeFd != INVALID_SOCKET && i < |r.slots|
    ensures var s, s' := r.slots[i], NodeGone(r, nodeFd).0.slots[i];
            && s'.active == (s.active && s.nodeFd != nodeFd) && s'.(active := s.active) == s
    ensures var s := r.slots[i];
            OfSlot(NodeGone(r, nodeFd).1, i)
            == if !s.active || s.nodeFd != nodeFd then []
               else if s.dbId <= 0 || s.dbFile == "" then [Shutdown(i, s.clientFd)]
               else [Shutdown(i, s.clientFd), EndRow(i, s.dbFile, s.dbId, NodeClosed)]
  {
    GoneSlot(r.slots, nodeFd, i);
  }

  lemma {:induction false} GoneSlot(slots: seq<Stream>, nodeFd: int, i: nat)
    ensures OfSlot(NodeGoneEffects(slots, nodeFd), i)
         == if i < |slots| then SlotGoneEffects(i, slots[i], nodeFd) else []
  {
    if slots != [] {
      var n := |slots| - 1;
      GoneSlot(slots[..n], nodeFd, i);
      OfSlotConcat(NodeGoneEffects(slots[..n], nodeFd), SlotGoneEffects(n, slots[n], nodeFd), i);
      OneSlot(SlotGoneEffects(n, slots[n], nodeFd), n, i);
    }
  }

  lemma {:induction false} OneSlot(fx: seq<Effect>, n: nat, i: nat)
    requires forall x | x in fx :: x.slot == n
    ensures OfSlot(fx, i) == if i == n then fx else []
  {
    if fx != [] {
      OneSlot(fx[..|fx| - 1], n, i);
    }
  }

  /** Who can close a stream: a node that does not own it does so if and only if its message has no FIN flag
      and the stream's id. (Its owner's FIN only closes it together with the client's.) */
  lemma ForeignClose(r: Registry, i: nat, id: u32, nodeFd: int, code: u16, flags: u16)
    requires i < |r.slots| && r.slots[i].active && r.slots[i].id != 0 && r.slots[i].nodeFd != nodeFd
    requires forall j | 0 <= j < |r.slots| && j != i && r.slots[j].active :: r.slots[j].id != r.slots[i].id
    ensures var s, s' := r.slots[i], NodeClose(r, id, nodeFd, code, flags).0.slots[i];
            && (s' != s <==> flags % 2 == 0 && id == s.id)
            && (s' != s ==> s' == s.(active := false))
  {
    if id == r.slots[i].id {
      FirstIs(r.slots, IdKey(id), i);
    }
  }

  // ---- What each operation answers -------------------------------------------------------------

  /** A stream is given an id if and only if node, sockets and database are named, the node has fewer streams
      than its cap (64 if none is set) and a slot is free; the stream is then in a free slot as asked for,
      with no row and no FIN, and no other slot changes. */
  lemma OpenAnswers(r: Registry, pk: int, nodeFd: int, clientFd: int, dbFile: string, max: u32)
    requires r.nextId != 0
    ensures var (r', id) := Open(r, pk, nodeFd, clientFd, dbFile, max);
            var mine := set j | 0 <= j < |r.slots| && r.slots[j].active && r.slots[j].nodePk == pk;
            && (id != 0 <==>
                  && pk > 0 && nodeFd != -1 && clientFd != -1 && dbFile != ""
                  && |mine| < (if max == 0 then 64 else max)
                  && exists j | 0 <= j < |r.slots| :: !r.slots[j].active)
            && (id == 0 ==> r' == r)
            && (id != 0 ==> exists j | 0 <= j < |r.slots| ::
                  !r.slots[j].active && r'.slots == r.slots[j := Stream(true, id, pk, 0, nodeFd, clientFd, false, false, dbFile)])
  {
    var mine := set j | 0 <= j < |r.slots| && r.slots[j].active && r.slots[j].nodePk == pk;
    CountIsCardinality(r.slots, NodeKey(pk), mine);
    var f := First(r.slots, Free());
    if f >= 0 {
      assert !r.slots[f].active;
    } else {
      forall j | 0 <= j < |r.slots| ensures r.slots[j].active {
        assert !Free()(r.slots[j]);
      }
    }
  }

  /** A row is attached to the registered stream of that id, if there is one, and nothing else changes. */
  lemma AttachAnswers(r: Registry, id: u32, row: int, i: nat)
    requires i < |r.slots|
    requires forall a, b | 0 <= a < b < |r.slots| && r.slots[a].active && r.slots[b].active :: r.slots[a].id != r.slots[b].id
    ensures var s, s' := r.slots[i], AttachRow(r, id, row).slots[i];
            s' == if s.active && s.id == id && id != 0 && row > 0 then s.(dbId := row) else s
  {
    if r.slots[i].active && r.slots[i].id == id {
      FirstIs(r.slots, IdKey(id), i);
    }
  }

  /** What the numbers in a close message mean. */
  lemma ReasonsAre(code: u16)
    ensures ReasonOf(code)
         == if code == 1 then ClientClosed else if code == 3 then TargetConnectFailed
            else if code == 4 then ResourceLimited else if code == 5 then IdleTimeout else RemoteClosed
  {
  }

  /** A close message without the FIN bit closes the stream it names, shuts the client's socket down both ways
      and ends the row. */
  lemma PlainCloseDoes(r: Registry, i: nat, nodeFd: int, code: u16, flags: u16)
    requires i < |r.slots| && r.slots[i].active && r.slots[i].id != 0 && flags % 2 == 0 && r.slots[i].dbFile != ""
    requires forall j | 0 <= j < |r.slots| && j != i && r.slots[j].active :: r.slots[j].id != r.slots[i].id
    ensures var s := r.slots[i]; var (r', fx) := NodeClose(r, s.id, nodeFd, code, flags);
            && r' == r.(slots := r.slots[i := s.(active := false)])
            && fx == (if s.clientFd != -1 then [Shutdown(i, s.clientFd)] else [])
                     + (if s.dbId > 0 then [EndRow(i, s.dbFile, s.dbId, ReasonOf(code))] else [])
  {
    FirstIs(r.slots, IdKey(r.slots[i].id), i);
  }

  /** Its owner's FIN half-closes the client's socket, closes the stream only if the client's FIN is there, and
      then ends the row. */
  lemma NodeFinDoes(r: Registry, i: nat, code: u16, flags: u16)
    requires i < |r.slots| && r.slots[i].active && r.slots[i].id != 0 && flags % 2 == 1
    requires r.slots[i].nodeFd != -1 && r.slots[i].dbFile != ""
    requires forall j | 0 <= j < |r.slots| && j != i && r.slots[j].active :: r.slots[j].id != r.slots[i].id
    ensures var s := r.slots[i]; var (r', fx) := NodeClose(r, s.id, s.nodeFd, code, flags);
            && r' == r.(slots := r.slots[i := s.(nodeFin := true, active := !s.clientFin)])
            && fx == (if s.clientFd != -1 then [ShutdownSend(i, s.clientFd)] else [])
                     + (if s.clientFin && s.dbId > 0 then [EndRow(i, s.dbFile, s.dbId, ReasonOf(code))] else [])
  {
    FirstIs(r.slots, NodeStreamKey(r.slots[i].id, r.slots[i].nodeFd), i);
  }

  /** The client's FIN touches no socket, closes the stream only if the node's FIN is there, and then ends the row. */
  lemma ClientFinDoes(r: Registry, i: nat, why: Reason)
    requires i < |r.slots| && r.slots[i].active && r.slots[i].id != 0 && r.slots[i].dbFile != ""
    requires forall j | 0 <= j < |r.slots| && j != i && r.slots[j].active :: r.slots[j].id != r.slots[i].id
    ensures var s := r.slots[i]; var (r', fx) := ClientFin(r, s.id, why);
            && r' == r.(slots := r.slots[i := s.(clientFin := true, active := !s.nodeFin)])
            && fx == if s.nodeFin && s.dbId > 0 then [EndRow(i, s.dbFile, s.dbId, why)] else []
  {
    FirstIs(r.slots, IdKey(r.slots[i].id), i);
  }

  /** The client's thread drops its stream without touching its own socket, and ends the row. */
  lemma DropDoes(r: Registry, i: nat, why: Reason)
    requires i < |r.slots| && r.slots[i].active && r.slots[i].id != 0 && r.slots[i].dbFile != ""
    requires forall j | 0 <= j < |r.slots| && j != i && r.slots[j].active :: r.slots[j].id != r.slots[i].id
    ensures var s := r.slots[i]; var (r', fx) := Unregister(r, s.id, false, why);
            && r' == r.(slots := r.slots[i := s.(active := false)])
            && fx == if s.dbId > 0 then [EndRow(i, s.dbFile, s.dbId, why)] else []
  {
    FirstIs(r.slots, IdKey(r.slots[i].id), i);
  }
}
