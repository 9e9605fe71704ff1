/** The thread that serves one SOCKS client, step by step, interleaved with everything that other
    threads do to the stream registry. */
module SocksClient {
  import opened Bytes
  import opened Scan
  import opened Socks
  import opened SocksRuns

  /** Where the thread is, from the successful registration of its stream to its end. */
  datatype Pc =
    | Opening
    | Attaching(dbId: int, sent: bool)
    | Replying
    | Streaming
    | MarkingFin
    | Draining
    | Closing
    | Checking
    | Dropping
    | Done

  datatype Client = Client(t: State, pc: Pc, serial: nat, id: u32, openSent: bool, reason: Reason)

  /** One step: another thread's, or the next of the client's own with the outcome of the calls it makes. */
  datatype Action =
    | Other(e: Event)
    | TryOpen(dbId: int, sent: bool)
    | SetRow
    | Reply(ok: bool)
    | ReadTimeout
    | ReadError
    | ReadData(forwarded: bool)
    | ReadEnd(finSent: bool)
    | MarkFin
    | Wait(expired: bool)
    | SendClose
    | Check
    | DropStream

  predicate Enabled(c: Client, a: Action) {
    match a
    case Other(_) => true
    case TryOpen(_, _) => c.pc.Opening?
    case SetRow => c.pc.Attaching?
    case Reply(_) => c.pc.Replying?
    case ReadTimeout => c.pc.Streaming?
    case ReadError => c.pc.Streaming?
    case ReadData(_) => c.pc.Streaming?
    case ReadEnd(_) => c.pc.Streaming?
    case MarkFin => c.pc.MarkingFin?
    case Wait(_) => c.pc.Draining?
    case SendClose => c.pc.Closing?
    case Check => c.pc.Checking?
    case DropStream => c.pc.Dropping?
  }

  function Next(c: Client, a: Action): Client
    requires Enabled(c, a)
  {
    match a
    case Other(e) => c.(t := Step(c.t, e))
    case TryOpen(dbId, sent) => c.(pc := Attaching(dbId, sent))
    case SetRow =>
      c.(t := Step(c.t, Attach(c.id, c.pc.dbId)), openSent := c.pc.sent, pc := if c.pc.sent then Replying else Closing)
    case Reply(ok) => c.(pc := if ok then Streaming else Closing)
    case ReadTimeout => c.(pc := Closing, reason := IdleTimeout)
    case ReadError => c.(pc := Closing, reason := ClientClosed)
    case ReadData(forwarded) => if forwarded then c else c.(pc := Closing)
    case ReadEnd(finSent) => c.(pc := if finSent then MarkingFin else Closing, reason := ClientClosed)
    case MarkFin => c.(t := Step(c.t, FinFromClient(c.id, c.reason)), pc := Draining)
    case Wait(expired) =>
      if !IsActive(c.t.reg, c.id) then c.(pc := Closing)
      else if expired then c.(pc := Closing, reason := IdleTimeout)
      else c
    case SendClose => c.(pc := Checking)
    case Check => c.(pc := if IsActive(c.t.reg, c.id) then Dropping else Done)
    case DropStream =>
      c.(t := Step(c.t, Drop(c.id, false, if c.openSent then c.reason else OpenFailed)), pc := Done)
  }

  /** A life starts when a reachable registry gives the client its stream. */
  datatype Life = Start(r: Run, open: Event) | Continue(past: Life, action: Action)

  predicate Opened(r: Run, e: Event) {
    e.OpenStream? && Open(StateOf(r).reg, e.pk, e.nodeFd, e.clientFd, e.dbFile, e.max).1 != 0
  }

  predicate Legal(l: Life)
    decreases l, 0
  {
    match l
    case Start(r, e) => Opened(r, e)
    case Continue(past, a) => Legal(past) && Enabled(After(past), a) && (a.DropStream? ==> Unmistakable(After(past)))
  }

  function After(l: Life): Client
    requires Legal(l)
    decreases l, 1
  {
    match l
    case Start(r, e) =>
      Client(StateOf(More(r, e)), Opening, StateOf(r).count,
             Open(StateOf(r).reg, e.pk, e.nodeFd, e.clientFd, e.dbFile, e.max).1, false, ClientClosed)
    case Continue(past, a) => Next(After(past), a)
  }

  /** No registered stream was opened 2^32-1 or more streams away from the client's own, so none
      shares its id. */
  predicate Unmistakable(c: Client) {
    forall i | 0 <= i < |c.t.reg.slots| && i < |c.t.serials| && c.t.reg.slots[i].active ::
      -ID_COUNT < c.t.serials[i] - c.serial < ID_COUNT
  }

  ghost predicate Ok(c: Client) {
    && Inv(c.t) && c.serial < c.t.count && c.id == IdOf(c.serial)
    && (c.pc.Done? ==> !IsOpen(c.t, c.serial))
  }

  /** A stream that is gone stays gone: serial numbers are not reused. */
  lemma GoneStaysGone(t: State, e: Event, k: nat)
    requires Inv(t) && k < t.count && !IsOpen(t, k)
    ensures !IsOpen(Step(t, e), k) && k < Step(t, e).count
  {
    var t' := Step(t, e);
    forall i | 0 <= i < MAX_STREAMS ensures !Holds(t', k, i) {
      assert !Holds(t, k, i);
    }
  }

  lemma CountGrows(t: State, e: Event)
    ensures Step(t, e).count >= t.count
  {
  }

  lemma InactiveIsGone(c: Client)
    requires Ok(c) && !IsActive(c.t.reg, c.id)
    ensures !IsOpen(c.t, c.serial)
  {
    forall i | 0 <= i < MAX_STREAMS ensures !Holds(c.t, c.serial, i) {
      assert SlotOk(c.t, i) && !IdKey(c.id)(c.t.reg.slots[i]);
    }
  }

  lemma OursIsFirst(c: Client, i: nat)
    requires Ok(c) && Unmistakable(c) && i < MAX_STREAMS && Holds(c.t, c.serial, i)
    ensures c.id != 0 && First(c.t.reg.slots, IdKey(c.id)) == i
  {
    var t := c.t;
    assert SlotOk(t, i) && IdKey(c.id)(t.reg.slots[i]);
    var first := First(t.reg.slots, IdKey(c.id));
    assert SlotOk(t, first);
    if t.serials[first] < c.serial { IdsDiffer(t.serials[first], c.serial); }
    if c.serial < t.serials[first] { IdsDiffer(c.serial, t.serials[first]); }
  }

  lemma DropCloses(c: Client, reason: Reason)
    requires Ok(c) && Unmistakable(c)
    ensures !IsOpen(Step(c.t, Drop(c.id, false, reason)), c.serial)
  {
    var t := c.t;
    var t' := Step(t, Drop(c.id, false, reason));
    forall i | 0 <= i < MAX_STREAMS ensures !Holds(t', c.serial, i) {
      if Holds(t, c.serial, i) {
        OursIsFirst(c, i);
      }
    }
  }

  lemma NextOk(c: Client, a: Action)
    requires Ok(c) && Enabled(c, a) && (a.DropStream? ==> Unmistakable(c))
    ensures Ok(Next(c, a))
  {
    match a {
      case Other(e) =>
        StepInv(c.t, e);
        CountGrows(c.t, e);
        if c.pc.Done? { GoneStaysGone(c.t, e, c.serial); }
      case SetRow => StepInv(c.t, Attach(c.id, c.pc.dbId));
      case MarkFin => StepInv(c.t, FinFromClient(c.id, c.reason));
      case Check => if !IsActive(c.t.reg, c.id) { InactiveIsGone(c); }
      case DropStream =>
        var reason := if c.openSent then c.reason else OpenFailed;
        StepInv(c.t, Drop(c.id, false, reason));
        DropCloses(c, reason);
      case _ =>
    }
  }

  lemma {:induction false} LifeOk(l: Life)
    requires Legal(l)
    ensures Ok(After(l))
  {
    match l
    case Start(r, e) =>
      RunInv(r);
      OpenInv(StateOf(r), e);
      TakeIdIs(StateOf(r).count);
    case Continue(past, a) =>
      LifeOk(past);
      NextOk(After(past), a);
  }

  /** No slot leaks: however the client's thread ends and whatever runs beside it, once it is done its
      stream is not registered, and the row last attached to it, if any, was ended, once and no other. Ids may
      collide on the way, as long as the client's own is the only one of its kind when it drops its stream. */
  lemma NoSlotLeaks(l: Life)
    requires Legal(l) && After(l).pc.Done?
    ensures var c := After(l);
            && !IsOpen(c.t, c.serial)
            && EndedRows(c.t.hist, c.serial)
               == if LastRow(c.t.hist, c.serial) > 0 then [(FileOf(c.t.hist, c.serial), LastRow(c.t.hist, c.serial))] else []
  {
    LifeOk(l);
    var c := After(l);
    assert Settled(c.t, c.serial);
  }

  /** The client's row gets attached if and only if its stream is still registered at that moment (and the
      database gave it an id); it is then the row that the database gave. */
  lemma RowAttachedIfStillOpen(l: Life)
    requires Legal(Continue(l, SetRow)) && Unmistakable(After(l))
    ensures var c := After(l);
            LastRow(After(Continue(l, SetRow)).t.hist, c.serial)
            == if c.pc.dbId > 0 && IsOpen(c.t, c.serial) then c.pc.dbId else LastRow(c.t.hist, c.serial)
  {
    LifeOk(l);
    var c := After(l);
    if IsOpen(c.t, c.serial) {
      var i :| 0 <= i < |c.t.serials| && Holds(c.t, c.serial, i);
      OursIsFirst(c, i);
    } else {
      var i := First(c.t.reg.slots, IdKey(c.id));
      if i >= 0 {
        assert !Holds(c.t, c.serial, i);
      }
    }
  }

  /** OPEN went out to the node. */
  predicate OpenWasSent(l: Life) {
    l.Continue? && ((l.action.TryOpen? && l.action.sent) || OpenWasSent(l.past))
  }

  /** What ended the relaying was a timeout, of the read or of the wait for the node's FIN. */
  predicate TimedOut(l: Life)
    requires Legal(l)
  {
    match l
    case Start(_, _) => false
    case Continue(past, a) => TimedOutBy(After(past), a, TimedOut(past))
  }

  predicate TimedOutBy(c: Client, a: Action, before: bool) {
    match a
    case ReadTimeout => true
    case ReadError => false
    case ReadEnd(_) => false
    case Wait(expired) => (expired && IsActive(c.t.reg, c.id)) || before
    case _ => before
  }

  predicate ReasonOk(c: Client, timedOut: bool, sent: bool) {
    && c.reason == (if timedOut then IdleTimeout else ClientClosed)
    && (c.pc.Opening? ==> !sent)
    && (c.pc.Attaching? ==> c.pc.sent == sent)
    && (!c.pc.Opening? && !c.pc.Attaching? ==> c.openSent == sent)
  }

  lemma NextReason(c: Client, a: Action, timedOut: bool, sent: bool)
    requires ReasonOk(c, timedOut, sent) && Enabled(c, a)
    ensures ReasonOk(Next(c, a), TimedOutBy(c, a, timedOut), sent || (a.TryOpen? && a.sent))
  {
  }

  lemma {:induction false} ReasonSoFar(l: Life)
    requires Legal(l)
    ensures ReasonOk(After(l), TimedOut(l), OpenWasSent(l))
  {
    if l.Continue? {
      ReasonSoFar(l.past);
      NextReason(After(l.past), l.action, TimedOut(l.past), OpenWasSent(l.past));
    }
  }

  /** The client's thread drops its own stream, leaves its socket to the caller, and ends the row as failed if
      OPEN never went out, as idle after a timeout, and as closed by the client otherwise. */
  lemma DropReason(l: Life)
    requires Legal(Continue(l, DropStream))
    ensures var c := After(l);
            After(Continue(l, DropStream)).t
            == Step(c.t, Drop(c.id, false, if !OpenWasSent(l) then OpenFailed else if TimedOut(l) then IdleTimeout else ClientClosed))
  {
    ReasonSoFar(l);
    DropsWith(After(l), TimedOut(l), OpenWasSent(l));
  }

  lemma DropsWith(c: Client, timedOut: bool, sent: bool)
    requires ReasonOk(c, timedOut, sent) && Enabled(c, DropStream)
    ensures Next(c, DropStream).t
         == Step(c.t, Drop(c.id, false, if !sent then OpenFailed else if timedOut then IdleTimeout else ClientClosed))
  {
  }

  const FIRST_OPENED := Then(Begin, Record.Opened(0, 1, 5, 6, "db"))

  function FirstStream(active: bool): Stream {
    Stream(active, 1, 1, 0, 5, 6, false, false, "db")
  }

  lemma FirstOpen()
    ensures var t := StateOf(More(Init, OpenStream(1, 5, 6, "db", 0)));
            && Opened(Init, OpenStream(1, 5, 6, "db", 0))
            && t.reg.slots == EMPTY.slots[0 := FirstStream(true)]
            && t.count == 1 && t.hist == FIRST_OPENED && t.serials[0] == 0
            && forall i | 0 <= i < MAX_STREAMS :: t.serials[i] == 0
  {
    var empty := StateOf(Init).reg.slots;
    FirstIs(empty, Free(), 0);
    CountZero(empty, NodeKey(1));
  }

  /** A close that arrives between OPEN and the attaching of the row leaves the row un-ended: the
      node closes stream 1, the row the client started is not attached, and nothing ends it. */
  lemma EarlyCloseLosesRow() returns (l: Life)
    ensures Legal(l) && After(l).pc == Attaching(9, true) && After(l).serial == 0
    ensures !IsOpen(After(l).t, 0) && EndedRows(After(l).t.hist, 0) == []
    ensures Legal(Continue(l, SetRow)) && !WasAttached(After(Continue(l, SetRow)).t.hist, 0)
  {
    var l0 := Start(Init, OpenStream(1, 5, 6, "db", 0));
    FirstOpen();
    var l1 := Continue(l0, TryOpen(9, true));
    assert Legal(l1) && After(l1).t == After(l0).t;
    l := Continue(l1, Other(CloseFromNode(1, 5, 0, 0)));
    FirstClosed(After(l1).t, 5);
    RowAttachedIfStillOpen(l);
  }

  /** A stream of the node on descriptor 5 is closed by a message from the node on descriptor 6. */
  lemma StrangerCloses() returns (r: Run)
    ensures StateOf(r).reg.slots[..] != [] && IdKey(1)(StateOf(r).reg.slots[0]) && StateOf(r).reg.slots[0].nodeFd == 5
    ensures !StateOf(More(r, CloseFromNode(1, 6, 0, 0))).reg.slots[0].active
  {
    r := More(Init, OpenStream(1, 5, 6, "db", 0));
    FirstOpen();
    FirstClosed(StateOf(r), 6);
  }

  lemma FirstClosed(t: State, nodeFd: int)
    requires t.reg.slots == EMPTY.slots[0 := FirstStream(true)] && |t.serials| == MAX_STREAMS && t.hist == FIRST_OPENED
    requires forall i | 0 <= i < MAX_STREAMS :: t.serials[i] == 0
    ensures var t' := Step(t, CloseFromNode(1, nodeFd, 0, 0));
            t'.hist == FIRST_OPENED && (forall i | 0 <= i < MAX_STREAMS :: !t'.reg.slots[i].active) && t'.serials == t.serials
  {
    FirstIs(t.reg.slots, IdKey(1), 0);
    var fx := [Shutdown(0, 6)];
    assert fx + EndOf(0, FirstStream(true), RemoteClosed) == fx;
    assert NodeClose(t.reg, 1, nodeFd, 0, 0) == (t.reg.(slots := t.reg.slots[0 := FirstStream(false)]), fx);
    RecordNone(t.hist, Shutdown(0, 6), t.serials);
  }
}
