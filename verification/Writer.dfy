/** The per-session writer: a control queue and a TAP queue drained by one thread.
    This module is the value-level behaviour; SessionQueues.dfy has the linked lists. */
module Writer {
  import opened Bytes
  import opened Proto

  const DEFAULT_TAP_QUEUE_LIMIT := 256 * 1024

  datatype Msg = Msg(ty: byte, sid: int, payload: seq<byte>)

  datatype Writer = Writer(
    started: bool, stop: bool, sid: int,
    ctrl: seq<Msg>, tap: seq<Msg>,
    pending: int, winSec: int, winBytes: int, drops: int, limit: int)

  /** What one enqueue attempt reports: queued (1), dropped over budget (0) or refused (-1). */
  datatype Outcome = Queued | Dropped | Refused

  /** Message size as the budget counts it, a saturating uint32_t. */
  function QueuedBytes(n: int): int {
    if n > U32_MOD - 1 - HDR_SIZE then U32_MOD - 1 else n + HDR_SIZE
  }

  predicate Running(w: Writer) {
    w.started && !w.stop
  }

  function Limit(w: Writer): int {
    if w.limit == 0 then DEFAULT_TAP_QUEUE_LIMIT else w.limit
  }

  function WindowBytes(w: Writer, now: int): int {
    if w.winSec == now then w.winBytes else 0
  }

  predicate OverBudget(w: Writer, payload: seq<byte>, now: int) {
    var n := QueuedBytes(|payload|);
    n > Limit(w) || w.pending > Limit(w) - n || WindowBytes(w, now) > Limit(w) - n
  }

  function TapMsg(w: Writer, payload: seq<byte>): Msg {
    Msg(MSG_TAP_FRAME, w.sid, payload)
  }

  function Verdict(w: Writer, payload: seq<byte>, flood: bool, now: int): Outcome {
    if !Running(w) then Refused
    else if flood && OverBudget(w, payload, now) then Dropped
    else Queued
  }

  function OpenWindow(w: Writer, now: int): Writer {
    w.(winSec := now, winBytes := WindowBytes(w, now))
  }

  function CountDrop(w: Writer): Writer {
    w.(drops := Wrap32(w.drops + 1))
  }

  /** A queued TAP message counts as pending; a flood's also against the current second. */
  function CountBytes(w: Writer, n: int, flood: bool): Writer {
    w.(pending := Wrap32(w.pending + n), winBytes := if flood then Wrap32(w.winBytes + n) else w.winBytes)
  }

  function AppendTap(w: Writer, payload: seq<byte>, flood: bool): Writer {
    CountBytes(w, QueuedBytes(|payload|), flood).(tap := w.tap + [TapMsg(w, payload)])
  }

  /** The writer after a TAP enqueue; only a flood pays from the per-second budget. */
  function EnqueueTap(w: Writer, payload: seq<byte>, flood: bool, now: int): Writer {
    var open := if flood then OpenWindow(w, now) else w;
    match Verdict(w, payload, flood, now)
    case Refused => w
    case Dropped => CountDrop(open)
    case Queued => AppendTap(open, payload, flood)
  }

  function EnqueueControl(w: Writer, ty: byte, payload: seq<byte>): Writer {
    if Running(w) then w.(ctrl := w.ctrl + [Msg(ty, w.sid, payload)]) else w
  }

  /** The next message, control first, and the writer without it. */
  function Pop(w: Writer): (Writer, Option<Msg>) {
    if w.ctrl != [] then (w.(ctrl := w.ctrl[1..]), Some(w.ctrl[0]))
    else if w.tap != [] then
      (ReleaseBytes(w.(tap := w.tap[1..]), QueuedBytes(|w.tap[0].payload|)), Some(w.tap[0]))
    else (w, None)
  }

  function ReleaseBytes(w: Writer, n: nat): Writer {
    w.(pending := if w.pending >= n then w.pending - n else 0)
  }

  function Clear(w: Writer): Writer {
    w.(ctrl := [], tap := [], pending := 0)
  }

  // ---- Runs of one session's writer -------------------------------------------------

  /** The atomic steps of a session's life: enqueues by other threads, the writer thread's own
      steps, and the stop request of session_stop_writer. */
  datatype Event =
    | Control(ty: byte, payload: seq<byte>)
    | Tap(payload: seq<byte>, flood: bool, now: int)
    | Take
    | Sent
    | SendFailed
    | StopRequest

  datatype Flight = Flight(msg: Msg, isTap: bool)

  /** The messages of one class: accepted by an enqueue, sent, and lost to a failure or stop. */
  datatype Ledger = Ledger(accepted: seq<Msg>, sent: seq<Msg>, lost: seq<Msg>)

  const BLANK := Ledger([], [], [])

  /** Bytes of every flood admitted to the queue, with its clock second. */
  datatype FloodLog = Quiet | Logged(past: FloodLog, sec: int, bytes: int)

  /** A writer with the ghost record of everything that happened to its messages. */
  datatype Life = Life(
    w: Writer, clock: int, flight: Option<Flight>, exited: bool,
    ctrl: Ledger, tap: Ledger, floods: FloodLog)

  function Born(sid: int, limit: int): Life {
    Life(Writer(true, false, sid, [], [], 0, 0, 0, 0, limit), 0, None, false, BLANK, BLANK, Quiet)
  }

  predicate Enabled(l: Life, e: Event) {
    match e
    case Control(_, _) => true
    case Tap(payload, _, now) => now > 0 && |payload| + HDR_SIZE < U32_MOD
    case Take => !l.exited && l.flight == None && (l.w.stop || l.w.ctrl != [] || l.w.tap != [])
    case Sent => l.flight.Some?
    case SendFailed => l.flight.Some?
    case StopRequest => true
  }

  /** What a step does to the writer itself. */
  function Act(w: Writer, e: Event): Writer {
    match e
    case Control(ty, payload) => EnqueueControl(w, ty, payload)
    case Tap(payload, flood, now) => EnqueueTap(w, payload, flood, now)
    case Take => if w.stop then Clear(w) else Pop(w).0
    case Sent => w
    case SendFailed => Clear(w).(stop := true)
    case StopRequest => w.(stop := true)
  }

  function Accept(g: Ledger, m: Msg): Ledger {
    g.(accepted := g.accepted + [m])
  }

  function Deliver(g: Ledger, m: Msg): Ledger {
    g.(sent := g.sent + [m])
  }

  function Lose(g: Ledger, air: seq<Msg>, queue: seq<Msg>): Ledger {
    g.(lost := g.lost + air + queue)
  }

  function Airborne(l: Life, tap: bool): seq<Msg> {
    if l.flight.Some? && l.flight.value.isTap == tap then [l.flight.value.msg] else []
  }

  /** What a step does to the record; on exit everything still queued is lost, in queue order. */
  function Step(l: Life, e: Event): Life
    requires Enabled(l, e)
  {
    var l1 := l.(w := Act(l.w, e));
    match e
    case Control(ty, payload) =>
      if Running(l.w) then l1.(ctrl := Accept(l.ctrl, Msg(ty, l.w.sid, payload))) else l1
    case Tap(payload, flood, now) =>
      if !Verdict(l.w, payload, flood, now).Queued? then l1.(clock := now)
      else l1.(clock := now, tap := Accept(l.tap, TapMsg(l.w, payload)),
               floods := if flood then Logged(l.floods, now, QueuedBytes(|payload|)) else l.floods)
    case Take =>
      if l.w.stop then
        l1.(exited := true, ctrl := Lose(l.ctrl, [], l.w.ctrl), tap := Lose(l.tap, [], l.w.tap))
      else l1.(flight := Some(Flight(Pop(l.w).1.value, l.w.ctrl == [])))
    case Sent =>
      var f := l.flight.value;
      if f.isTap then l1.(flight := None, tap := Deliver(l.tap, f.msg))
      else l1.(flight := None, ctrl := Deliver(l.ctrl, f.msg))
    case SendFailed =>
      l1.(flight := None, exited := true,
          ctrl := Lose(l.ctrl, Airborne(l, false), l.w.ctrl), tap := Lose(l.tap, Airborne(l, true), l.w.tap))
    case StopRequest => l1
  }

  /** The steps of one session so far, oldest first. */
  datatype Trace = Start | After(past: Trace, event: Event)

  predicate Legal(sid: int, limit: int, tr: Trace)
    decreases tr, 0
  {
    tr.After? ==> Legal(sid, limit, tr.past) && Enabled(Run(sid, limit, tr.past), tr.event)
  }

  function Run(sid: int, limit: int, tr: Trace): Life
    requires Legal(sid, limit, tr)
    decreases tr, 1
  {
    if tr.Start? then Born(sid, limit) else Step(Run(sid, limit, tr.past), tr.event)
  }

  /** TAP enqueues come in the order of their time stamps. Only the flood budget relies on it. */
  predicate Ordered(sid: int, limit: int, tr: Trace)
    requires Legal(sid, limit, tr)
  {
    tr.After? ==>
      && Ordered(sid, limit, tr.past)
      && (tr.event.Tap? ==> Run(sid, limit, tr.past).clock <= tr.event.now)
  }

  /** Every accepted message of a class is sent, in flight, lost or queued, in that order. */
  predicate Balanced(g: Ledger, air: seq<Msg>, queue: seq<Msg>) {
    g.accepted == g.sent + air + g.lost + queue
  }

  predicate Conserved(l: Life) {
    && Balanced(l.ctrl, Airborne(l, false), l.w.ctrl)
    && Balanced(l.tap, Airborne(l, true), l.w.tap)
    && (l.exited ==> l.w.stop && l.w.ctrl == [] && l.w.tap == [] && l.flight == None)
    && (!l.exited ==> l.ctrl.lost == [] && l.tap.lost == [])
    && l.w.started
  }

  lemma AcceptBalances(g: Ledger, air: seq<Msg>, queue: seq<Msg>, m: Msg)
    requires Balanced(g, air, queue)
    ensures Balanced(Accept(g, m), air, queue + [m])
  {
  }

  lemma TakeBalances(g: Ledger, queue: seq<Msg>)
    requires Balanced(g, [], queue) && g.lost == [] && queue != []
    ensures Balanced(g, [queue[0]], queue[1..])
  {
  }

  lemma DeliverBalances(g: Ledger, m: Msg, queue: seq<Msg>)
    requires Balanced(g, [m], queue) && g.lost == []
    ensures Balanced(Deliver(g, m), [], queue)
  {
  }

  lemma LoseBalances(g: Ledger, air: seq<Msg>, queue: seq<Msg>)
    requires Balanced(g, air, queue) && g.lost == []
    ensures Balanced(Lose(g, air, queue), [], [])
  {
  }

  lemma StepConserves(l: Life, e: Event)
    requires Enabled(l, e) && Conserved(l)
    ensures Conserved(Step(l, e))
  {
    match e {
      case Control(ty, payload) => AcceptBalances(l.ctrl, Airborne(l, false), l.w.ctrl, Msg(ty, l.w.sid, payload));
      case Tap(payload, flood, now) => AcceptBalances(l.tap, Airborne(l, true), l.w.tap, TapMsg(l.w, payload));
      case Take =>
        if l.w.stop {
          LoseBalances(l.ctrl, [], l.w.ctrl);
          LoseBalances(l.tap, [], l.w.tap);
        } else if l.w.ctrl != [] {
          TakeBalances(l.ctrl, l.w.ctrl);
        } else {
          TakeBalances(l.tap, l.w.tap);
        }
      case Sent =>
        var f := l.flight.value;
        DeliverBalances(if f.isTap then l.tap else l.ctrl, f.msg, if f.isTap then l.w.tap else l.w.ctrl);
      case SendFailed =>
        if !l.exited {
          LoseBalances(l.ctrl, Airborne(l, false), l.w.ctrl);
          LoseBalances(l.tap, Airborne(l, true), l.w.tap);
        }
      case StopRequest =>
    }
  }

  lemma PrefixOfFour(a: seq<Msg>, b: seq<Msg>, c: seq<Msg>, d: seq<Msg>)
    ensures a <= a + b + c + d
  {
  }

  /** Conservation over any interleaving of enqueues, sends, failures and stops; in particular
      the messages sent are a prefix of the messages accepted, class by class. */
  lemma {:induction false} Conservation(sid: int, limit: int, tr: Trace)
    requires Legal(sid, limit, tr)
    ensures Conserved(Run(sid, limit, tr))
    ensures var l := Run(sid, limit, tr); l.ctrl.sent <= l.ctrl.accepted && l.tap.sent <= l.tap.accepted
  {
    var l := Run(sid, limit, tr);
    if tr.After? {
      Conservation(sid, limit, tr.past);
      StepConserves(Run(sid, limit, tr.past), tr.event);
    }
    PrefixOfFour(l.ctrl.sent, Airborne(l, false), l.ctrl.lost, l.w.ctrl);
    PrefixOfFour(l.tap.sent, Airborne(l, true), l.tap.lost, l.w.tap);
  }

  /** When a TAP message is taken, it is the oldest queued one and every control message
      accepted so far has been sent. */
  lemma TapWaitsForControl(sid: int, limit: int, tr: Trace)
    requires Legal(sid, limit, After(tr, Take))
    requires var l := Run(sid, limit, After(tr, Take)); l.flight.Some? && l.flight.value.isTap
    ensures var l := Run(sid, limit, tr);
            && l.ctrl.sent == l.ctrl.accepted
            && |l.w.tap| > 0 && Run(sid, limit, After(tr, Take)).flight.value.msg == l.w.tap[0]
            && l.tap.sent + l.w.tap == l.tap.accepted
  {
    Conservation(sid, limit, tr);
  }

  predicate Extends(tr: Trace, tr0: Trace) {
    tr == tr0 || (tr.After? && Extends(tr.past, tr0))
  }

  /** After a stop request or a failed send nothing more is accepted, whatever happens next. */
  lemma {:induction false} StopIsFinal(sid: int, limit: int, tr: Trace, tr0: Trace)
    requires Legal(sid, limit, tr) && Legal(sid, limit, tr0) && Extends(tr, tr0)
    requires Run(sid, limit, tr0).w.stop
    ensures var l, l0 := Run(sid, limit, tr), Run(sid, limit, tr0);
            l.w.stop && l.ctrl.accepted == l0.ctrl.accepted && l.tap.accepted == l0.tap.accepted
  {
    if tr != tr0 {
      StopIsFinal(sid, limit, tr.past, tr0);
    }
  }

  // ---- Byte accounting -----------------------------------------------------------------

  function Total(q: seq<Msg>): int {
    if q == [] then 0 else Total(q[..|q| - 1]) + QueuedBytes(|q[|q| - 1].payload|)
  }

  lemma TotalSnoc(q: seq<Msg>, m: Msg)
    ensures Total(q + [m]) == Total(q) + QueuedBytes(|m.payload|)
  {
    assert (q + [m])[..|q|] == q;
  }

  lemma {:induction false} TotalHead(q: seq<Msg>)
    requires q != []
    ensures Total(q) == QueuedBytes(|q[0].payload|) + Total(q[1..])
  {
    if |q| > 1 {
      TotalHead(q[..|q| - 1]);
      assert q[..|q| - 1][1..] == q[1..][..|q| - 2];
    }
  }

  lemma {:induction false} TotalNat(q: seq<Msg>)
    ensures Total(q) >= 0
  {
    if q != [] {
      TotalNat(q[..|q| - 1]);
    }
  }

  predicate Exact(w: Writer) {
    w.pending == Total(w.tap)
  }

  lemma TakeExact(w: Writer)
    requires Exact(w) && w.ctrl == [] && w.tap != []
    ensures Exact(Pop(w).0) && w.pending >= QueuedBytes(|w.tap[0].payload|)
  {
    TotalHead(w.tap);
    TotalNat(w.tap[1..]);
  }

  lemma EnqueueExact(w: Writer, payload: seq<byte>, flood: bool, now: int)
    requires Exact(w) && Total(EnqueueTap(w, payload, flood, now).tap) < U32_MOD
    ensures Exact(EnqueueTap(w, payload, flood, now))
  {
    TotalSnoc(w.tap, TapMsg(w, payload));
    TotalNat(w.tap);
  }

  lemma ActExact(l: Life, e: Event)
    requires Enabled(l, e) && Exact(l.w) && Total(Act(l.w, e).tap) < U32_MOD
    ensures Exact(Act(l.w, e))
  {
    match e {
      case Tap(payload, flood, now) => EnqueueExact(l.w, payload, flood, now);
      case Take =>
        if !l.w.stop && l.w.ctrl == [] {
          TakeExact(l.w);
        }
      case _ =>
    }
  }

  lemma ActPendingRange(w: Writer, e: Event)
    requires 0 <= w.pending < U32_MOD
    ensures 0 <= Act(w, e).pending < U32_MOD
  {
  }

  lemma {:induction false} PendingRange(sid: int, limit: int, tr: Trace)
    requires Legal(sid, limit, tr)
    ensures 0 <= Run(sid, limit, tr).w.pending < U32_MOD
  {
    if tr.After? {
      PendingRange(sid, limit, tr.past);
      ActPendingRange(Run(sid, limit, tr.past).w, tr.event);
    }
  }

  /** At every moment of a run the pending counter equals the bytes queued. */
  predicate AlwaysExact(sid: int, limit: int, tr: Trace)
    requires Legal(sid, limit, tr)
  {
    Exact(Run(sid, limit, tr).w) && (tr.After? ==> AlwaysExact(sid, limit, tr.past))
  }

  /** At every moment of a run the bytes queued fit in 32 bits. */
  predicate AlwaysFits(sid: int, limit: int, tr: Trace)
    requires Legal(sid, limit, tr)
  {
    Total(Run(sid, limit, tr).w.tap) < U32_MOD && (tr.After? ==> AlwaysFits(sid, limit, tr.past))
  }

  /** The pending counter equals the bytes queued at every moment of a run if and only if the
      bytes queued never reach 2^32 (unicast is not held to the budget). */
  lemma {:induction false} PendingExact(sid: int, limit: int, tr: Trace)
    requires Legal(sid, limit, tr)
    ensures AlwaysExact(sid, limit, tr) <==> AlwaysFits(sid, limit, tr)
  {
    PendingRange(sid, limit, tr);
    if tr.After? {
      PendingExact(sid, limit, tr.past);
      var l := Run(sid, limit, tr.past);
      if Exact(l.w) && Total(Act(l.w, tr.event).tap) < U32_MOD {
        ActExact(l, tr.event);
      }
    }
  }

  /** Only unicasts of a size that the reader of messages lets through, to a session whose socket takes nothing. */
  predicate OrdinaryUnicasts(tr: Trace) {
    tr.After? ==> OrdinaryUnicasts(tr.past) && tr.event.Tap? && !tr.event.flood && |tr.event.payload| <= 1432
  }

  /** One more such unicast, of 48 bytes. */
  lemma OneUnicast(tr: Trace, n: nat) returns (tr': Trace)
    requires Legal(1, 0, tr) && OrdinaryUnicasts(tr)
    requires var w := Run(1, 0, tr).w; Running(w) && Total(w.tap) == 64 * n && w.pending == Wrap32(64 * n)
    ensures Legal(1, 0, tr') && OrdinaryUnicasts(tr')
    ensures var w := Run(1, 0, tr').w; Running(w) && Total(w.tap) == 64 * (n + 1) && w.pending == Wrap32(64 * (n + 1))
  {
    var payload := seq(48, _ => 0);
    var w := Run(1, 0, tr).w;
    tr' := After(tr, Tap(payload, false, 1));
    UnicastQueued(w, payload, n);
    assert Run(1, 0, tr').w == EnqueueTap(w, payload, false, 1);
  }

  lemma UnicastQueued(w: Writer, payload: seq<byte>, n: nat)
    requires Running(w) && Total(w.tap) == 64 * n && w.pending == Wrap32(64 * n) && |payload| == 48
    ensures var w' := EnqueueTap(w, payload, false, 1);
            Running(w') && Total(w'.tap) == 64 * (n + 1) && w'.pending == Wrap32(64 * (n + 1))
  {
    assert QueuedBytes(|payload|) == 64;
    TotalSnoc(w.tap, TapMsg(w, payload));
    WrapStep(64 * n, 64);
  }

  lemma WrapStep(a: nat, b: nat)
    ensures Wrap32(Wrap32(a) + b) == Wrap32(a + b)
  {
  }

  lemma {:induction false} Backlog(n: nat) returns (tr: Trace)
    ensures Legal(1, 0, tr) && OrdinaryUnicasts(tr)
    ensures var w := Run(1, 0, tr).w; Running(w) && Total(w.tap) == 64 * n && w.pending == Wrap32(64 * n)
  {
    if n == 0 {
      tr := Start;
    } else {
      var past := Backlog(n - 1);
      tr := OneUnicast(past, n - 1);
    }
  }

  /** 2^26 unicasts of 48 bytes leave 2^32 bytes waiting and the counter at zero. */
  lemma PendingWraps() returns (tr: Trace)
    ensures Legal(1, 0, tr) && OrdinaryUnicasts(tr)
    ensures Total(Run(1, 0, tr).w.tap) == U32_MOD && Run(1, 0, tr).w.pending == 0
  {
    tr := Backlog(0x400_0000);
  }

  /** A message counts 16 bytes more than its payload, up to the most that 32 bits hold. */
  lemma QueuedBytesAre(n: nat)
    ensures QueuedBytes(n) == if n + 16 < 0x1_0000_0000 then n + 16 else 0xffff_ffff
  {
  }

  /** Floods dropped over budget so far. */
  function Drops(sid: int, limit: int, tr: Trace): nat
    requires Legal(sid, limit, tr)
  {
    if tr.Start? then 0
    else
      var l := Run(sid, limit, tr.past);
      Drops(sid, limit, tr.past)
        + if tr.event.Tap? && Verdict(l.w, tr.event.payload, tr.event.flood, tr.event.now).Dropped? then 1 else 0
  }

  /** The drop counter counts them, modulo 2^32. */
  lemma {:induction false} DropsCounted(sid: int, limit: int, tr: Trace)
    requires Legal(sid, limit, tr)
    ensures Run(sid, limit, tr).w.drops == Drops(sid, limit, tr) % 0x1_0000_0000
  {
    if tr.After? {
      DropsCounted(sid, limit, tr.past);
    }
  }

  // ---- The flood budget -------------------------------------------------------------------

  /** Bytes of the floods admitted to the queue in clock second t. */
  function FloodBytes(floods: FloodLog, t: int): int {
    match floods
    case Quiet => 0
    case Logged(past, sec, bytes) => FloodBytes(past, t) + if sec == t then bytes else 0
  }

  /** The window's counter, in any order of stamps, stays in the budget. */
  predicate WindowOk(w: Writer, limit: int) {
    w.limit == limit && 0 <= w.pending && 0 <= w.winBytes <= Limit(w) && 0 <= w.winSec
  }

  lemma FloodQueued(w: Writer, payload: seq<byte>, now: int)
    requires Verdict(w, payload, true, now).Queued? && 0 <= w.pending && 0 <= w.winBytes && 0 <= w.limit < U32_MOD
    ensures var w', n := EnqueueTap(w, payload, true, now), QueuedBytes(|payload|);
            && w'.winSec == now && w'.winBytes == WindowBytes(w, now) + n && w'.limit == w.limit
            && w'.winBytes <= Limit(w)
            && w'.pending == w.pending + n <= Limit(w)
  {
  }

  lemma ActKeepsWindow(w: Writer, e: Event)
    requires e.Tap? ==> !e.flood
    ensures var w' := Act(w, e);
            && w'.winSec == w.winSec && w'.winBytes == w.winBytes && w'.limit == w.limit
            && (w.pending >= 0 ==> w'.pending >= 0)
  {
  }

  lemma StepWindow(l: Life, e: Event, limit: u32)
    requires Enabled(l, e) && WindowOk(l.w, limit)
    ensures WindowOk(Step(l, e).w, limit)
  {
    if e.Tap? && e.flood {
      if Verdict(l.w, e.payload, true, e.now).Queued? {
        FloodQueued(l.w, e.payload, e.now);
      }
    } else {
      ActKeepsWindow(l.w, e);
    }
  }

  lemma {:induction false} RunWindow(sid: int, limit: u32, tr: Trace)
    requires Legal(sid, limit, tr)
    ensures WindowOk(Run(sid, limit, tr).w, limit)
  {
    if tr.After? {
      RunWindow(sid, limit, tr.past);
      StepWindow(Run(sid, limit, tr.past), tr.event, limit);
    }
  }

  /** The window's counter is the flood bytes of the window's second. */
  predicate Counts(l: Life) {
    l.w.winBytes == FloodBytes(l.floods, l.w.winSec)
  }

  predicate AlwaysCounts(sid: int, limit: int, tr: Trace)
    requires Legal(sid, limit, tr)
  {
    Counts(Run(sid, limit, tr)) && (tr.After? ==> AlwaysCounts(sid, limit, tr.past))
  }

  /** A flood is offered to the running writer in a second that its window has left, with bytes in it. */
  predicate Reopens(l: Life, e: Event) {
    e.Tap? && e.flood && Running(l.w) && e.now != l.w.winSec && FloodBytes(l.floods, e.now) != 0
  }

  predicate NeverReopens(sid: int, limit: int, tr: Trace)
    requires Legal(sid, limit, tr)
  {
    tr.After? ==> NeverReopens(sid, limit, tr.past) && !Reopens(Run(sid, limit, tr.past), tr.event)
  }

  lemma StepCounts(l: Life, e: Event, limit: u32)
    requires Enabled(l, e) && WindowOk(l.w, limit) && Counts(l)
    ensures Counts(Step(l, e)) <==> !Reopens(l, e)
  {
    if e.Tap? && e.flood {
      if Verdict(l.w, e.payload, true, e.now).Queued? {
        FloodQueued(l.w, e.payload, e.now);
      }
    } else {
      ActKeepsWindow(l.w, e);
    }
  }

  /** In any order of stamps: the window's counter is the flood bytes of its second at every moment of a run
      if and only if no flood is ever offered in a second that the window left behind with bytes in it. */
  lemma {:induction false} WindowExact(sid: int, limit: u32, tr: Trace)
    requires Legal(sid, limit, tr)
    ensures AlwaysCounts(sid, limit, tr) <==> NeverReopens(sid, limit, tr)
  {
    if tr.After? {
      WindowExact(sid, limit, tr.past);
      RunWindow(sid, limit, tr.past);
      if Counts(Run(sid, limit, tr.past)) {
        StepCounts(Run(sid, limit, tr.past), tr.event, limit);
      }
    }
  }

  /** Right after an accepted flood everything pending fits in the limit, in any order of stamps; and while
      the window never reopens a second, no second gets more flood bytes than the limit. */
  lemma {:induction false} FloodBudget(sid: int, limit: u32, tr: Trace, t: int)
    requires Legal(sid, limit, tr)
    ensures tr.After? && Run(sid, limit, tr).floods != Run(sid, limit, tr.past).floods
            ==> Run(sid, limit, tr).w.pending <= if limit == 0 then DEFAULT_TAP_QUEUE_LIMIT else limit
    ensures NeverReopens(sid, limit, tr)
            ==> FloodBytes(Run(sid, limit, tr).floods, t) <= if limit == 0 then DEFAULT_TAP_QUEUE_LIMIT else limit
  {
    RunWindow(sid, limit, tr);
    WindowExact(sid, limit, tr);
    if tr.After? {
      FloodBudget(sid, limit, tr.past, t);
      RunWindow(sid, limit, tr.past);
      var l := Run(sid, limit, tr.past);
      if Run(sid, limit, tr).floods != l.floods {
        FloodQueued(l.w, tr.event.payload, tr.event.now);
      }
    }
  }

  /** The window's second is the latest with flood bytes in it, and is not ahead of the stamps. */
  ghost predicate LatestWindow(l: Life) {
    l.w.winSec <= l.clock && forall t | t > l.w.winSec :: FloodBytes(l.floods, t) == 0
  }

  /** Stamps in order never reopen a second. */
  lemma {:induction false} OrderedNeverReopens(sid: int, limit: int, tr: Trace)
    requires Legal(sid, limit, tr) && Ordered(sid, limit, tr)
    ensures NeverReopens(sid, limit, tr) && LatestWindow(Run(sid, limit, tr))
  {
    if tr.After? {
      OrderedNeverReopens(sid, limit, tr.past);
      if !(tr.event.Tap? && tr.event.flood) {
        ActKeepsSecond(Run(sid, limit, tr.past).w, tr.event);
      }
    }
  }

  lemma ActKeepsSecond(w: Writer, e: Event)
    requires e.Tap? ==> !e.flood
    ensures Act(w, e).winSec == w.winSec
  {
  }

  function SendFlood(tr: Trace, payload: seq<byte>, now: int): Trace {
    After(After(After(tr, Tap(payload, true, now)), Take), Sent)
  }

  /** An idle writer with a limit of 100 queues and sends a flood of 60 bytes in a second it has not seen last. */
  lemma OneFlood(tr: Trace, payload: seq<byte>, now: int)
    requires QueuedBytes(|payload|) == 60 && now > 0 && Legal(1, 100, tr)
    requires var l := Run(1, 100, tr);
             && l.w == Writer(true, false, 1, [], [], 0, l.w.winSec, l.w.winBytes, l.w.drops, 100)
             && l.flight == None && !l.exited && l.w.winSec != now
    ensures Legal(1, 100, SendFlood(tr, payload, now))
    ensures var l, l' := Run(1, 100, tr), Run(1, 100, SendFlood(tr, payload, now));
            && l'.w == Writer(true, false, 1, [], [], 0, now, 60, l.w.drops, 100)
            && l'.flight == None && !l'.exited && l'.clock == now && l'.floods == Logged(l.floods, now, 60)
    ensures NeverReopens(1, 100, SendFlood(tr, payload, now))
            ==> NeverReopens(1, 100, tr) && FloodBytes(Run(1, 100, tr).floods, now) == 0
  {
    var t1 := After(tr, Tap(payload, true, now));
    assert Legal(1, 100, t1) && Run(1, 100, t1).w.tap == [Msg(MSG_TAP_FRAME, 1, payload)];
    var t2 := After(t1, Take);
    assert Legal(1, 100, t2) && Run(1, 100, t2).w.tap == [];
    assert NeverReopens(1, 100, After(t2, Sent)) ==> NeverReopens(1, 100, t2);
    assert NeverReopens(1, 100, t2) ==> NeverReopens(1, 100, t1);
  }

  /** With a limit of 100, floods of 60 bytes stamped 11, 10 and 11 are all queued, since the third one reopens
      the second that the second one left; second 11 gets 120 bytes. */
  lemma StaleStampOverspends() returns (tr: Trace)
    ensures Legal(1, 100, tr) && !NeverReopens(1, 100, tr)
    ensures FloodBytes(Run(1, 100, tr).floods, 11) == 120
  {
    var payload := seq(60 - HDR_SIZE, _ => 0);
    OneFlood(Start, payload, 11);
    var t1 := SendFlood(Start, payload, 11);
    OneFlood(t1, payload, 10);
    var t2 := SendFlood(t1, payload, 10);
    OneFlood(t2, payload, 11);
    tr := SendFlood(t2, payload, 11);
  }
}
