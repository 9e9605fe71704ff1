/** Whole runs of the TapHub: events, the ghost history of what was heard and flooded, and the
    statements that hold in every reachable state. */
module TapRuns {
  import opened Bytes
  import opened Scan
  import opened Proto
  import opened TapHub
  import W = Writer

  datatype Event =
    | Join(fd: int, sid: int, net: u32, nodePk: int, isTap: bool, config: Config, started: bool)
    | Leave(fd: int)
    | Frame(fd: int, net: u32, frame: seq<byte>, payload: seq<byte>, now: int)
    | Writer(slot: nat, step: W.Event)

  /** One line of the history of a run. */
  datatype Record =
    | Joined(fd: int)
    | Left(fd: int)
    | Heard(fd: int, net: int, mac: Mac, time: int, learnt: Learnt)
    | Flooded(fd: int, net: int, time: int, netLimit: int)

  datatype History = Begin | Then(past: History, last: Record)

  /** The hub with the latest time stamp seen, its history and, per slot, the steps its writer took since
      the session joined. */
  datatype Tap = Tap(hub: Hub, clock: int, hist: History, steps: seq<W.Trace>)

  datatype Run = Init | More(before: Run, event: Event)

  predicate Enabled(t: Tap, e: Event) {
    match e
    case Join(fd, _, _, _, _, _, _) => First(t.hub.sessions, FdKey(fd)) < 0
    case Leave(_) => true
    case Frame(_, _, _, payload, now) =>
      0 < now < U64_MOD - FREEZE_SEC && |payload| + HDR_SIZE < U32_MOD
    case Writer(j, step) =>
      && j < |t.hub.sessions| == |t.steps| && t.hub.sessions[j].active && !step.Tap?
      && var q := t.hub.sessions[j].q;
         W.Legal(q.sid, q.limit, t.steps[j]) && W.Enabled(W.Run(q.sid, q.limit, t.steps[j]), step)
  }

  function After(h: Hub, e: Event): Hub {
    match e
    case Join(fd, sid, net, nodePk, isTap, config, started) =>
      Register(h, fd, sid, net, nodePk, isTap, config, started).0
    case Leave(fd) => Unregister(h, fd)
    case Frame(fd, net, frame, payload, now) => Relay(h, fd, net, frame, payload, now).0
    case Writer(j, step) =>
      if j < |h.sessions| then h.(sessions := h.sessions[j := h.sessions[j].(q := W.Act(h.sessions[j].q, step))])
      else h
  }

  /** What a frame adds to the history: its source when the relay accepted it, and the flood
      when the limiter admitted one. */
  function FrameRecords(hist: History, a: Admission, fd: int, net: int, frame: seq<byte>, now: int, netLimit: int): History
    requires |frame| >= MIN_FRAME
  {
    var heard := if a.learnt in {Ignored, Frozen} then hist
                 else Then(hist, Heard(fd, net, Src(frame), now, a.learnt));
    if a.verdict == Admitted then Then(heard, Flooded(fd, net, now, netLimit)) else heard
  }

  function Recorded(t: Tap, e: Event): History {
    match e
    case Join(fd, sid, net, nodePk, isTap, config, started) =>
      if Register(t.hub, fd, sid, net, nodePk, isTap, config, started).1 then Then(t.hist, Joined(fd)) else t.hist
    case Leave(fd) => Then(t.hist, Left(fd))
    case Frame(fd, net, frame, payload, now) =>
      var i := First(t.hub.sessions, SessionKey(fd, net));
      if |frame| < MIN_FRAME || i < 0 then t.hist
      else FrameRecords(t.hist, Admit(t.hub, fd, net, frame, now), fd, net, frame, now, t.hub.sessions[i].netLimit)
    case Writer(_, _) => t.hist
  }

  /** The step a frame offers to the writer of slot j, if any. */
  function Offer(h: Hub, e: Event, j: nat): Option<W.Event>
    requires j < |h.sessions|
  {
    if !e.Frame? then None
    else
      var i := First(h.sessions, SessionKey(e.fd, e.net));
      if i < 0 then None
      else
        match Admit(h, e.fd, e.net, e.frame, e.now).verdict
        case Known(k) =>
          if k == j && h.sessions[j].fd != e.fd && !Barred(h.sessions[i], h.sessions[j])
          then Some(W.Tap(e.payload, false, e.now)) else None
        case Admitted =>
          if Eligible(h.sessions[i], h.sessions[j]) then Some(W.Tap(e.payload, true, e.now)) else None
        case _ => None
  }

  function StepsAfter(t: Tap, e: Event): seq<W.Trace> {
    match e
    case Join(_, _, _, _, _, _, _) =>
      var i := First(t.hub.sessions, FreeSession());
      if 0 <= i < |t.steps| then t.steps[i := W.Start] else t.steps
    case Leave(_) => t.steps
    case Writer(j, step) => if j < |t.steps| then t.steps[j := W.After(t.steps[j], step)] else t.steps
    case Frame(_, _, _, _, _) =>
      seq(|t.steps|, j requires 0 <= j < |t.steps| =>
        if j < |t.hub.sessions| && Offer(t.hub, e, j).Some? then W.After(t.steps[j], Offer(t.hub, e, j).value)
        else t.steps[j])
  }

  function Latest(clock: int, now: int): int {
    if clock <= now then now else clock
  }

  function Step(t: Tap, e: Event): Tap {
    Tap(After(t.hub, e), if e.Frame? then Latest(t.clock, e.now) else t.clock, Recorded(t, e), StepsAfter(t, e))
  }

  function State(r: Run): Tap {
    match r
    case Init => Tap(EMPTY_HUB, 0, Begin, seq(MAX_SESSIONS, _ => W.Start))
    case More(before, e) => Step(State(before), e)
  }

  /** Runs whose time stamps are positive and whose descriptors are not reused while open. The relay
      stamps a frame before it takes the lock, so the stamps need not be in order. */
  predicate Legal(r: Run) {
    r.More? ==> Legal(r.before) && Enabled(State(r.before), r.event)
  }

  /** Frames take the lock in the order of their stamps. */
  predicate Ordered(r: Run) {
    r.More? ==> Ordered(r.before) && (r.event.Frame? ==> State(r.before).clock <= r.event.now)
  }

  /** The stamp of the last frame from a descriptor since it joined. */
  function LastStamp(r: Run, fd: int): int {
    match r
    case Init => 0
    case More(before, Frame(f, _, _, _, now)) => if f == fd then now else LastStamp(before, fd)
    case More(before, Join(f, _, _, _, _, _, _)) => if f == fd then 0 else LastStamp(before, fd)
    case More(before, _) => LastStamp(before, fd)
  }

  /** Each session's frames come in the order of their stamps, as the thread that reads and relays them
      one at a time on a clock that never goes back makes sure. */
  predicate OwnOrder(r: Run) {
    r.More? ==> OwnOrder(r.before) && (r.event.Frame? ==> LastStamp(r.before, r.event.fd) <= r.event.now)
  }

  lemma {:induction false} StampsBelowClock(r: Run, fd: int)
    requires Legal(r)
    ensures 0 <= LastStamp(r, fd) <= State(r).clock
  {
    if r.More? {
      StampsBelowClock(r.before, fd);
    }
  }

  lemma {:induction false} OrderedIsOwn(r: Run)
    requires Legal(r) && Ordered(r)
    ensures OwnOrder(r)
  {
    if r.More? {
      OrderedIsOwn(r.before);
      if r.event.Frame? {
        StampsBelowClock(r.before, r.event.fd);
      }
    }
  }

  // ---- Reading the history -------------------------------------------------------------------

  /** Session and time of the last accepted frame from an address, unless that session left. */
  function LastHeard(h: History, net: int, mac: Mac): Option<(int, int)> {
    match h
    case Begin => None
    case Then(p, Heard(fd, n, m, time, _)) => if n == net && m == mac then Some((fd, time)) else LastHeard(p, net, mac)
    case Then(p, Left(fd)) =>
      var prev := LastHeard(p, net, mac);
      if prev.Some? && prev.value.0 == fd then None else prev
    case Then(p, _) => LastHeard(p, net, mac)
  }

  /** Times of the accepted moves of an address since its entry was last created. */
  function MoveTimes(h: History, net: int, mac: Mac): seq<int> {
    match h
    case Begin => []
    case Then(p, Heard(_, n, m, time, k)) =>
      if n != net || m != mac then MoveTimes(p, net, mac)
      else if k == Created then []
      else if k == Moved then MoveTimes(p, net, mac) + [time]
      else MoveTimes(p, net, mac)
    case Then(p, _) => MoveTimes(p, net, mac)
  }

  /** Addresses moved onto a session since it joined. */
  function MovedOnto(h: History, fd: int): nat {
    match h
    case Begin => 0
    case Then(p, Joined(f)) => if f == fd then 0 else MovedOnto(p, fd)
    case Then(p, Heard(f, _, _, _, k)) => MovedOnto(p, fd) + if f == fd && k == Moved then 1 else 0
    case Then(p, _) => MovedOnto(p, fd)
  }

  /** Floods a session was admitted in second t, since it joined. */
  function SessionFloods(h: History, fd: int, t: int): nat {
    match h
    case Begin => 0
    case Then(p, Joined(f)) => if f == fd then 0 else SessionFloods(p, fd, t)
    case Then(p, Flooded(f, _, time, _)) => SessionFloods(p, fd, t) + if f == fd && time == t then 1 else 0
    case Then(p, _) => SessionFloods(p, fd, t)
  }

  /** Floods admitted in second t for the rate-limited sessions of a network. */
  function NetworkFloods(h: History, net: int, t: int): nat {
    match h
    case Begin => 0
    case Then(p, Flooded(_, n, time, l)) => NetworkFloods(p, net, t) + if n == net && time == t && l > 0 then 1 else 0
    case Then(p, _) => NetworkFloods(p, net, t)
  }

  // ---- Invariants -------------------------------------------------------------------------

  predicate Shaped(t: Tap) {
    && |t.hub.sessions| == |t.steps| == MAX_SESSIONS && |t.hub.macs| == MAX_MACS && |t.hub.rates| == MAX_RATES
    && t.clock >= 0
  }

  ghost predicate UniqueFds(ss: seq<Session>) {
    forall i, j | 0 <= i < j < |ss| && ss[i].active && ss[j].active :: ss[i].fd != ss[j].fd
  }

  predicate Live(ss: seq<Session>, fd: int, net: int) {
    First(ss, SessionKey(fd, net)) >= 0
  }

  ghost predicate UniqueMacs(macs: seq<MacEntry>) {
    forall i, j | 0 <= i < j < |macs| && macs[i].active && macs[j].active && macs[i].net == macs[j].net ::
      macs[i].mac != macs[j].mac
  }

  predicate EntryOk(e: MacEntry, ss: seq<Session>, clock: int) {
    Learnable(e.mac) && Live(ss, e.fd, e.net) && 0 < e.lastSeen <= clock && 0 < e.moveWindow <= clock
  }

  ghost predicate MacsOk(macs: seq<MacEntry>, ss: seq<Session>, clock: int) {
    UniqueMacs(macs) && forall i | 0 <= i < |macs| && macs[i].active :: EntryOk(macs[i], ss, clock)
  }

  ghost predicate Agrees(macs: seq<MacEntry>, h: History) {
    forall i | 0 <= i < |macs| && macs[i].active ::
      LastHeard(h, macs[i].net, macs[i].mac) == Some((macs[i].fd, macs[i].lastSeen))
  }

  ghost predicate Capped(macs: seq<MacEntry>, ss: seq<Session>, h: History) {
    forall j | 0 <= j < |ss| && ss[j].active ::
      Count(macs, OwnedBy(ss[j].fd, ss[j].net)) <= ss[j].maxMac + MovedOnto(h, ss[j].fd)
  }
}
