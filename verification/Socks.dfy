/** The SOCKS stream registry as steps on values, and its runs. SocksServer.dfy is the in-place form. */
module Socks {
  import opened Bytes
  import opened Scan

  const MAX_STREAMS := 128
  const DEFAULT_MAX_STREAMS := 64
  const INVALID_SOCKET := -1
  const ID_COUNT := U32_MOD - 1

  datatype Stream = Stream(
    active: bool, id: u32, nodePk: int, dbId: int, nodeFd: int, clientFd: int,
    clientFin: bool, nodeFin: bool, dbFile: string)

  datatype Registry = Registry(slots: seq<Stream>, nextId: u32)

  datatype Reason =
    | ClientClosed | RemoteClosed | TargetConnectFailed | ResourceLimited | IdleTimeout | NodeClosed | OpenFailed

  /** What an operation does outside the lock, tagged with the slot it is about. */
  datatype Effect =
    | Shutdown(slot: nat, fd: int)
    | ShutdownSend(slot: nat, fd: int)
    | EndRow(slot: nat, dbFile: string, dbId: int, reason: Reason)

  const NO_STREAM := Stream(false, 0, 0, 0, 0, 0, false, false, "")
  const EMPTY := Registry(seq(MAX_STREAMS, _ => NO_STREAM), 1)

  function ReasonOf(code: u16): Reason {
    match code
    case 1 => ClientClosed
    case 3 => TargetConnectFailed
    case 4 => ResourceLimited
    case 5 => IdleTimeout
    case _ => RemoteClosed
  }

  // ---- Scans ---------------------------------------------------------------------------

  function IdKey(id: u32): Stream -> bool {
    (s: Stream) => s.active && s.id == id
  }

  function NodeStreamKey(id: u32, fd: int): Stream -> bool {
    (s: Stream) => s.active && s.id == id && s.nodeFd == fd
  }

  function NodeKey(pk: int): Stream -> bool {
    (s: Stream) => s.active && s.nodePk == pk
  }

  function Free(): Stream -> bool {
    (s: Stream) => !s.active
  }

  // ---- Operations ------------------------------------------------------------------------

  /** The next stream id and the counter after it; the counter skips zero when it wraps. */
  function TakeId(next: u32): (u32, u32)
    decreases next == 0
  {
    var bumped := if next + 1 == U32_MOD then 1 else next + 1;
    if next == 0 then TakeId(bumped) else (next, bumped)
  }

  function Cap(max: u32): u32 {
    if max == 0 then DEFAULT_MAX_STREAMS else max
  }

  /** A stream slot for a client of a node; id 0 reports failure. */
  function Open(r: Registry, pk: int, nodeFd: int, clientFd: int, dbFile: string, max: u32): (x: (Registry, u32))
    ensures |x.0.slots| == |r.slots|
  {
    var i := First(r.slots, Free());
    if pk <= 0 || nodeFd == INVALID_SOCKET || clientFd == INVALID_SOCKET || dbFile == "" then (r, 0)
    else if Count(r.slots, NodeKey(pk)) >= Cap(max) || i < 0 then (r, 0)
    else
      var (id, next) := TakeId(r.nextId);
      (Registry(r.slots[i := Stream(true, id, pk, 0, nodeFd, clientFd, false, false, dbFile)], next), id)
  }

  function AttachRow(r: Registry, id: u32, dbId: int): (x: Registry)
    ensures |x.slots| == |r.slots|
  {
    var i := First(r.slots, IdKey(id));
    if id == 0 || dbId <= 0 || i < 0 then r else r.(slots := r.slots[i := r.slots[i].(dbId := dbId)])
  }

  /** The database row of a stream is ended if one was attached. */
  function EndOf(i: nat, s: Stream, reason: Reason): seq<Effect> {
    if s.dbId <= 0 || s.dbFile == "" then [] else [EndRow(i, s.dbFile, s.dbId, reason)]
  }

  function Unregister(r: Registry, id: u32, closeClient: bool, reason: Reason): (x: (Registry, seq<Effect>))
    ensures |x.0.slots| == |r.slots|
  {
    var i := First(r.slots, IdKey(id));
    if id == 0 || i < 0 then (r, [])
    else
      var s := r.slots[i];
      (r.(slots := r.slots[i := s.(active := false)]),
       (if closeClient && s.clientFd != INVALID_SOCKET then [Shutdown(i, s.clientFd)] else []) + EndOf(i, s, reason))
  }

  predicate IsActive(r: Registry, id: u32) {
    id != 0 && First(r.slots, IdKey(id)) >= 0
  }

  /** One side's FIN; the stream closes when the other side's is already there. */
  function ClientFin(r: Registry, id: u32, reason: Reason): (x: (Registry, seq<Effect>))
    ensures |x.0.slots| == |r.slots|
  {
    var i := First(r.slots, IdKey(id));
    if id == 0 || i < 0 then (r, [])
    else
      var s := r.slots[i];
      (r.(slots := r.slots[i := s.(clientFin := true, active := !s.nodeFin)]),
       if s.nodeFin then EndOf(i, s, reason) else [])
  }

  function NodeFin(r: Registry, id: u32, nodeFd: int, reason: Reason): (x: (Registry, seq<Effect>))
    ensures |x.0.slots| == |r.slots|
  {
    var i := First(r.slots, NodeStreamKey(id, nodeFd));
    if id == 0 || nodeFd == INVALID_SOCKET || i < 0 then (r, [])
    else
      var s := r.slots[i];
      (r.(slots := r.slots[i := s.(nodeFin := true, active := !s.clientFin)]),
       (if s.clientFd != INVALID_SOCKET then [ShutdownSend(i, s.clientFd)] else [])
         + if s.clientFin then EndOf(i, s, reason) else [])
  }

  /** A close message from a node; without the FIN flag (bit 0) any node can close the stream. */
  function NodeClose(r: Registry, id: u32, nodeFd: int, code: u16, flags: u16): (x: (Registry, seq<Effect>))
    ensures |x.0.slots| == |r.slots|
  {
    if flags % 2 == 0 then Unregister(r, id, true, ReasonOf(code)) else NodeFin(r, id, nodeFd, ReasonOf(code))
  }

  function CloseSlot(s: Stream, nodeFd: int): Stream {
    if s.active && s.nodeFd == nodeFd then s.(active := false) else s
  }

  function SlotGoneEffects(i: nat, s: Stream, nodeFd: int): seq<Effect> {
    if s.active && s.nodeFd == nodeFd then [Shutdown(i, s.clientFd)] + EndOf(i, s, NodeClosed) else []
  }

  function NodeGoneEffects(slots: seq<Stream>, nodeFd: int): seq<Effect> {
    if slots == [] then []
    else
      var n := |slots| - 1;
      NodeGoneEffects(slots[..n], nodeFd) + SlotGoneEffects(n, slots[n], nodeFd)
  }

  lemma GoneNext(slots: seq<Stream>, i: nat, nodeFd: int)
    requires i < |slots|
    ensures NodeGoneEffects(slots[..i + 1], nodeFd)
         == NodeGoneEffects(slots[..i], nodeFd) + SlotGoneEffects(i, slots[i], nodeFd)
  {
    assert slots[..i + 1][..i] == slots[..i];
  }

  /** A node's session ended: all its streams close. */
  function NodeGone(r: Registry, nodeFd: int): (x: (Registry, seq<Effect>))
    ensures |x.0.slots| == |r.slots|
  {
    if nodeFd == INVALID_SOCKET then (r, [])
    else (r.(slots := seq(|r.slots|, i requires 0 <= i < |r.slots| => CloseSlot(r.slots[i], nodeFd))),
          NodeGoneEffects(r.slots, nodeFd))
  }

  // ---- Runs ------------------------------------------------------------------------------

  datatype Event =
    | OpenStream(pk: int, nodeFd: int, clientFd: int, dbFile: string, max: u32)
    | Attach(id: u32, dbId: int)
    | Drop(id: u32, closeClient: bool, reason: Reason)
    | FinFromClient(id: u32, reason: Reason)
    | CloseFromNode(id: u32, nodeFd: int, code: u16, flags: u16)
    | NodeLeft(nodeFd: int)

  /** Per stream, by the number of its allocation: how it was opened, rows attached and rows ended. */
  datatype Record =
    | Opened(serial: nat, pk: int, nodeFd: int, clientFd: int, dbFile: string)
    | Attached(serial: nat, row: int)
    | Ended(serial: nat, dbFile: string, row: int)

  datatype History = Begin | Then(past: History, last: Record)

  /** The registry with, per slot, the serial number of the stream it last held, the number of
      streams opened, and the history. */
  datatype State = State(reg: Registry, serials: seq<nat>, count: nat, hist: History)

  datatype Run = Init | More(before: Run, event: Event)

  function Apply(r: Registry, e: Event): (x: (Registry, seq<Effect>))
    ensures |x.0.slots| == |r.slots|
  {
    match e
    case OpenStream(pk, nodeFd, clientFd, dbFile, max) => (Open(r, pk, nodeFd, clientFd, dbFile, max).0, [])
    case Attach(id, dbId) => (AttachRow(r, id, dbId), [])
    case Drop(id, closeClient, reason) => Unregister(r, id, closeClient, reason)
    case FinFromClient(id, reason) => ClientFin(r, id, reason)
    case CloseFromNode(id, nodeFd, code, flags) => NodeClose(r, id, nodeFd, code, flags)
    case NodeLeft(nodeFd) => NodeGone(r, nodeFd)
  }

  /** The rows ended by a list of effects, by the serial number of the stream in the slot. */
  function RecordEnds(h: History, fx: seq<Effect>, serials: seq<nat>): History {
    if fx == [] then h
    else
      var before := RecordEnds(h, fx[..|fx| - 1], serials);
      var x := fx[|fx| - 1];
      if x.EndRow? && x.slot < |serials| then Then(before, Ended(serials[x.slot], x.dbFile, x.dbId)) else before
  }

  function Step(t: State, e: Event): State {
    var (reg, fx) := Apply(t.reg, e);
    match e
    case OpenStream(pk, nodeFd, clientFd, dbFile, max) =>
      var i := First(t.reg.slots, Free());
      if Open(t.reg, pk, nodeFd, clientFd, dbFile, max).1 == 0 || i >= |t.serials| || i < 0 then t.(reg := reg)
      else State(reg, t.serials[i := t.count], t.count + 1, Then(t.hist, Opened(t.count, pk, nodeFd, clientFd, dbFile)))
    case Attach(id, dbId) =>
      var i := First(t.reg.slots, IdKey(id));
      if id == 0 || dbId <= 0 || i < 0 || i >= |t.serials| then t.(reg := reg)
      else t.(reg := reg, hist := Then(t.hist, Attached(t.serials[i], dbId)))
    case _ => t.(reg := reg, hist := RecordEnds(t.hist, fx, t.serials))
  }

  function StateOf(r: Run): State {
    match r
    case Init => State(EMPTY, seq(MAX_STREAMS, _ => 0), 0, Begin)
    case More(before, e) => Step(StateOf(before), e)
  }

  /** The rows ended for stream k, each with its database. */
  function EndedRows(h: History, k: nat): seq<(string, int)> {
    match h
    case Begin => []
    case Then(p, Ended(serial, dbFile, row)) => EndedRows(p, k) + if serial == k then [(dbFile, row)] else []
    case Then(p, _) => EndedRows(p, k)
  }

  /** The row last attached to stream k, 0 if none was. */
  function LastRow(h: History, k: nat): int {
    match h
    case Begin => 0
    case Then(p, Attached(serial, row)) => if serial == k then row else LastRow(p, k)
    case Then(p, _) => LastRow(p, k)
  }

  /** How stream k was opened. */
  function Birth(h: History, k: nat): Option<Record> {
    match h
    case Begin => None
    case Then(p, Opened(serial, _, _, _, _)) => if serial == k then Some(h.last) else Birth(p, k)
    case Then(p, _) => Birth(p, k)
  }

  function FileOf(h: History, k: nat): string {
    match Birth(h, k)
    case Some(Opened(_, _, _, _, dbFile)) => dbFile
    case _ => ""
  }

  predicate WasAttached(h: History, k: nat) {
    LastRow(h, k) != 0
  }

  /** The id of the n-th stream opened, counting from 0. */
  function IdOf(n: nat): u32 {
    n % ID_COUNT + 1
  }

  predicate Holds(t: State, k: nat, i: nat) {
    i < |t.reg.slots| && i < |t.serials| && t.reg.slots[i].active && t.serials[i] == k
  }

  /** Stream number k is still registered. */
  predicate IsOpen(t: State, k: nat) {
    exists i | 0 <= i < |t.serials| :: Holds(t, k, i)
  }

  predicate SlotOk(t: State, i: nat)
    requires i < |t.reg.slots| == |t.serials|
  {
    var s, k := t.reg.slots[i], t.serials[i];
    s.active ==>
      && k < t.count && s.id == IdOf(k) && !(s.clientFin && s.nodeFin) && s.dbFile != ""
      && Birth(t.hist, k) == Some(Opened(k, s.nodePk, s.nodeFd, s.clientFd, s.dbFile))
      && EndedRows(t.hist, k) == [] && s.dbId == LastRow(t.hist, k) >= 0
  }

  /** A stream that is gone had the row last attached to it ended, once, in its own database; nothing else. */
  predicate Settled(t: State, k: nat) {
    IsOpen(t, k) || EndedRows(t.hist, k) == if WasAttached(t.hist, k) then [(FileOf(t.hist, k), LastRow(t.hist, k))] else []
  }

  ghost predicate Inv(t: State) {
    && |t.reg.slots| == |t.serials| == MAX_STREAMS
    && t.reg.nextId == IdOf(t.count)
    && (forall i | 0 <= i < MAX_STREAMS :: SlotOk(t, i))
    && (forall i, j | 0 <= i < j < MAX_STREAMS && t.reg.slots[i].active && t.reg.slots[j].active :: t.serials[i] != t.serials[j])
    && (forall k :: Settled(t, k))
    && (forall k :: LastRow(t.hist, k) >= 0)
    && (forall k | k >= t.count :: LastRow(t.hist, k) == 0 && EndedRows(t.hist, k) == [])
  }
}
