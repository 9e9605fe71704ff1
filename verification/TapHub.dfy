/** The TapHub relay as steps on values: session registry, MAC table, flood limiter and
    frame forwarding. HubServer.dfy is the in-place form that is proved to take these steps. */
module TapHub {
  import opened Bytes
  import opened Scan
  import opened Proto
  import W = Writer

  const MAX_SESSIONS := 64
  const MAX_MACS := 512
  const MAX_RATES := 128
  const MOVE_WINDOW_SEC := 10
  const FREEZE_THRESHOLD := 2
  const FREEZE_SEC := 60
  const DEFAULT_MAC_TTL_SEC := 300
  const DEFAULT_MAX_MAC_PER_SESSION := 32

  type Mac = m: seq<byte> | |m| == 6 witness [0, 0, 0, 0, 0, 0]

  datatype MacEntry = MacEntry(
    active: bool, net: int, fd: int, mac: Mac, ttl: u32, lastSeen: int,
    moveWindow: int, moveCount: int, frozenUntil: int)

  datatype Session = Session(
    active: bool, fd: int, net: int, nodePk: int, isTap: bool, socks: bool,
    ttl: u32, netLimit: u32, sessLimit: u32, maxMac: u32,
    clientToClient: bool, l2Control: bool,
    floodWindow: int, floodCount: int, q: W.Writer)

  datatype Rate = Rate(active: bool, net: int, window: int, count: int)

  datatype Hub = Hub(sessions: seq<Session>, macs: seq<MacEntry>, rates: seq<Rate>)

  /** The part of a runtime configuration that a session keeps. */
  datatype Config = Config(
    socks: bool, ttl: u32, netLimit: u32, sessLimit: u32, maxMac: u32, queueLimit: u32,
    clientToClient: bool, l2Control: bool)

  const NO_MAC := MacEntry(false, 0, 0, [0, 0, 0, 0, 0, 0], 0, 0, 0, 0, 0)
  const NO_WRITER := W.Writer(false, false, 0, [], [], 0, 0, 0, 0, 0)
  const NO_SESSION := Session(false, 0, 0, 0, false, false, 0, 0, 0, 0, false, false, 0, 0, NO_WRITER)
  const NO_RATE := Rate(false, 0, 0, 0)
  const EMPTY_HUB := Hub(seq(MAX_SESSIONS, _ => NO_SESSION), seq(MAX_MACS, _ => NO_MAC), seq(MAX_RATES, _ => NO_RATE))

  // ---- Addresses -----------------------------------------------------------------------

  predicate IsMulticast(m: Mac) {
    m[0] % 2 == 1
  }

  predicate IsL2Control(m: Mac) {
    m[..5] == [0x01, 0x80, 0xc2, 0x00, 0x00] && m[5] <= 0x0f
  }

  predicate Learnable(m: Mac) {
    m != [0, 0, 0, 0, 0, 0] && !IsMulticast(m)
  }

  // ---- Scans over the tables ---------------------------------------------------------------

  function SessionKey(fd: int, net: int): Session -> bool {
    (s: Session) => s.active && s.fd == fd && s.net == net
  }

  function FdKey(fd: int): Session -> bool {
    (s: Session) => s.active && s.fd == fd
  }

  function FreeSession(): Session -> bool {
    (s: Session) => !s.active
  }

  function MacKey(net: int, mac: Mac): MacEntry -> bool {
    (e: MacEntry) => e.active && e.net == net && e.mac == mac
  }

  function OwnedBy(fd: int, net: int): MacEntry -> bool {
    (e: MacEntry) => e.active && e.fd == fd && e.net == net
  }

  function FreeMac(): MacEntry -> bool {
    (e: MacEntry) => !e.active
  }

  function RateKey(net: int): Rate -> bool {
    (r: Rate) => r.active && r.net == net
  }

  function FreeRate(): Rate -> bool {
    (r: Rate) => !r.active
  }

  // ---- MAC table ------------------------------------------------------------------------

  function Ttl(e: MacEntry): int {
    if e.ttl == 0 then DEFAULT_MAC_TTL_SEC else e.ttl
  }

  predicate Stale(e: MacEntry, ss: seq<Session>, now: int) {
    (now > e.lastSeen && now - e.lastSeen > Ttl(e)) || First(ss, SessionKey(e.fd, e.net)) < 0
  }

  function AgeEntry(e: MacEntry, ss: seq<Session>, now: int): MacEntry {
    if e.active && Stale(e, ss, now) then e.(active := false) else e
  }

  function Age(macs: seq<MacEntry>, ss: seq<Session>, now: int): seq<MacEntry> {
    seq(|macs|, i requires 0 <= i < |macs| => AgeEntry(macs[i], ss, now))
  }

  function Forget(macs: seq<MacEntry>, fd: int): seq<MacEntry> {
    seq(|macs|, i requires 0 <= i < |macs| =>
      if macs[i].active && macs[i].fd == fd then macs[i].(active := false) else macs[i])
  }

  /** What learning a source address did. */
  datatype Learnt = Ignored | Created | Refreshed | Moved | Frozen | NotStored

  predicate MoveExpired(e: MacEntry, now: int) {
    e.moveWindow == 0 || Sub64(now, e.moveWindow) > MOVE_WINDOW_SEC
  }

  /** The move counter after one more attempted move, in a fresh window if the old one expired. */
  function CountMove(e: MacEntry, now: int): MacEntry {
    if MoveExpired(e, now) then e.(moveWindow := now, moveCount := 1)
    else e.(moveCount := e.moveCount + 1)
  }

  function Touch(e: MacEntry, s: Session, now: int): MacEntry {
    e.(fd := s.fd, ttl := s.ttl, lastSeen := now)
  }

  function LearnEntry(e: MacEntry, s: Session, now: int): (MacEntry, Learnt) {
    if e.fd == s.fd then
      (Touch(if e.frozenUntil <= now then e.(frozenUntil := 0) else e, s, now), Refreshed)
    else if e.frozenUntil > now then (e, Frozen)
    else
      var m := CountMove(e, now);
      if m.moveCount >= FREEZE_THRESHOLD then (m.(frozenUntil := now + FREEZE_SEC), Frozen)
      else (Touch(m, s, now), Moved)
  }

  function NewEntry(s: Session, mac: Mac, now: int): MacEntry {
    MacEntry(true, s.net, s.fd, mac, s.ttl, now, now, 0, 0)
  }

  function Learn(macs: seq<MacEntry>, s: Session, mac: Mac, now: int): (r: (seq<MacEntry>, Learnt))
    ensures |r.0| == |macs|
  {
    var i, free := First(macs, MacKey(s.net, mac)), First(macs, FreeMac());
    if !Learnable(mac) then (macs, Ignored)
    else if i >= 0 then
      var (e, k) := LearnEntry(macs[i], s, now);
      (macs[i := e], k)
    else if free < 0 || Count(macs, OwnedBy(s.fd, s.net)) >= AsInt32(s.maxMac) then (macs, NotStored)
    else (macs[free := NewEntry(s, mac, now)], Created)
  }

  /** The slot of the session that owns an address (-1 if none), dropping an entry whose session
      is gone. */
  function Lookup(macs: seq<MacEntry>, ss: seq<Session>, net: int, mac: Mac): (r: (seq<MacEntry>, int))
    ensures |r.0| == |macs| && -1 <= r.1 < |ss|
  {
    var i := First(macs, MacKey(net, mac));
    if IsMulticast(mac) || i < 0 then (macs, -1)
    else
      var j := First(ss, SessionKey(macs[i].fd, net));
      if j >= 0 then (macs, j) else (macs[i := macs[i].(active := false)], -1)
  }

  // ---- Flood limiter ----------------------------------------------------------------------

  function FloodsIn(s: Session, now: int): int {
    if s.floodWindow == now then s.floodCount else 0
  }

  function RateSlot(rates: seq<Rate>, net: int): (r: int)
    ensures -1 <= r < |rates|
  {
    var i := First(rates, RateKey(net));
    if i >= 0 then i else First(rates, FreeRate())
  }

  /** The rate entry of a network, claimed if need be and moved to the current second. */
  function OpenRate(r: Rate, net: int, now: int): Rate {
    var claimed := if r.active && r.net == net then r else r.(active := true, net := net);
    if claimed.window != now then claimed.(window := now, count := 0) else claimed
  }

  /** The session's counter moved to the current second, plus one if the flood was admitted. */
  function Charge(s: Session, now: int, admitted: bool): Session {
    if s.sessLimit > 0 then
      s.(floodWindow := now, floodCount := FloodsIn(s, now) + if admitted then 1 else 0)
    else s
  }

  function NetworkGate(rates: seq<Rate>, net: int, limit: int, now: int): (r: (seq<Rate>, bool))
    ensures |r.0| == |rates|
  {
    var k := RateSlot(rates, net);
    if limit <= 0 then (rates, true)
    else if k < 0 then (rates, false)
    else
      var r := OpenRate(rates[k], net, now);
      if r.count >= limit then (rates[k := r], false) else (rates[k := r.(count := r.count + 1)], true)
  }

  /** The session's budget is looked at first, then the network's; only an admitted flood spends both. */
  function AdmitFlood(s: Session, rates: seq<Rate>, now: int): (r: (Session, seq<Rate>, bool))
    ensures |r.1| == |rates|
  {
    if s.sessLimit > 0 && FloodsIn(s, now) >= s.sessLimit then (Charge(s, now, false), rates, false)
    else
      var (rates', ok) := NetworkGate(rates, s.net, s.netLimit, now);
      (Charge(s, now, ok), rates', ok)
  }

  // ---- Relaying one frame -------------------------------------------------------------------

  datatype Mode = Flood | Unicast | DropSession | DropL2 | DropMacFreeze | DropClient | DropQueue | DropRate

  /** What the relay decides before any copy is queued. */
  datatype Verdict = TooShort | NoSession | L2Filtered | FrozenSource | Known(target: nat) | RateLimited | Admitted

  datatype Admission = Admission(hub: Hub, verdict: Verdict, learnt: Learnt)

  function Dst(frame: seq<byte>): Mac
    requires |frame| >= MIN_FRAME
  {
    frame[..6]
  }

  function Src(frame: seq<byte>): Mac
    requires |frame| >= MIN_FRAME
  {
    frame[6..12]
  }

  function Admit(h: Hub, fd: int, net: int, frame: seq<byte>, now: int): (a: Admission)
    ensures |a.hub.sessions| == |h.sessions| && |a.hub.macs| == |h.macs| && |a.hub.rates| == |h.rates|
    ensures a.verdict.Known? ==> a.verdict.target < |h.sessions|
  {
    if |frame| < MIN_FRAME then Admission(h, TooShort, Ignored)
    else
      var aged := Age(h.macs, h.sessions, now);
      var i := First(h.sessions, SessionKey(fd, net));
      if i < 0 then Admission(h.(macs := aged), NoSession, Ignored)
      else if IsL2Control(Dst(frame)) && !h.sessions[i].l2Control then
        Admission(h.(macs := aged), L2Filtered, Ignored)
      else
        var (learned, k) := Learn(aged, h.sessions[i], Src(frame), now);
        if k == Frozen then Admission(h.(macs := learned), FrozenSource, k)
        else
          var (macs, target) := Lookup(learned, h.sessions, net, Dst(frame));
          if target >= 0 then Admission(h.(macs := macs), Known(target), k)
          else
            var (s, rates, ok) := AdmitFlood(h.sessions[i], h.rates, now);
            Admission(Hub(h.sessions[i := s], macs, rates), if ok then Admitted else RateLimited, k)
  }

  /** The client-to-client rule of the source's configuration. */
  predicate Barred(source: Session, target: Session) {
    source.isTap && target.isTap && !source.clientToClient
  }

  predicate Eligible(source: Session, target: Session) {
    target.active && target.fd != source.fd && target.net == source.net && !Barred(source, target)
  }

  function Copy(source: Session, target: Session, payload: seq<byte>, now: int): Session {
    if Eligible(source, target) then target.(q := W.EnqueueTap(target.q, payload, true, now)) else target
  }

  function CopyOutcome(source: Session, payload: seq<byte>, now: int, o: W.Outcome): Session -> bool {
    (s: Session) => Eligible(source, s) && W.Verdict(s.q, payload, true, now) == o
  }

  function FloodCopies(ss: seq<Session>, source: Session, payload: seq<byte>, now: int): seq<Session> {
    seq(|ss|, j requires 0 <= j < |ss| => Copy(source, ss[j], payload, now))
  }

  /** Forwarding to the owner of the destination address: at most one copy, outside the flood budget. */
  function SendTo(h: Hub, i: nat, j: nat, payload: seq<byte>, now: int): (r: (Hub, int, Mode))
    requires i < |h.sessions| && j < |h.sessions|
    ensures |r.0.sessions| == |h.sessions| && r.0.macs == h.macs && r.0.rates == h.rates
  {
    var source, target := h.sessions[i], h.sessions[j];
    if target.fd == source.fd then (h, 0, Unicast)
    else if Barred(source, target) then (h, 0, DropClient)
    else
      var sent := h.(sessions := h.sessions[j := target.(q := W.EnqueueTap(target.q, payload, false, now))]);
      if W.Running(target.q) then (sent, 1, Unicast) else (sent, 0, DropQueue)
  }

  /** Flooding: a copy to every eligible session that has budget left. */
  function SendAll(h: Hub, i: nat, payload: seq<byte>, now: int): (r: (Hub, int, Mode))
    requires i < |h.sessions|
    ensures |r.0.sessions| == |h.sessions| && r.0.macs == h.macs && r.0.rates == h.rates
  {
    var source := h.sessions[i];
    var n := Count(h.sessions, CopyOutcome(source, payload, now, W.Queued));
    var dropped := Count(h.sessions, CopyOutcome(source, payload, now, W.Dropped));
    (h.(sessions := FloodCopies(h.sessions, source, payload, now)), n,
     if n == 0 && dropped > 0 then DropQueue else Flood)
  }

  /** What a verdict on the frame of the session at slot i leads to. */
  function Forward(h: Hub, v: Verdict, i: int, payload: seq<byte>, now: int): (r: (Hub, int, Mode))
    requires v.Known? || v.Admitted? ==> 0 <= i < |h.sessions|
    requires v.Known? ==> v.target < |h.sessions|
    ensures |r.0.sessions| == |h.sessions| && r.0.macs == h.macs && r.0.rates == h.rates
  {
    match v
    case TooShort => (h, 0, Flood)
    case NoSession => (h, 0, DropSession)
    case L2Filtered => (h, 0, DropL2)
    case FrozenSource => (h, 0, DropMacFreeze)
    case RateLimited => (h, 0, DropRate)
    case Known(j) => SendTo(h, i, j, payload, now)
    case Admitted => SendAll(h, i, payload, now)
  }

  /** The hub after one frame, the number of copies queued and the reported mode. */
  function Relay(h: Hub, fd: int, net: int, frame: seq<byte>, payload: seq<byte>, now: int): (r: (Hub, int, Mode))
    ensures |r.0.sessions| == |h.sessions| && |r.0.macs| == |h.macs| && |r.0.rates| == |h.rates|
  {
    var a := Admit(h, fd, net, frame, now);
    Forward(a.hub, a.verdict, First(h.sessions, SessionKey(fd, net)), payload, now)
  }

  // ---- Registration -------------------------------------------------------------------------

  function OrDefault(v: u32, fallback: u32): u32 {
    if v == 0 then fallback else v
  }

  function NewSession(fd: int, sid: int, net: int, nodePk: int, isTap: bool, c: Config, started: bool): Session {
    Session(started, fd, net, nodePk, isTap, c.socks, OrDefault(c.ttl, DEFAULT_MAC_TTL_SEC),
            c.netLimit, c.sessLimit, OrDefault(c.maxMac, DEFAULT_MAX_MAC_PER_SESSION),
            c.clientToClient, c.l2Control, 0, 0,
            W.Writer(started, false, sid, [], [], 0, 0, 0, 0,
                     OrDefault(c.queueLimit, W.DEFAULT_TAP_QUEUE_LIMIT)))
  }

  /** Registration takes the first free slot; `started` is false when the socket cannot be made
      nonblocking or the writer thread cannot be created. */
  function Register(h: Hub, fd: int, sid: int, net: int, nodePk: int, isTap: bool, c: Config, started: bool): (Hub, bool) {
    var i := First(h.sessions, FreeSession());
    if i < 0 then (h, false)
    else (h.(sessions := h.sessions[i := NewSession(fd, sid, net, nodePk, isTap, c, started)]), started)
  }

  /** Unregistration forgets the descriptor's addresses, frees its slot and stops its writer. */
  function Unregister(h: Hub, fd: int): Hub {
    var i := First(h.sessions, FdKey(fd));
    var h1 := h.(macs := Forget(h.macs, fd));
    if i < 0 then h1
    else
      var s := h.sessions[i];
      h1.(sessions := h.sessions[i := s.(active := false, q := StopWriter(s.q))])
  }

  function StopWriter(q: W.Writer): W.Writer {
    if q.started then W.Clear(q).(stop := true, started := false) else q
  }
}
