/** Concrete legal runs of the TapHub in which something one might expect does not hold. */
module TapExamples {
  import opened Bytes
  import opened Scan
  import opened TapHub
  import opened TapRuns
  import opened TapMacs
  import opened TapMoves
  import opened TapFloods

  const EVERYBODY: Mac := [0xff, 0xff, 0xff, 0xff, 0xff, 0xff]
  const GROUP: Mac := [1, 0, 0, 0, 0, 0]
  const ALICE: Mac := [0, 0, 0, 0, 0, 1]
  const BOB: Mac := [0, 0, 0, 0, 0, 2]

  /** A frame from an address to everybody. */
  function Shout(fd: int, net: u32, mac: Mac, now: int): Event {
    Frame(fd, net, EVERYBODY + mac + [8, 0], [], now)
  }

  /** The run with one more such frame. */
  lemma Shouted(r: Run, fd: int, net: u32, mac: Mac, now: int) returns (r': Run)
    requires Legal(r) && 0 < now < U64_MOD - FREEZE_SEC && First(State(r).hub.sessions, SessionKey(fd, net)) >= 0
    ensures Legal(r') && (Ordered(r') <==> Ordered(r) && State(r).clock <= now)
    ensures OwnOrder(r') <==> OwnOrder(r) && LastStamp(r, fd) <= now
    ensures LastStamp(r', 5) == (if fd == 5 then now else LastStamp(r, 5))
    ensures LastStamp(r', 6) == (if fd == 6 then now else LastStamp(r, 6))
    ensures State(r').clock == Latest(State(r).clock, now)
    ensures ShoutStep(State(r), State(r'), First(State(r).hub.sessions, SessionKey(fd, net)), mac, now)
  {
    r' := More(r, Shout(fd, net, mac, now));
    ShoutStepIs(State(r), fd, net, mac, now);
  }

  lemma ShoutStepIs(t: Tap, fd: int, net: u32, mac: Mac, now: int)
    requires First(t.hub.sessions, SessionKey(fd, net)) >= 0
    ensures ShoutStep(t, Step(t, Shout(fd, net, mac, now)), First(t.hub.sessions, SessionKey(fd, net)), mac, now)
  {
    var frame := EVERYBODY + mac + [8, 0];
    assert Src(frame) == mac && Dst(frame) == EVERYBODY && IsMulticast(EVERYBODY) && !IsL2Control(EVERYBODY);
    RelayFloods(t.hub, fd, net, frame, [], now);
    RelayIds(t.hub, fd, net, frame, [], now);
  }

  ghost predicate ShoutStep(t: Tap, t': Tap, i: int, mac: Mac, now: int) {
    && 0 <= i < |t.hub.sessions|
    && var s := t.hub.sessions[i];
       var (macs, k) := Learn(Age(t.hub.macs, t.hub.sessions, now), s, mac, now);
       && t'.hub.macs == macs && SameIds(t.hub.sessions, t'.hub.sessions)
       && (k != Frozen && s.sessLimit == 0 ==>
             var (rates, ok) := NetworkGate(t.hub.rates, s.net, s.netLimit, now);
             t'.hub.rates == rates && t'.hist == FloodRecorded(HistoryOf(t.hist, s, mac, now, k), s, now, ok))
  }

  /** A frame from a group address goes to the limiter with nothing learnt. */
  ghost predicate GroupStep(t: Tap, t': Tap, i: int, now: int) {
    && 0 <= i < |t.hub.sessions| && SameIds(t.hub.sessions, t'.hub.sessions)
    && var s := t.hub.sessions[i];
       var (rates, ok) := NetworkGate(t.hub.rates, s.net, s.netLimit, now);
       t'.hub.rates == rates && t'.hist == FloodRecorded(t.hist, s, now, ok)
  }

  lemma GroupFlood(t: Tap, t': Tap, i: int, now: int)
    requires ShoutStep(t, t', i, GROUP, now) && t.hub.sessions[i].sessLimit == 0
    ensures GroupStep(t, t', i, now)
  {
  }

  /** Sessions 5 and 6 of network 1 are in the first two slots. */
  ghost predicate Pair(t: Tap) {
    First(t.hub.sessions, SessionKey(5, 1)) == 0 && First(t.hub.sessions, SessionKey(6, 1)) == 1
  }

  lemma PairStays(t: Tap, t': Tap)
    requires Pair(t) && SameIds(t.hub.sessions, t'.hub.sessions)
    ensures Pair(t')
  {
    SameFirst(t.hub.sessions, t'.hub.sessions, 5, 1);
    SameFirst(t.hub.sessions, t'.hub.sessions, 6, 1);
  }

  /** Two sessions join, with one configuration. */
  lemma TwoJoined(c: Config) returns (r: Run)
    ensures Legal(r) && Ordered(r) && OwnOrder(r) && LastStamp(r, 5) == LastStamp(r, 6) == State(r).clock == 0
    ensures State(r).hub.rates == EMPTY_HUB.rates && State(r).hub.macs == EMPTY_HUB.macs
    ensures State(r).hist == Then(Then(Begin, Joined(5)), Joined(6))
    ensures Pair(State(r))
    ensures State(r).hub.sessions[0] == NewSession(5, 1, 1, 1, false, c, true)
    ensures State(r).hub.sessions[1] == NewSession(6, 2, 1, 2, false, c, true)
  {
    var r1 := More(Init, Join(5, 1, 1, 1, false, c, true));
    r := More(r1, Join(6, 2, 1, 2, false, c, true));
    var s5, s6 := NewSession(5, 1, 1, 1, false, c, true), NewSession(6, 2, 1, 2, false, c, true);
    FirstIs(EMPTY_HUB.sessions, FdKey(5), -1);
    FirstIs(EMPTY_HUB.sessions, FreeSession(), 0);
    assert State(r1).hub.sessions == EMPTY_HUB.sessions[0 := s5];
    FirstIs(State(r1).hub.sessions, FdKey(6), -1);
    FirstIs(State(r1).hub.sessions, FreeSession(), 1);
    var ss := State(r).hub.sessions;
    assert ss == EMPTY_HUB.sessions[0 := s5][1 := s6];
    FirstIs(ss, SessionKey(5, 1), 0);
    FirstIs(ss, SessionKey(6, 1), 1);
    OrderedIsOwn(r);
  }

  // ---- Stamps out of order ------------------------------------------------------------------------

  const ONE_PER_SECOND := Config(false, 0, 1, 0, 0, 0, true, false)

  /** The sessions may flood once a second; the network's counter is in the given window. */
  ghost predicate Limited(t: Tap, window: int, count: nat) {
    && Pair(t)
    && t.hub.sessions[0].sessLimit == t.hub.sessions[1].sessLimit == 0
    && t.hub.sessions[0].netLimit == t.hub.sessions[1].netLimit == 1
    && (count == 0 ==> First(t.hub.rates, RateKey(1)) < 0 && First(t.hub.rates, FreeRate()) == 0 && t.hub.rates[0] == NO_RATE)
    && (count > 0 ==> First(t.hub.rates, RateKey(1)) == 0 && t.hub.rates[0] == Rate(true, 1, window, count))
  }

  /** A frame from a group address passes the limiter in a second its counter is not in. */
  lemma PassesLimiter(t: Tap, t': Tap, i: nat, now: int, window: int, count: nat)
    requires Limited(t, window, count) && i < 2 && GroupStep(t, t', i, now) && window != now
    ensures Limited(t', now, 1) && t'.hist == Then(t.hist, Flooded(t.hub.sessions[i].fd, 1, now, 1))
  {
    PairStays(t, t');
    FirstIs(t'.hub.rates, RateKey(1), 0);
  }

  /** One more flood, from session 5 or 6, in a second its counter is not in. */
  lemma Floods(r: Run, fd: int, now: int, window: int, count: nat) returns (r': Run)
    requires Legal(r) && Limited(State(r), window, count) && fd in {5, 6} && 0 < now <= 60 && window != now
    ensures Legal(r') && Limited(State(r'), now, 1) && State(r').clock == Latest(State(r).clock, now)
    ensures State(r').hist == Then(State(r).hist, Flooded(fd, 1, now, 1))
    ensures Ordered(r') <==> Ordered(r) && State(r).clock <= now
    ensures OwnOrder(r') <==> OwnOrder(r) && LastStamp(r, fd) <= now
    ensures LastStamp(r', 5) == (if fd == 5 then now else LastStamp(r, 5))
    ensures LastStamp(r', 6) == (if fd == 6 then now else LastStamp(r, 6))
  {
    r' := Shouted(r, fd, 1, GROUP, now);
    GroupFlood(State(r), State(r'), fd - 5, now);
    PassesLimiter(State(r), State(r'), fd - 5, now, window, count);
  }

  /** Three frames stamped 11, 10 and 11, each thread's own in order: the one stamped 10 moves the network's
      window back, and two floods are admitted in second 11 under a limit of 1. */
  lemma StaleStampOverspends() returns (r: Run)
    ensures Legal(r) && OwnOrder(r) && !Ordered(r)
    ensures SharedLimit(State(r).hist, 1, 1) && !Grouped(State(r).hist, 1) && NetworkFloods(State(r).hist, 1, 11) == 2
    ensures var k := First(State(r).hub.rates, RateKey(1)); k == 0 && State(r).hub.rates[k] == Rate(true, 1, 11, 1)
  {
    var r2 := LimitedJoined();
    var r3 := Floods(r2, 5, 11, 0, 0);
    var r4 := Floods(r3, 6, 10, 11, 1);
    r := Floods(r4, 5, 11, 10, 1);
    TwoInEleven(Then(Then(Begin, Joined(5)), Joined(6)));
  }

  lemma TwoInEleven(h: History)
    requires SharedLimit(h, 1, 1) && NetworkFloods(h, 1, 11) == 0
    ensures var h' := Then(Then(Then(h, Flooded(5, 1, 11, 1)), Flooded(6, 1, 10, 1)), Flooded(5, 1, 11, 1));
            SharedLimit(h', 1, 1) && !Grouped(h', 1) && NetworkFloods(h', 1, 11) == 2
  {
    var h1 := Then(h, Flooded(5, 1, 11, 1));
    var h2 := Then(h1, Flooded(6, 1, 10, 1));
    assert NetworkFloods(h1, 1, 11) == 1 && SharedLimit(h1, 1, 1);
    assert NetworkFloods(h2, 1, 11) == 1 && SharedLimit(h2, 1, 1) && LastBlock(h2, 1).0 == 10;
  }

  lemma LimitedJoined() returns (r: Run)
    ensures Legal(r) && OwnOrder(r) && LastStamp(r, 5) == LastStamp(r, 6) == State(r).clock == 0
    ensures Limited(State(r), 0, 0) && State(r).hist == Then(Then(Begin, Joined(5)), Joined(6))
  {
    r := TwoJoined(ONE_PER_SECOND);
    FirstIs(EMPTY_HUB.rates, RateKey(1), -1);
    FirstIs(EMPTY_HUB.rates, FreeRate(), 0);
  }

  const UNLIMITED := Config(false, 0, 0, 0, 0, 0, true, false)

  /** The table's only entry is e, of Bob's address. */
  ghost predicate OnlyBob(t: Tap, e: MacEntry) {
    && Pair(t) && |t.hub.macs| == MAX_MACS && t.hub.macs[0] == e && e.active && e.net == 1 && e.mac == BOB && e.ttl == 300
    && (e.fd == 5 || e.fd == 6) && t.hub.sessions[0].ttl == t.hub.sessions[1].ttl == 300
    && t.hub.sessions[0].sessLimit == t.hub.sessions[1].sessLimit == 0
    && (forall i | 1 <= i < MAX_MACS :: !t.hub.macs[i].active)
  }

  lemma BobStays(t: Tap, e: MacEntry, now: int)
    requires OnlyBob(t, e) && now - e.lastSeen <= 300
    ensures Age(t.hub.macs, t.hub.sessions, now) == t.hub.macs && First(t.hub.macs, MacKey(1, BOB)) == 0
  {
    FirstIs(t.hub.macs, MacKey(1, BOB), 0);
  }

  /** A frame from Bob's address by the session in slot i goes to its entry. */
  ghost predicate BobStep(t: Tap, t': Tap, i: nat, now: int, e: MacEntry) {
    && i < |t.hub.sessions| && t.hub.macs != [] && SameIds(t.hub.sessions, t'.hub.sessions)
    && var (e', k) := LearnEntry(e, t.hub.sessions[i], now);
       && t'.hub.macs == t.hub.macs[0 := e']
       && (k == Moved ==> MoveTimes(t'.hist, 1, BOB) == MoveTimes(t.hist, 1, BOB) + [now])
  }

  lemma BobHeardAgain(t: Tap, t': Tap, i: nat, now: int, e: MacEntry)
    requires OnlyBob(t, e) && i < 2 && ShoutStep(t, t', i, BOB, now) && now - e.lastSeen <= 300
    ensures BobStep(t, t', i, now, e)
  {
    BobStays(t, e, now);
  }

  /** Bob's address moves to the other session, in a window that has run out or has a move left. */
  lemma BobMoves(t: Tap, t': Tap, i: nat, now: int, e: MacEntry)
    requires OnlyBob(t, e) && i < 2 && BobStep(t, t', i, now, e)
    requires e.fd != t.hub.sessions[i].fd && e.frozenUntil <= now && (MoveExpired(e, now) || e.moveCount == 0)
    ensures OnlyBob(t', LearnEntry(e, t.hub.sessions[i], now).0)
    ensures MoveTimes(t'.hist, 1, BOB) == MoveTimes(t.hist, 1, BOB) + [now]
  {
    PairStays(t, t');
  }

  /** One more move of Bob's address, to session 5 or 6. */
  lemma Moves(r: Run, fd: int, now: int, e: MacEntry) returns (r': Run, e': MacEntry)
    requires Legal(r) && OnlyBob(State(r), e) && fd in {5, 6} && 0 < now <= 60 && now - e.lastSeen <= 300
    requires e.fd != fd && e.frozenUntil == 0 && (MoveExpired(e, now) || e.moveCount == 0)
    ensures Legal(r') && OnlyBob(State(r'), e') && State(r').clock == Latest(State(r).clock, now)
    ensures e'.fd == fd && e'.lastSeen == now && e'.frozenUntil == 0
    ensures e'.moveWindow == (if MoveExpired(e, now) then now else e.moveWindow) && e'.moveCount == 1
    ensures MoveTimes(State(r').hist, 1, BOB) == MoveTimes(State(r).hist, 1, BOB) + [now]
    ensures Ordered(r') <==> Ordered(r) && State(r).clock <= now
    ensures OwnOrder(r') <==> OwnOrder(r) && LastStamp(r, fd) <= now
    ensures LastStamp(r', 5) == (if fd == 5 then now else LastStamp(r, 5))
    ensures LastStamp(r', 6) == (if fd == 6 then now else LastStamp(r, 6))
  {
    r' := Shouted(r, fd, 1, BOB, now);
    e' := LearnEntry(e, State(r).hub.sessions[fd - 5], now).0;
    BobHeardAgain(State(r), State(r'), fd - 5, now, e);
    BobMoves(State(r), State(r'), fd - 5, now, e);
  }

  lemma BobHeard() returns (r: Run, e: MacEntry)
    ensures Legal(r) && OwnOrder(r) && OnlyBob(State(r), e) && State(r).clock == 1
    ensures e.fd == 5 && e.lastSeen == e.moveWindow == 1 && e.moveCount == e.frozenUntil == 0
    ensures MoveTimes(State(r).hist, 1, BOB) == [] && LastStamp(r, 5) == 1 && LastStamp(r, 6) == 0
  {
    var r2 := TwoJoined(UNLIMITED);
    e := NewEntry(State(r2).hub.sessions[0], BOB, 1);
    r := Shouted(r2, 5, 1, BOB, 1);
    HearsBob(State(r2), State(r));
  }

  /** An empty table takes Bob's address. */
  lemma HearsBob(t: Tap, t': Tap)
    requires Pair(t) && |t.hub.macs| == MAX_MACS && (forall i | 0 <= i < MAX_MACS :: !t.hub.macs[i].active)
    requires t.hub.sessions[0].ttl == t.hub.sessions[1].ttl == 300 && t.hub.sessions[0].maxMac == 32
    requires t.hub.sessions[0].sessLimit == t.hub.sessions[1].sessLimit == 0 && MoveTimes(t.hist, 1, BOB) == []
    requires ShoutStep(t, t', 0, BOB, 1)
    ensures OnlyBob(t', NewEntry(t.hub.sessions[0], BOB, 1)) && MoveTimes(t'.hist, 1, BOB) == []
  {
    var macs := t.hub.macs;
    FirstIs(macs, MacKey(1, BOB), -1);
    FirstIs(macs, FreeMac(), 0);
    CountZero(macs, OwnedBy(5, 1));
    assert Age(macs, t.hub.sessions, 1) == macs;
    PairStays(t, t');
  }

  /** An address heard in second 1 moves in seconds 1 and 20, and again on a frame stamped 19, within a second
      of its last move: the unsigned age of the window wraps, and the window counts as run out. */
  lemma StaleStampBreaksDamping() returns (r: Run)
    ensures Legal(r) && OwnOrder(r) && !Ordered(r)
    ensures MoveTimes(State(r).hist, 1, BOB) == [1, 20, 19]
  {
    var r2, e2 := BobMoved();
    var r3, e3 := Moves(r2, 5, 20, e2);
    var e4;
    r, e4 := Moves(r3, 6, 19, e3);
  }

  lemma BobMoved() returns (r: Run, e: MacEntry)
    ensures Legal(r) && OwnOrder(r) && OnlyBob(State(r), e) && State(r).clock == 1
    ensures e.fd == 6 && e.lastSeen == e.moveWindow == 1 && e.frozenUntil == 0
    ensures MoveTimes(State(r).hist, 1, BOB) == [1] && LastStamp(r, 5) == LastStamp(r, 6) == 1
  {
    var r1, e1 := BobHeard();
    r, e := Moves(r1, 6, 1, e1);
  }

  function Someone(fd: int): Session {
    NewSession(fd, 1, 1, 1, false, UNLIMITED, true)
  }

  /** One more frame from Bob's address, whatever comes of it. */
  lemma HearsAgain(r: Run, fd: int, now: int, e: MacEntry) returns (r': Run, e': MacEntry)
    requires Legal(r) && OnlyBob(State(r), e) && fd in {5, 6} && 0 < now <= 80 && now - e.lastSeen <= 300
    ensures Legal(r') && OnlyBob(State(r'), e') && e' == LearnEntry(e, Someone(fd), now).0
    ensures OwnOrder(r') <==> OwnOrder(r) && LastStamp(r, fd) <= now
    ensures LastStamp(r', 5) == (if fd == 5 then now else LastStamp(r, 5))
    ensures LastStamp(r', 6) == (if fd == 6 then now else LastStamp(r, 6))
  {
    r' := Shouted(r, fd, 1, BOB, now);
    e' := LearnEntry(e, Someone(fd), now).0;
    BobHeardAgain(State(r), State(r'), fd - 5, now, e);
    BobLearns(State(r), State(r'), fd - 5, now, e);
  }

  lemma BobLearns(t: Tap, t': Tap, i: nat, now: int, e: MacEntry)
    requires OnlyBob(t, e) && i < 2 && BobStep(t, t', i, now, e)
    ensures OnlyBob(t', LearnEntry(e, Someone(i + 5), now).0)
  {
    PairStays(t, t');
  }

  /** An address heard in second 1 moves in second 2 and freezes in second 3, until 63, when its owner lifts the
      freeze; a foreign frame stamped 6 then falls into the old window and makes the count three. */
  lemma StaleStampCountsThree() returns (r: Run)
    ensures Legal(r) && OwnOrder(r) && !NeverRewinds(r)
    ensures State(r).hub.macs != [] && State(r).hub.macs[0].active && State(r).hub.macs[0].moveCount == 3
  {
    var r1, e1 := BobHeard();
    var r2, e2 := HearsAgain(r1, 6, 2, e1);
    var r3, e3 := HearsAgain(r2, 5, 3, e2);
    var r4, e4 := HearsAgain(r3, 6, 63, e3);
    var e5;
    r, e5 := HearsAgain(r4, 5, 6, e4);
    assert !CountsLow(State(r).hub.macs);
    MoveCountExact(r);
  }

  // ---- Counters that run out ------------------------------------------------------------------------

  predicate Idle(t: Tap) {
    |t.hub.sessions| == MAX_SESSIONS && forall j | 0 <= j < MAX_SESSIONS :: !t.hub.sessions[j].active
  }

  /** n networks, numbered up to n, have flooded, and everybody has left. */
  ghost predicate NetworksGone(t: Tap, n: nat) {
    && Idle(t) && t.clock <= 1 && |t.hub.rates| == MAX_RATES
    && |LimitedNets(t.hist)| == n && forall k | k in LimitedNets(t.hist) :: k <= n
  }

  /** A session joins an idle hub, in a network with a limit of one flood a second. */
  lemma JoinsIdle(r: Run, net: u32) returns (r': Run)
    requires Legal(r) && Ordered(r) && Idle(State(r)) && State(r).clock <= 1
    ensures Legal(r') && Ordered(r') && State(r').clock <= 1
    ensures LimitedNets(State(r').hist) == LimitedNets(State(r).hist) && State(r').hub.rates == State(r).hub.rates
    ensures Alone(State(r'), net)
  {
    var ss := State(r).hub.sessions;
    FirstIs(ss, FdKey(5), -1);
    FirstIs(ss, FreeSession(), 0);
    r' := More(r, Join(5, 1, net, 1, false, ONE_PER_SECOND, true));
    FirstIs(State(r').hub.sessions, SessionKey(5, net), 0);
  }

  /** The only session floods its network for the first time, with a counter left. */
  lemma FloodsFirst(r: Run, net: u32) returns (r': Run)
    requires Legal(r) && Ordered(r) && State(r).clock <= 1 && Alone(State(r), net)
    requires net !in LimitedNets(State(r).hist) && |LimitedNets(State(r).hist)| < |State(r).hub.rates|
    ensures Legal(r') && Ordered(r') && State(r').clock == 1
    ensures LimitedNets(State(r').hist) == LimitedNets(State(r).hist) + {net}
    ensures |State(r').hub.sessions| == MAX_SESSIONS && State(r').hub.sessions[0].fd == 5
    ensures forall j | 1 <= j < MAX_SESSIONS :: !State(r').hub.sessions[j].active
  {
    ClaimRun(r);
    r' := Shouted(r, 5, net, GROUP, 1);
    GroupFlood(State(r), State(r'), 0, 1);
    FirstFlood(State(r), State(r'), net);
  }

  lemma FirstFlood(t: Tap, t': Tap, net: u32)
    requires Alone(t, net) && GroupStep(t, t', 0, 1) && Claimed(t.hub.rates, t.hist)
    requires net !in LimitedNets(t.hist) && |LimitedNets(t.hist)| < |t.hub.rates|
    ensures LimitedNets(t'.hist) == LimitedNets(t.hist) + {net}
  {
    NoBlock(t.hist, net, 1);
    CounterLeft(t.hub.rates, t.hist, net);
    GateMeans(t.hub.rates, t.hist, net, 1, 1);
  }

  ghost predicate Alone(t: Tap, net: u32) {
    && |t.hub.sessions| == MAX_SESSIONS && First(t.hub.sessions, SessionKey(5, net)) == 0
    && t.hub.sessions[0] == NewSession(5, 1, net, 1, false, ONE_PER_SECOND, true)
    && forall j | 1 <= j < MAX_SESSIONS :: !t.hub.sessions[j].active
  }

  lemma LeavesIdle(r: Run) returns (r': Run)
    requires Legal(r) && Ordered(r) && |State(r).hub.sessions| == MAX_SESSIONS && State(r).hub.sessions[0].fd == 5
    requires forall j | 1 <= j < MAX_SESSIONS :: !State(r).hub.sessions[j].active
    ensures Legal(r') && Ordered(r') && Idle(State(r')) && State(r').clock == State(r).clock
    ensures LimitedNets(State(r').hist) == LimitedNets(State(r).hist)
  {
    r' := More(r, Leave(5));
    LastLeaves(State(r).hub);
  }

  lemma LastLeaves(h: Hub)
    requires |h.sessions| == MAX_SESSIONS && h.sessions[0].fd == 5
    requires forall j | 1 <= j < MAX_SESSIONS :: !h.sessions[j].active
    ensures var ss := Unregister(h, 5).sessions; |ss| == MAX_SESSIONS && forall j | 0 <= j < MAX_SESSIONS :: !ss[j].active
  {
    FirstIs(h.sessions, FdKey(5), if h.sessions[0].active then 0 else -1);
  }

  /** One session joins the next network, floods once and leaves. */
  lemma NextNetwork(r: Run, n: nat) returns (r': Run)
    requires Legal(r) && Ordered(r) && NetworksGone(State(r), n) && n < MAX_RATES
    ensures Legal(r') && Ordered(r') && NetworksGone(State(r'), n + 1)
  {
    var r1 := JoinsIdle(r, n + 1);
    var r2 := FloodsFirst(r1, n + 1);
    r' := LeavesIdle(r2);
    RunInv(r');
  }

  lemma NoneGone()
    ensures NetworksGone(State(Init), 0)
  {
  }

  lemma {:induction false} NetworksFlood(n: nat) returns (r: Run)
    requires n <= MAX_RATES
    ensures Legal(r) && Ordered(r) && NetworksGone(State(r), n)
  {
    if n == 0 {
      r := Init;
      NoneGone();
    } else {
      var r0 := NetworksFlood(n - 1);
      r := NextNetwork(r0, n - 1);
    }
  }

  /** After 128 networks the session joins network 129, finds no counter and has its flood refused. */
  lemma CountersRunOut() returns (r: Run)
    ensures Legal(r) && Ordered(r) && 129 !in LimitedNets(State(r).hist) && |LimitedNets(State(r).hist)| == MAX_RATES
    ensures State(r).hub.sessions != [] && SessionKey(5, 129)(State(r).hub.sessions[0])
    ensures RateSlot(State(r).hub.rates, 129) < 0 && !AdmitFlood(State(r).hub.sessions[0], State(r).hub.rates, 2).2
  {
    var r0 := NetworksFlood(MAX_RATES);
    r := JoinsIdle(r0, 129);
    ClaimRun(r);
    CounterLeft(State(r).hub.rates, State(r).hist, 129);
  }

  // ---- A move past the cap ------------------------------------------------------------------------

  const ONE_ADDRESS := Config(false, 0, 0, 0, 1, 0, true, false)

  /** Sessions that may hold one address each, and a table of entries heard in second 1, used slots first. */
  ghost predicate Capped1(t: Tap, n: nat) {
    && Pair(t) && n <= |t.hub.macs|
    && t.hub.sessions[0].maxMac == t.hub.sessions[1].maxMac == 1
    && (forall i | 0 <= i < n :: HeardNow(t.hub.macs[i]))
    && (forall i | n <= i < |t.hub.macs| :: !t.hub.macs[i].active)
  }

  predicate HeardNow(e: MacEntry) {
    e.active && e.lastSeen == 1 && e.net == 1 && (e.fd == 5 || e.fd == 6)
  }

  /** The entry of an address heard for the first time, in second 1. */
  predicate FirstHeard(e: MacEntry, fd: int, mac: Mac) {
    e.fd == fd && e.mac == mac && e.moveWindow == 1 && e.moveCount == 0 && e.frozenUntil == 0
  }

  lemma FreshStays(t: Tap, n: nat)
    requires Capped1(t, n)
    ensures Age(t.hub.macs, t.hub.sessions, 1) == t.hub.macs
  {
  }

  /** A session with no address gets a new one into the first free slot. */
  predicate Unheard(macs: seq<MacEntry>, n: nat, fd: int, mac: Mac) {
    n <= |macs| && forall k | 0 <= k < n :: macs[k].mac != mac && macs[k].fd != fd
  }

  predicate Gained(macs: seq<MacEntry>, macs': seq<MacEntry>, n: nat, fd: int, mac: Mac) {
    && n < |macs| == |macs'| && FirstHeard(macs'[n], fd, mac)
    && forall k | 0 <= k < n :: macs'[k] == macs[k]
  }

  lemma HearsNew(t: Tap, t': Tap, n: nat, i: nat, mac: Mac)
    requires Capped1(t, n) && n < |t.hub.macs| && i < 2 && ShoutStep(t, t', i, mac, 1) && Learnable(mac)
    requires Unheard(t.hub.macs, n, i + 5, mac)
    ensures Capped1(t', n + 1) && Gained(t.hub.macs, t'.hub.macs, n, i + 5, mac)
  {
    var macs, s := t.hub.macs, t.hub.sessions[i];
    FreshStays(t, n);
    PairStays(t, t');
    FirstIs(macs, MacKey(1, mac), -1);
    FirstIs(macs, FreeMac(), n);
    CountZero(macs, OwnedBy(s.fd, 1));
  }

  /** The second of two addresses moves to the owner of the first. */
  lemma TakesOver(t: Tap, t': Tap)
    requires Capped1(t, 2) && ShoutStep(t, t', 0, BOB, 1)
    requires t.hub.macs[0].mac != BOB && t.hub.macs[0].fd == 5
    requires FirstHeard(t.hub.macs[1], 6, BOB)
    ensures Pair(t') && t'.hub.sessions[0].maxMac == 1 && Count(t'.hub.macs, OwnedBy(5, 1)) == 2
  {
    var macs := t.hub.macs;
    FreshStays(t, 2);
    PairStays(t, t');
    FirstIs(macs, MacKey(1, BOB), 1);
    TwoOwned(macs, LearnEntry(macs[1], t.hub.sessions[0], 1).0);
  }

  lemma TwoOwned(macs: seq<MacEntry>, e: MacEntry)
    requires |macs| >= 2 && OwnedBy(5, 1)(macs[0]) && OwnedBy(5, 1)(e)
    requires forall i | 2 <= i < |macs| :: !macs[i].active
    ensures Count(macs[1 := e], OwnedBy(5, 1)) == 2
  {
    var p, none := OwnedBy(5, 1), macs[0 := NO_MAC][1 := NO_MAC];
    CountZero(none, p);
    CountUpdate(none, 0, macs[0], p);
    CountUpdate(none[0 := macs[0]], 1, e, p);
    assert none[0 := macs[0]][1 := e] == macs[1 := e];
  }

  /** One more frame, from session 5 or 6 and a new address. */
  lemma Hears(r: Run, fd: int, mac: Mac, n: nat) returns (r': Run)
    requires Legal(r) && Ordered(r) && State(r).clock <= 1 && Capped1(State(r), n) && n < |State(r).hub.macs|
    requires (fd == 5 || fd == 6) && Learnable(mac) && Unheard(State(r).hub.macs, n, fd, mac)
    ensures Legal(r') && Ordered(r') && State(r').clock == 1 && Capped1(State(r'), n + 1)
    ensures Gained(State(r).hub.macs, State(r').hub.macs, n, fd, mac)
  {
    r' := Shouted(r, fd, 1, mac, 1);
    HearsNew(State(r), State(r'), n, fd - 5, mac);
  }

  lemma CappedJoined() returns (r: Run)
    ensures Legal(r) && Ordered(r) && State(r).clock == 0 && Capped1(State(r), 0) && |State(r).hub.macs| == MAX_MACS
  {
    r := TwoJoined(ONE_ADDRESS);
  }

  /** A session that may hold one address holds two: its own, and one it took over from another session. */
  lemma MovePassesCap() returns (r: Run)
    ensures Legal(r) && Ordered(r)
    ensures var t := State(r);
            && First(t.hub.sessions, SessionKey(5, 1)) == 0 && t.hub.sessions[0].maxMac == 1
            && Count(t.hub.macs, OwnedBy(5, 1)) == 2
  {
    var r2 := CappedJoined();
    var r3 := Hears(r2, 5, ALICE, 0);
    var r4 := Hears(r3, 6, BOB, 1);
    assert State(r4).hub.macs[1].fd == 6;
    r := Shouted(r4, 5, 1, BOB, 1);
    TakesOver(State(r4), State(r));
  }
}
