/** An address stays in the MAC table for its lifetime: what the table must not forget. */
module TapKnown {
  import opened Bytes
  import opened Scan
  import opened Proto
  import opened TapHub
  import opened TapRuns
  import opened TapMacs
  import opened TapMoves

  /** Session and time of the last accepted frame from an address, unless the table had no room for it or
      that session left. */
  function LastKept(h: History, net: int, mac: Mac): Option<(int, int)> {
    match h
    case Begin => None
    case Then(p, Heard(fd, n, m, time, k)) =>
      if n != net || m != mac then LastKept(p, net, mac)
      else if k == NotStored then None
      else Some((fd, time))
    case Then(p, Left(fd)) =>
      var prev := LastKept(p, net, mac);
      if prev.Some? && prev.value.0 == fd then None else prev
    case Then(p, _) => LastKept(p, net, mac)
  }

  function Lifetime(s: Session): int {
    if s.ttl == 0 then DEFAULT_MAC_TTL_SEC else s.ttl
  }

  /** The session that was heard is registered, and until its lifetime has passed its entry is there. */
  predicate KnownOk(macs: seq<MacEntry>, ss: seq<Session>, kept: Option<(int, int)>, clock: int, net: int, mac: Mac) {
    kept.Some? ==>
      var (fd, time) := kept.value;
      var i, j := First(macs, MacKey(net, mac)), First(ss, SessionKey(fd, net));
      && j >= 0
      && (clock <= time + Lifetime(ss[j]) ==>
            i >= 0 && macs[i].fd == fd && macs[i].lastSeen == time && macs[i].ttl == ss[j].ttl)
  }

  lemma AgedKnown(macs: seq<MacEntry>, ss: seq<Session>, kept: Option<(int, int)>, clock: int, now: int, net: int, mac: Mac)
    requires KnownOk(macs, ss, kept, clock, net, mac)
    ensures KnownOk(Age(macs, ss, now), ss, kept, Latest(clock, now), net, mac)
  {
    if kept.Some? {
      var (fd, time) := kept.value;
      var i, j := First(macs, MacKey(net, mac)), First(ss, SessionKey(fd, net));
      if Latest(clock, now) <= time + Lifetime(ss[j]) {
        assert Age(macs, ss, now)[i] == macs[i];
        FirstIs(Age(macs, ss, now), MacKey(net, mac), i);
      }
    }
  }

  /** Another address is learnt, or none: this one's entry stays where it is. */
  lemma OtherLearnt(macs: seq<MacEntry>, i: nat, e: MacEntry, net: int, mac: Mac)
    requires i < |macs| && (e.net != net || e.mac != mac)
    requires macs[i].active ==> macs[i].net != net || macs[i].mac != mac
    ensures First(macs[i := e], MacKey(net, mac)) == First(macs, MacKey(net, mac))
  {
    FirstIs(macs[i := e], MacKey(net, mac), First(macs, MacKey(net, mac)));
  }

  lemma ThisLearnt(macs: seq<MacEntry>, i: nat, e: MacEntry, net: int, mac: Mac)
    requires i < |macs| && MacKey(net, mac)(e)
    requires forall a | 0 <= a < |macs| && a != i && macs[a].active :: macs[a].net != net || macs[a].mac != mac
    ensures First(macs[i := e], MacKey(net, mac)) == i
  {
    FirstIs(macs[i := e], MacKey(net, mac), i);
  }

  /** Hearing another address. */
  lemma OtherKeepsKnown(macs: seq<MacEntry>, ss: seq<Session>, s: Session, src: Mac, h: History, now: int, clock: int, net: int, mac: Mac)
    requires KnownOk(macs, ss, LastKept(h, net, mac), clock, net, mac) && (s.net != net || src != mac)
    ensures var (macs', k) := Learn(macs, s, src, now);
            KnownOk(macs', ss, LastKept(HistoryOf(h, s, src, now, k), net, mac), clock, net, mac)
  {
    var i, e := LearnShape(macs, s, src, now);
    var (macs', k) := Learn(macs, s, src, now);
    assert LastKept(HistoryOf(h, s, src, now, k), net, mac) == LastKept(h, net, mac);
    if k !in {Ignored, NotStored} {
      OtherLearnt(macs, i, e, net, mac);
      assert macs' == macs[i := e];
    }
  }

  /** The address's entry, new or not, is now its session's and of this time. */
  lemma PutKnown(macs: seq<MacEntry>, ss: seq<Session>, j: nat, i: nat, e: MacEntry, clock: int, net: int, mac: Mac)
    requires i < |macs| && j < |ss| && First(ss, SessionKey(e.fd, net)) == j && e.ttl == ss[j].ttl && MacKey(net, mac)(e)
    requires forall a | 0 <= a < |macs| && a != i && macs[a].active :: macs[a].net != net || macs[a].mac != mac
    ensures KnownOk(macs[i := e], ss, Some((e.fd, e.lastSeen)), clock, net, mac)
  {
    ThisLearnt(macs, i, e, net, mac);
  }

  /** The address's entry keeps its session and time. */
  lemma PutFrozen(macs: seq<MacEntry>, ss: seq<Session>, kept: Option<(int, int)>, i: nat, e: MacEntry, clock: int, net: int, mac: Mac)
    requires KnownOk(macs, ss, kept, clock, net, mac) && First(macs, MacKey(net, mac)) == i && MacKey(net, mac)(e)
    requires e.fd == macs[i].fd && e.lastSeen == macs[i].lastSeen && e.ttl == macs[i].ttl
    ensures KnownOk(macs[i := e], ss, kept, clock, net, mac)
  {
    FirstIs(macs[i := e], MacKey(net, mac), i);
  }

  /** Hearing the address itself, and refusing it. */
  lemma RefusedKeepsKnown(macs: seq<MacEntry>, ss: seq<Session>, j: nat, mac: Mac, h: History, now: int, clock: int)
    requires UniqueMacs(macs) && j < |ss| && First(ss, SessionKey(ss[j].fd, ss[j].net)) == j
    requires KnownOk(macs, ss, LastKept(h, ss[j].net, mac), clock, ss[j].net, mac)
    requires Learn(macs, ss[j], mac, now).1 == Frozen
    ensures var (macs', k) := Learn(macs, ss[j], mac, now);
            KnownOk(macs', ss, LastKept(HistoryOf(h, ss[j], mac, now, k), ss[j].net, mac), clock, ss[j].net, mac)
  {
    var s := ss[j];
    var i, e := LearnShape(macs, s, mac, now);
    OnlyIts(macs, i, Frozen, s.net, mac);
    FrozenKeepsEntry(macs[i], s, now);
    PutFrozen(macs, ss, LastKept(h, s.net, mac), i, e, clock, s.net, mac);
  }

  /** Hearing the address itself, and taking it. */
  lemma HeardIsKnown(macs: seq<MacEntry>, ss: seq<Session>, j: nat, mac: Mac, h: History, now: int, clock: int)
    requires UniqueMacs(macs) && j < |ss| && First(ss, SessionKey(ss[j].fd, ss[j].net)) == j
    requires KnownOk(macs, ss, LastKept(h, ss[j].net, mac), clock, ss[j].net, mac)
    requires Learn(macs, ss[j], mac, now).1 in {Created, Refreshed, Moved}
    ensures var (macs', k) := Learn(macs, ss[j], mac, now);
            KnownOk(macs', ss, LastKept(HistoryOf(h, ss[j], mac, now, k), ss[j].net, mac), clock, ss[j].net, mac)
  {
    var s := ss[j];
    var i, e := LearnShape(macs, s, mac, now);
    var k := Learn(macs, s, mac, now).1;
    forall a | 0 <= a < |macs| && a != i && macs[a].active ensures macs[a].net != s.net || macs[a].mac != mac {}
    HeardEntry(macs[i], s, mac, now, e, k);
    PutKnown(macs, ss, j, i, e, clock, s.net, mac);
  }

  lemma FrozenKeepsEntry(e: MacEntry, s: Session, now: int)
    requires LearnEntry(e, s, now).1 == Frozen
    ensures var e' := LearnEntry(e, s, now).0; e'.fd == e.fd && e'.lastSeen == e.lastSeen && e'.ttl == e.ttl
  {
  }

  lemma HeardEntry(e: MacEntry, s: Session, mac: Mac, now: int, e': MacEntry, k: Learnt)
    requires (k in {Refreshed, Moved} && (e', k) == LearnEntry(e, s, now)) || (k == Created && e' == NewEntry(s, mac, now))
    ensures e'.fd == s.fd && e'.lastSeen == now && e'.ttl == s.ttl
  {
  }

  lemma LearnKeepsKnown(macs: seq<MacEntry>, ss: seq<Session>, j: nat, src: Mac, h: History, now: int, clock: int, net: int, mac: Mac)
    requires UniqueMacs(macs) && UniqueFds(ss) && j < |ss| && ss[j].active
    requires KnownOk(macs, ss, LastKept(h, net, mac), clock, net, mac)
    ensures var (macs', k) := Learn(macs, ss[j], src, now);
            KnownOk(macs', ss, LastKept(HistoryOf(h, ss[j], src, now, k), net, mac), clock, net, mac)
  {
    if ss[j].net != net || src != mac {
      OtherKeepsKnown(macs, ss, ss[j], src, h, now, clock, net, mac);
    } else {
      assert SessionKey(ss[j].fd, net)(ss[j]);
      var k := Learn(macs, ss[j], src, now).1;
      if k == Frozen {
        RefusedKeepsKnown(macs, ss, j, mac, h, now, clock);
      } else if k !in {Ignored, NotStored} {
        HeardIsKnown(macs, ss, j, mac, h, now, clock);
      }
    }
  }

  /** The entry an address is learnt into is the one it had, if it had one. */
  lemma OnlyIts(macs: seq<MacEntry>, i: nat, k: Learnt, net: int, mac: Mac)
    requires UniqueMacs(macs) && i < |macs|
    requires k != Created ==> macs[i].active && macs[i].net == net && macs[i].mac == mac
    ensures k != Created ==> First(macs, MacKey(net, mac)) == i
  {
    if k != Created {
      OnlyMatch(macs, net, mac, i);
    }
  }

  lemma KeptHeard(t: Tap, macs': seq<MacEntry>, hist': History, e: Event, i: int, net: int, mac: Mac)
    requires LearnStep(t, macs', hist', e, i)
    ensures var k := Learn(Age(t.hub.macs, t.hub.sessions, e.now), t.hub.sessions[i], Src(e.frame), e.now).1;
            LastKept(hist', net, mac) == LastKept(HistoryOf(t.hist, t.hub.sessions[i], Src(e.frame), e.now, k), net, mac)
  {
  }

  lemma LearnStepKnown(t: Tap, macs': seq<MacEntry>, hist': History, e: Event, i: int, net: int, mac: Mac)
    requires TapInv(t) && LearnStep(t, macs', hist', e, i) && Enabled(t, e)
    requires KnownOk(t.hub.macs, t.hub.sessions, LastKept(t.hist, net, mac), t.clock, net, mac)
    ensures KnownOk(macs', t.hub.sessions, LastKept(hist', net, mac), Latest(t.clock, e.now), net, mac)
  {
    var ss, now := t.hub.sessions, e.now;
    LearnedTable(t, macs', hist', e, i);
    AgedKnown(t.hub.macs, ss, LastKept(t.hist, net, mac), t.clock, now, net, mac);
    KeptHeard(t, macs', hist', e, i, net, mac);
    LearnKeepsKnown(Age(t.hub.macs, ss, now), ss, i, Src(e.frame), t.hist, now, Latest(t.clock, now), net, mac);
  }

  /** Sessions that differ only in flood counters and queues are the same here. */
  lemma SameIdsKnown(macs: seq<MacEntry>, ss: seq<Session>, ss': seq<Session>, kept: Option<(int, int)>, clock: int, net: int, mac: Mac)
    requires KnownOk(macs, ss, kept, clock, net, mac) && SameIds(ss, ss')
    ensures KnownOk(macs, ss', kept, clock, net, mac)
  {
    if kept.Some? {
      SameFirst(ss, ss', kept.value.0, net);
    }
  }

  lemma FrameKnown(t: Tap, e: Event, net: int, mac: Mac)
    requires TapInv(t) && e.Frame? && Enabled(t, e)
    requires KnownOk(t.hub.macs, t.hub.sessions, LastKept(t.hist, net, mac), t.clock, net, mac)
    ensures var t' := Step(t, e); KnownOk(t'.hub.macs, t'.hub.sessions, LastKept(t'.hist, net, mac), t'.clock, net, mac)
  {
    var t' := Step(t, e);
    RelayIds(t.hub, e.fd, e.net, e.frame, e.payload, e.now);
    StepKinds(t, e);
    if Learns(t, e) {
      LearnStepKnown(t, t'.hub.macs, t'.hist, e, First(t.hub.sessions, SessionKey(e.fd, e.net)), net, mac);
    } else {
      AgedKnown(t.hub.macs, t.hub.sessions, LastKept(t.hist, net, mac), t.clock, e.now, net, mac);
      AgedOnly(t, e);
    }
    SameIdsKnown(t'.hub.macs, t.hub.sessions, t'.hub.sessions, LastKept(t'.hist, net, mac), t'.clock, net, mac);
  }

  /** A frame that does not learn ages the table, unless it is too short even for that. */
  lemma AgedOnly(t: Tap, e: Event)
    requires e.Frame? && !Learns(t, e)
    ensures Step(t, e).hist == t.hist
    ensures Step(t, e).hub.macs == if |e.frame| < MIN_FRAME then t.hub.macs else Age(t.hub.macs, t.hub.sessions, e.now)
  {
    RelayFloods(t.hub, e.fd, e.net, e.frame, e.payload, e.now);
  }

  lemma JoinKnown(t: Tap, e: Event, net: int, mac: Mac)
    requires TapInv(t) && e.Join? && Enabled(t, e)
    requires KnownOk(t.hub.macs, t.hub.sessions, LastKept(t.hist, net, mac), t.clock, net, mac)
    ensures var t' := Step(t, e); KnownOk(t'.hub.macs, t'.hub.sessions, LastKept(t'.hist, net, mac), t'.clock, net, mac)
  {
    var ss, ss', kept := t.hub.sessions, Step(t, e).hub.sessions, LastKept(t.hist, net, mac);
    assert LastKept(Step(t, e).hist, net, mac) == kept;
    if kept.Some? && First(ss, FreeSession()) >= 0 {
      var fd := kept.value.0;
      var j := First(ss, SessionKey(fd, net));
      assert !FdKey(e.fd)(ss[j]);
      forall k | 0 <= k < |ss'| && k != j ensures !SessionKey(fd, net)(ss'[k]) {
        assert ss[k].active ==> ss[k].fd != fd;
      }
      FirstIs(ss', SessionKey(fd, net), j);
    }
  }

  lemma ForgetKeeps(macs: seq<MacEntry>, fd: int, net: int, mac: Mac)
    requires var i := First(macs, MacKey(net, mac)); i >= 0 && macs[i].fd != fd
    ensures var i := First(macs, MacKey(net, mac)); First(Forget(macs, fd), MacKey(net, mac)) == i && Forget(macs, fd)[i] == macs[i]
  {
    FirstIs(Forget(macs, fd), MacKey(net, mac), First(macs, MacKey(net, mac)));
  }

  lemma UnregisterKeeps(h: Hub, fd: int, other: int, net: int)
    requires other != fd && First(h.sessions, SessionKey(other, net)) >= 0
    ensures var j := First(h.sessions, SessionKey(other, net));
            var ss := Unregister(h, fd).sessions;
            |ss| == |h.sessions| && First(ss, SessionKey(other, net)) == j && ss[j] == h.sessions[j]
  {
    FirstIs(Unregister(h, fd).sessions, SessionKey(other, net), First(h.sessions, SessionKey(other, net)));
  }

  lemma LeaveKnown(t: Tap, fd: int, net: int, mac: Mac)
    requires TapInv(t)
    requires KnownOk(t.hub.macs, t.hub.sessions, LastKept(t.hist, net, mac), t.clock, net, mac)
    ensures var t' := Step(t, Leave(fd)); KnownOk(t'.hub.macs, t'.hub.sessions, LastKept(t'.hist, net, mac), t'.clock, net, mac)
  {
    var kept := LastKept(Step(t, Leave(fd)).hist, net, mac);
    if kept.Some? {
      UnregisterKeeps(t.hub, fd, kept.value.0, net);
      var i := First(t.hub.macs, MacKey(net, mac));
      if i >= 0 && t.hub.macs[i].fd == kept.value.0 {
        ForgetKeeps(t.hub.macs, fd, net, mac);
      }
    }
  }

  lemma {:induction false} KnownRun(r: Run, net: int, mac: Mac)
    requires Legal(r)
    ensures var t := State(r); KnownOk(t.hub.macs, t.hub.sessions, LastKept(t.hist, net, mac), t.clock, net, mac)
  {
    if r.More? {
      var t, e := State(r.before), r.event;
      RunInv(r.before);
      KnownRun(r.before, net, mac);
      match e {
        case Join(_, _, _, _, _, _, _) => JoinKnown(t, e, net, mac);
        case Leave(fd) => LeaveKnown(t, fd, net, mac);
        case Frame(_, _, _, _, _) => FrameKnown(t, e, net, mac);
        case Writer(_, _) =>
          SameIdsKnown(t.hub.macs, t.hub.sessions, State(r).hub.sessions, LastKept(t.hist, net, mac), t.clock, net, mac);
      }
    }
  }

  /** An address whose last accepted frame was stored stays known: while its session has not left and no frame
      so far is stamped past its time plus the session's lifetime, the table has an active entry for it, with
      that session and that time. */
  lemma AddressStaysKnown(r: Run, net: int, mac: Mac) returns (i: int, j: int)
    requires Legal(r) && LastKept(State(r).hist, net, mac).Some?
    ensures var t := State(r); var (fd, time) := LastKept(t.hist, net, mac).value;
            && 0 <= j < |t.hub.sessions| && SessionKey(fd, net)(t.hub.sessions[j])
            && (t.clock <= time + Lifetime(t.hub.sessions[j]) ==>
                  && 0 <= i < |t.hub.macs| && MacKey(net, mac)(t.hub.macs[i])
                  && t.hub.macs[i].fd == fd && t.hub.macs[i].lastSeen == time)
  {
    KnownRun(r, net, mac);
    i := First(State(r).hub.macs, MacKey(net, mac));
    j := First(State(r).hub.sessions, SessionKey(LastKept(State(r).hist, net, mac).value.0, net));
  }

  /** A frame that gets past the filters, to an address kept and not past its lifetime, is forwarded to the
      session last heard from that address. */
  lemma UnicastReachesOwner(r: Run, e: Event)
    requires Legal(More(r, e)) && Learns(State(r), e) && e.frame[0] % 2 == 0
    requires Admit(State(r).hub, e.fd, e.net, e.frame, e.now).verdict != FrozenSource
    requires LastKept(State(More(r, e)).hist, e.net, Dst(e.frame)).Some?
    ensures var t, t' := State(r), State(More(r, e));
            var (fd, time) := LastKept(t'.hist, e.net, Dst(e.frame)).value;
            var j := First(t.hub.sessions, SessionKey(fd, e.net));
            && j >= 0
            && (t'.clock <= time + Lifetime(t.hub.sessions[j])
                ==> Admit(t.hub, e.fd, e.net, e.frame, e.now).verdict == Known(j))
  {
    var t, dst := State(r), Dst(e.frame);
    var t' := State(More(r, e));
    RunInv(r);
    KnownRun(r, e.net, dst);
    StepKinds(t, e);
    var i := First(t.hub.sessions, SessionKey(e.fd, e.net));
    LearnedTable(t, t'.hub.macs, t'.hist, e, i);
    LearnStepKnown(t, t'.hub.macs, t'.hist, e, i, e.net, dst);
  }
}
