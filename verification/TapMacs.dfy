/** The MAC table in every reachable state: agreement with the history of accepted frames,
    the per-session cap and freezing. */
module TapMacs {
  import opened Bytes
  import opened Proto
  import opened Scan
  import opened TapHub
  import opened TapRuns
  import W = Writer

  ghost predicate MacInv(macs: seq<MacEntry>, ss: seq<Session>, h: History, clock: int) {
    MacsOk(macs, ss, clock) && Agrees(macs, h) && Capped(macs, ss, h)
  }

  /** Sessions that differ only in flood counters and queues. */
  ghost predicate SameIds(ss: seq<Session>, ss': seq<Session>) {
    |ss| == |ss'| && forall k | 0 <= k < |ss| ::
      ss'[k] == ss[k].(floodWindow := ss'[k].floodWindow, floodCount := ss'[k].floodCount, q := ss'[k].q)
  }

  lemma SameFirst(ss: seq<Session>, ss': seq<Session>, fd: int, net: int)
    requires SameIds(ss, ss')
    ensures First(ss', SessionKey(fd, net)) == First(ss, SessionKey(fd, net))
    ensures First(ss', FdKey(fd)) == First(ss, FdKey(fd))
  {
    FirstIs(ss', SessionKey(fd, net), First(ss, SessionKey(fd, net)));
    FirstIs(ss', FdKey(fd), First(ss, FdKey(fd)));
  }

  lemma SameIdsInv(macs: seq<MacEntry>, ss: seq<Session>, ss': seq<Session>, h: History, clock: int)
    requires MacInv(macs, ss, h, clock) && SameIds(ss, ss')
    ensures MacInv(macs, ss', h, clock)
  {
    forall i | 0 <= i < |macs| && macs[i].active
      ensures EntryOk(macs[i], ss', clock)
    {
      SameFirst(ss, ss', macs[i].fd, macs[i].net);
    }
  }

  // ---- Entries only dropped: ageing, forgetting, lookup -----------------------------------

  ghost predicate Dropped(macs: seq<MacEntry>, macs': seq<MacEntry>) {
    |macs| == |macs'| && forall i | 0 <= i < |macs| ::
      macs'[i] == macs[i] || macs'[i] == macs[i].(active := false)
  }

  lemma DroppedInv(macs: seq<MacEntry>, macs': seq<MacEntry>, ss: seq<Session>, h: History, clock: int, now: int)
    requires MacInv(macs, ss, h, clock) && Dropped(macs, macs') && clock <= now
    ensures MacInv(macs', ss, h, now)
  {
    forall j | 0 <= j < |ss| && ss[j].active
      ensures Count(macs', OwnedBy(ss[j].fd, ss[j].net)) <= ss[j].maxMac + MovedOnto(h, ss[j].fd)
    {
      CountMono(macs, macs', OwnedBy(ss[j].fd, ss[j].net));
    }
  }

  // ---- Learning -------------------------------------------------------------------------

  function HistoryOf(h: History, s: Session, mac: Mac, now: int, k: Learnt): History {
    if k in {Ignored, Frozen} then h else Then(h, Heard(s.fd, s.net, mac, now, k))
  }

  /** Writing one entry keeps the table in order if the entry's address is nowhere else. */
  lemma PutEntry(macs: seq<MacEntry>, i: nat, e: MacEntry, ss: seq<Session>, h: History, h': History, now: int)
    requires i < |macs| && MacsOk(macs, ss, now) && Agrees(macs, h)
    requires e.active && EntryOk(e, ss, now) && LastHeard(h', e.net, e.mac) == Some((e.fd, e.lastSeen))
    requires forall a | 0 <= a < |macs| && a != i && macs[a].active :: macs[a].net != e.net || macs[a].mac != e.mac
    requires forall n, m | n != e.net || m != e.mac :: LastHeard(h', n, m) == LastHeard(h, n, m)
    ensures MacsOk(macs[i := e], ss, now) && Agrees(macs[i := e], h')
  {
  }

  lemma OnlyMatch(macs: seq<MacEntry>, net: int, mac: Mac, a: nat)
    requires UniqueMacs(macs) && a < |macs| && macs[a].active && macs[a].net == net && macs[a].mac == mac
    ensures First(macs, MacKey(net, mac)) == a
  {
    assert MacKey(net, mac)(macs[a]);
  }

  /** Learning writes at most one entry: the one with this address, or a free one. */
  lemma LearnShape(macs: seq<MacEntry>, s: Session, mac: Mac, now: int) returns (i: int, e: MacEntry)
    ensures var (macs', k) := Learn(macs, s, mac, now);
            && (k in {Ignored, NotStored} ==> macs' == macs)
            && (k !in {Ignored, NotStored} ==> 0 <= i < |macs| && macs' == macs[i := e])
            && (k in {Refreshed, Moved, Frozen} ==>
                  macs[i].active && macs[i].net == s.net && macs[i].mac == mac && (e, k) == LearnEntry(macs[i], s, now))
            && (k == Created ==>
                  && !macs[i].active && e == NewEntry(s, mac, now) && Learnable(mac)
                  && Count(macs, OwnedBy(s.fd, s.net)) < AsInt32(s.maxMac)
                  && forall a | 0 <= a < |macs| && macs[a].active :: macs[a].net != s.net || macs[a].mac != mac)
  {
    var k := Learn(macs, s, mac, now).1;
    var known := First(macs, MacKey(s.net, mac));
    if k == Created {
      i, e := First(macs, FreeMac()), NewEntry(s, mac, now);
      forall a | 0 <= a < |macs| && macs[a].active ensures macs[a].net != s.net || macs[a].mac != mac {
        assert !MacKey(s.net, mac)(macs[a]);
      }
    } else {
      i, e := known, if known >= 0 then LearnEntry(macs[known], s, now).0 else NO_MAC;
    }
  }

  lemma EntryKept(e: MacEntry, s: Session, ss: seq<Session>, now: int, clock: int)
    requires EntryOk(e, ss, clock) && e.active && e.net == s.net && Live(ss, s.fd, s.net) && 0 < now <= clock
    ensures var (e', k) := LearnEntry(e, s, now);
            && EntryOk(e', ss, clock) && e'.active && e'.net == e.net && e'.mac == e.mac
            && (if k == Frozen then e'.fd == e.fd && e'.lastSeen == e.lastSeen else e'.fd == s.fd && e'.lastSeen == now)
            && k in {Refreshed, Moved, Frozen}
  {
  }

  lemma LearnTable(macs: seq<MacEntry>, ss: seq<Session>, j: nat, mac: Mac, h: History, now: int, clock: int)
    requires MacsOk(macs, ss, clock) && Agrees(macs, h) && j < |ss| && ss[j].active && 0 < now <= clock
    ensures var (macs', k) := Learn(macs, ss[j], mac, now);
            MacsOk(macs', ss, clock) && Agrees(macs', HistoryOf(h, ss[j], mac, now, k))
  {
    var s := ss[j];
    var i, e := LearnShape(macs, s, mac, now);
    var k := Learn(macs, s, mac, now).1;
    assert SessionKey(s.fd, s.net)(ss[j]);
    if k == NotStored {
      NotStoredMeansAbsent(macs, s, mac, now);
    } else if k != Ignored {
      if k != Created {
        EntryKept(macs[i], s, ss, now, clock);
      }
      PutEntry(macs, i, e, ss, h, HistoryOf(h, s, mac, now, k), clock);
    }
  }

  lemma NotStoredMeansAbsent(macs: seq<MacEntry>, s: Session, mac: Mac, now: int)
    requires Learn(macs, s, mac, now).1 == NotStored
    ensures forall a | 0 <= a < |macs| && macs[a].active :: macs[a].net != s.net || macs[a].mac != mac
  {
    forall a | 0 <= a < |macs| && macs[a].active ensures macs[a].net != s.net || macs[a].mac != mac {
      assert !MacKey(s.net, mac)(macs[a]);
    }
  }

  lemma LearnCapped(macs: seq<MacEntry>, ss: seq<Session>, j: nat, mac: Mac, h: History, now: int)
    requires Capped(macs, ss, h) && j < |ss| && ss[j].active && UniqueFds(ss)
    ensures var (macs', k) := Learn(macs, ss[j], mac, now);
            Capped(macs', ss, HistoryOf(h, ss[j], mac, now, k))
  {
    var (macs', k) := Learn(macs, ss[j], mac, now);
    forall c | 0 <= c < |ss| && ss[c].active
      ensures Count(macs', OwnedBy(ss[c].fd, ss[c].net))
           <= ss[c].maxMac + MovedOnto(HistoryOf(h, ss[j], mac, now, k), ss[c].fd)
    {
      LearnCount(macs, ss[j], mac, now, ss[c].fd, ss[c].net);
    }
  }

  /** How learning changes the number of entries a session owns. */
  lemma LearnCount(macs: seq<MacEntry>, s: Session, mac: Mac, now: int, fd: int, net: int)
    ensures var (macs', k) := Learn(macs, s, mac, now);
            var n, n' := Count(macs, OwnedBy(fd, net)), Count(macs', OwnedBy(fd, net));
            n' <= n + (if k in {Created, Moved} && s.fd == fd && s.net == net then 1 else 0)
    ensures Learn(macs, s, mac, now).1 == Created ==> Count(macs, OwnedBy(s.fd, s.net)) < AsInt32(s.maxMac)
  {
    var i, e := LearnShape(macs, s, mac, now);
    if Learn(macs, s, mac, now).1 !in {Ignored, NotStored} {
      CountUpdate(macs, i, e, OwnedBy(fd, net));
    }
  }

  // ---- One step -----------------------------------------------------------------------

  ghost predicate TapInv(t: Tap) {
    Shaped(t) && UniqueFds(t.hub.sessions) && MacInv(t.hub.macs, t.hub.sessions, t.hist, t.clock)
  }

  /** The stale-entry branch of the lookup is dead: a matching entry's session is registered. */
  lemma LookupKeeps(macs: seq<MacEntry>, ss: seq<Session>, net: int, mac: Mac, clock: int)
    requires MacsOk(macs, ss, clock)
    ensures Lookup(macs, ss, net, mac).0 == macs
    ensures var i := First(macs, MacKey(net, mac));
            Lookup(macs, ss, net, mac).1 >= 0 <==> !IsMulticast(mac) && i >= 0
  {
  }

  lemma AdmitFloodIds(s: Session, rates: seq<Rate>, now: int)
    ensures var s' := AdmitFlood(s, rates, now).0;
            s' == s.(floodWindow := s'.floodWindow, floodCount := s'.floodCount)
  {
  }

  lemma AdmitIds(h: Hub, fd: int, net: int, frame: seq<byte>, now: int)
    ensures SameIds(h.sessions, Admit(h, fd, net, frame, now).hub.sessions)
  {
    var i := First(h.sessions, SessionKey(fd, net));
    if i >= 0 {
      var s := AdmitFlood(h.sessions[i], h.rates, now).0;
      AdmitFloodIds(h.sessions[i], h.rates, now);
      assert SameIds(h.sessions, h.sessions[i := s]);
    }
    assert SameIds(h.sessions, h.sessions);
  }

  /** The relay's copies change queues only. */
  ghost predicate SameFloods(ss: seq<Session>, ss': seq<Session>) {
    |ss| == |ss'| && forall k | 0 <= k < |ss| :: ss'[k] == ss[k].(q := ss'[k].q)
  }

  lemma FloodCopiesFloods(ss: seq<Session>, source: Session, payload: seq<byte>, now: int)
    ensures SameFloods(ss, FloodCopies(ss, source, payload, now))
  {
  }

  lemma UnicastFloods(ss: seq<Session>, j: nat, q: W.Writer)
    requires j < |ss|
    ensures SameFloods(ss, ss[j := ss[j].(q := q)])
  {
  }

  lemma RelayFloods(h: Hub, fd: int, net: int, frame: seq<byte>, payload: seq<byte>, now: int)
    ensures SameFloods(Admit(h, fd, net, frame, now).hub.sessions, Relay(h, fd, net, frame, payload, now).0.sessions)
    ensures Relay(h, fd, net, frame, payload, now).0.macs == Admit(h, fd, net, frame, now).hub.macs
    ensures Relay(h, fd, net, frame, payload, now).0.rates == Admit(h, fd, net, frame, now).hub.rates
  {
    var a := Admit(h, fd, net, frame, now);
    if a.verdict.Admitted? {
      FloodCopiesFloods(a.hub.sessions, a.hub.sessions[First(h.sessions, SessionKey(fd, net))], payload, now);
    } else if a.verdict.Known? {
      var j := a.verdict.target;
      UnicastFloods(a.hub.sessions, j, W.EnqueueTap(a.hub.sessions[j].q, payload, false, now));
    }
  }

  lemma RelayIds(h: Hub, fd: int, net: int, frame: seq<byte>, payload: seq<byte>, now: int)
    ensures SameIds(h.sessions, Relay(h, fd, net, frame, payload, now).0.sessions)
  {
    AdmitIds(h, fd, net, frame, now);
    RelayFloods(h, fd, net, frame, payload, now);
  }

  lemma FrameInv(t: Tap, fd: int, net: u32, frame: seq<byte>, payload: seq<byte>, now: int)
    requires TapInv(t) && Enabled(t, Frame(fd, net, frame, payload, now))
    ensures TapInv(Step(t, Frame(fd, net, frame, payload, now)))
  {
    var h, ss := t.hub, t.hub.sessions;
    var e := Frame(fd, net, frame, payload, now);
    var t' := Step(t, e);
    RelayIds(h, fd, net, frame, payload, now);
    RelayFloods(h, fd, net, frame, payload, now);
    if |frame| < MIN_FRAME {
      DroppedInv(h.macs, h.macs, ss, t.hist, t.clock, t'.clock);
    } else {
      var aged := Age(h.macs, ss, now);
      DroppedInv(h.macs, aged, ss, t.hist, t.clock, t'.clock);
      if Admit(h, fd, net, frame, now).verdict !in {NoSession, L2Filtered} {
        LearnStepIs(t, e);
        LearnInv(t, t'.hub.macs, t'.hist, e, First(ss, SessionKey(fd, net)), t'.clock);
      }
    }
    SameIdsInv(t'.hub.macs, ss, t'.hub.sessions, t'.hist, t'.clock);
  }

  /** What a frame past the filters of the session at slot i does to the addresses and the history. */
  ghost predicate LearnStep(t: Tap, macs': seq<MacEntry>, hist': History, e: Event, i: int) {
    && e.Frame? && |e.frame| >= MIN_FRAME && 0 <= i < |t.hub.sessions| && SessionKey(e.fd, e.net)(t.hub.sessions[i])
    && var ss, mac := t.hub.sessions, Src(e.frame);
       var (learned, k) := Learn(Age(t.hub.macs, ss, e.now), ss[i], mac, e.now);
       var heard := HistoryOf(t.hist, ss[i], mac, e.now, k);
       && macs' == (if k == Frozen then learned else Lookup(learned, ss, e.net, Dst(e.frame)).0)
       && (hist' == heard || hist' == Then(heard, Flooded(e.fd, e.net, e.now, ss[i].netLimit)))
  }

  lemma LearnStepIs(t: Tap, e: Event)
    requires e.Frame? && |e.frame| >= MIN_FRAME
    requires Admit(t.hub, e.fd, e.net, e.frame, e.now).verdict !in {NoSession, L2Filtered}
    ensures LearnStep(t, Admit(t.hub, e.fd, e.net, e.frame, e.now).hub.macs, Step(t, e).hist, e,
                      First(t.hub.sessions, SessionKey(e.fd, e.net)))
  {
  }

  /** Learning the source of an accepted frame keeps the table in order. */
  lemma LearnInv(t: Tap, macs': seq<MacEntry>, hist': History, e: Event, i: int, clock: int)
    requires LearnStep(t, macs', hist', e, i) && 0 < e.now <= clock && UniqueFds(t.hub.sessions)
    requires MacInv(Age(t.hub.macs, t.hub.sessions, e.now), t.hub.sessions, t.hist, clock)
    ensures MacInv(macs', t.hub.sessions, hist', clock)
  {
    var ss, now, mac := t.hub.sessions, e.now, Src(e.frame);
    var aged := Age(t.hub.macs, ss, now);
    var (learned, k) := Learn(aged, ss[i], mac, now);
    LearnTable(aged, ss, i, mac, t.hist, now, clock);
    LearnCapped(aged, ss, i, mac, t.hist, now);
    LookupKeeps(learned, ss, e.net, Dst(e.frame), clock);
    assert MacInv(learned, ss, HistoryOf(t.hist, ss[i], mac, now, k), clock);
  }

  lemma LiveOther(ss: seq<Session>, i: nat, s: Session, fd: int, net: int)
    requires i < |ss| && Live(ss, fd, net) && First(ss, SessionKey(fd, net)) != i
    ensures Live(ss[i := s], fd, net)
  {
    var k := First(ss, SessionKey(fd, net));
    assert SessionKey(fd, net)(ss[i := s][k]);
  }

  /** An active entry never carries the descriptor of a slot's stranger. */
  lemma NothingOwned(macs: seq<MacEntry>, ss: seq<Session>, clock: int, fd: int, net: int)
    requires MacsOk(macs, ss, clock) && First(ss, FdKey(fd)) < 0
    ensures Count(macs, OwnedBy(fd, net)) == 0
  {
    forall a | 0 <= a < |macs| ensures !OwnedBy(fd, net)(macs[a]) {
      if macs[a].active && macs[a].fd == fd {
        var k := First(ss, SessionKey(fd, macs[a].net));
        assert FdKey(fd)(ss[k]);
      }
    }
    CountZero(macs, OwnedBy(fd, net));
  }

  lemma JoinInv(t: Tap, e: Event)
    requires TapInv(t) && e.Join? && Enabled(t, e)
    ensures TapInv(Step(t, e))
  {
    var ss, macs, h := t.hub.sessions, t.hub.macs, t.hist;
    var i := First(ss, FreeSession());
    if i >= 0 {
      var s := NewSession(e.fd, e.sid, e.net, e.nodePk, e.isTap, e.config, e.started);
      var ss', h' := ss[i := s], Recorded(t, e);
      forall a | 0 <= a < |ss| && ss[a].active ensures ss[a].fd != e.fd {
        assert !FdKey(e.fd)(ss[a]);
      }
      forall a | 0 <= a < |macs| && macs[a].active
        ensures EntryOk(macs[a], ss', t.clock) && LastHeard(h', macs[a].net, macs[a].mac) == LastHeard(h, macs[a].net, macs[a].mac)
      {
        LiveOther(ss, i, s, macs[a].fd, macs[a].net);
      }
      NothingOwned(macs, ss, t.clock, e.fd, e.net);
    }
  }

  lemma LeaveInv(t: Tap, fd: int)
    requires TapInv(t)
    ensures TapInv(Step(t, Leave(fd)))
  {
    var ss, macs, h := t.hub.sessions, t.hub.macs, t.hist;
    var t' := Step(t, Leave(fd));
    var forgot, h', ss' := Forget(macs, fd), Then(h, Left(fd)), t'.hub.sessions;
    DroppedInv(macs, forgot, ss, h, t.clock, t.clock);
    var i := First(ss, FdKey(fd));
    forall a | 0 <= a < |forgot| && forgot[a].active
      ensures EntryOk(forgot[a], ss', t.clock) && LastHeard(h', forgot[a].net, forgot[a].mac) == LastHeard(h, forgot[a].net, forgot[a].mac)
    {
      if i >= 0 {
        LiveOther(ss, i, ss'[i], forgot[a].fd, forgot[a].net);
      }
    }
  }

  lemma StepInv(t: Tap, e: Event)
    requires TapInv(t) && Enabled(t, e)
    ensures TapInv(Step(t, e))
  {
    match e {
      case Join(_, _, _, _, _, _, _) => JoinInv(t, e);
      case Leave(fd) => LeaveInv(t, fd);
      case Frame(fd, net, frame, payload, now) => FrameInv(t, fd, net, frame, payload, now);
      case Writer(_, _) => SameIdsInv(t.hub.macs, t.hub.sessions, Step(t, e).hub.sessions, t.hist, t.clock);
    }
  }

  lemma {:induction false} RunInv(r: Run)
    requires Legal(r)
    ensures TapInv(State(r))
  {
    match r
    case Init =>
      assert TapInv(State(r)) by {
        var t := State(r);
        forall j | 0 <= j < |t.hub.sessions| ensures !t.hub.sessions[j].active {}
      }
    case More(before, e) =>
      RunInv(before);
      StepInv(State(before), e);
  }

  // ---- What holds in every reachable state ------------------------------------------------

  /** Active entries are unique per (network, address), hold learnable addresses, name a registered
      session of the network, and agree with the history: owner and time are those of the last
      accepted frame from that address since its owner joined. */
  lemma TableAgreesWithHistory(r: Run, i: nat)
    requires Legal(r) && i < MAX_MACS
    ensures |State(r).hub.macs| == MAX_MACS
    ensures var t := State(r); var e := t.hub.macs[i];
            e.active ==>
              && e.mac != [0, 0, 0, 0, 0, 0] && e.mac[0] % 2 == 0
              && (exists j | 0 <= j < |t.hub.sessions| :: t.hub.sessions[j].active && t.hub.sessions[j].fd == e.fd && t.hub.sessions[j].net == e.net)
              && (forall k | 0 <= k < MAX_MACS && t.hub.macs[k].active :: t.hub.macs[k].net == e.net && t.hub.macs[k].mac == e.mac ==> k == i)
              && LastHeard(t.hist, e.net, e.mac) == Some((e.fd, e.lastSeen))
  {
    RunInv(r);
    var t := State(r);
    var e := t.hub.macs[i];
    if e.active {
      assert EntryOk(e, t.hub.sessions, t.clock);
      var j := First(t.hub.sessions, SessionKey(e.fd, e.net));
      assert t.hub.sessions[j].active;
    }
  }

  /** After ageing and learning no active entry is past its lifetime. */
  lemma LearnFresh(macs: seq<MacEntry>, s: Session, mac: Mac, now: int, i: nat)
    requires i < |macs| && Learn(macs, s, mac, now).0[i].active
    requires macs[i].active ==> now - macs[i].lastSeen <= Ttl(macs[i])
    ensures now - Learn(macs, s, mac, now).0[i].lastSeen <= Ttl(Learn(macs, s, mac, now).0[i])
  {
    var a, e := LearnShape(macs, s, mac, now);
  }

  lemma LookupEntry(macs: seq<MacEntry>, ss: seq<Session>, net: int, mac: Mac, clock: int) returns (i: nat)
    requires MacsOk(macs, ss, clock) && Lookup(macs, ss, net, mac).1 >= 0
    ensures var j := Lookup(macs, ss, net, mac).1;
            && i < |macs| && macs[i].active && macs[i].net == net && macs[i].mac == mac
            && ss[j].active && ss[j].net == net && ss[j].fd == macs[i].fd
  {
    i := First(macs, MacKey(net, mac));
  }

  /** The table entry behind a known-unicast verdict. */
  lemma KnownEntry(t: Tap, fd: int, net: u32, frame: seq<byte>, payload: seq<byte>, now: int) returns (i: nat)
    requires TapInv(t) && Enabled(t, Frame(fd, net, frame, payload, now))
    requires Admit(t.hub, fd, net, frame, now).verdict.Known?
    ensures |frame| >= MIN_FRAME
    ensures var j := Admit(t.hub, fd, net, frame, now).verdict.target;
            var macs := Admit(t.hub, fd, net, frame, now).hub.macs;
            && t.hub.sessions[j].active && t.hub.sessions[j].net == net
            && i < |macs| && macs[i].active && macs[i].net == net && macs[i].mac == Dst(frame)
            && macs[i].fd == t.hub.sessions[j].fd
            && now - macs[i].lastSeen <= Ttl(macs[i])
  {
    var ss, clock := t.hub.sessions, Latest(t.clock, now);
    var j := First(ss, SessionKey(fd, net));
    var aged := Age(t.hub.macs, ss, now);
    DroppedInv(t.hub.macs, aged, ss, t.hist, t.clock, clock);
    LearnTable(aged, ss, j, Src(frame), t.hist, now, clock);
    var learned := Learn(aged, ss[j], Src(frame), now).0;
    LookupKeeps(learned, ss, net, Dst(frame), clock);
    i := LookupEntry(learned, ss, net, Dst(frame), clock);
    LearnFresh(aged, ss[j], Src(frame), now, i);
  }

  /** A frame forwarded as known unicast goes to the session that last sent from its destination
      address, which was heard within the lifetime its entry carries. */
  lemma UnicastFollowsHistory(r: Run, fd: int, net: u32, frame: seq<byte>, payload: seq<byte>, now: int) returns (i: nat)
    requires Legal(More(r, Frame(fd, net, frame, payload, now)))
    requires Admit(State(r).hub, fd, net, frame, now).verdict.Known?
    ensures |frame| >= MIN_FRAME
    ensures var j := Admit(State(r).hub, fd, net, frame, now).verdict.target;
            var t, t' := State(r), Step(State(r), Frame(fd, net, frame, payload, now));
            && i < |t'.hub.macs| && j < |t.hub.sessions|
            && t.hub.sessions[j].active && t.hub.sessions[j].net == net
            && LastHeard(t'.hist, net, Dst(frame)) == Some((t.hub.sessions[j].fd, t'.hub.macs[i].lastSeen))
            && now - t'.hub.macs[i].lastSeen <= Ttl(t'.hub.macs[i])
  {
    var t := State(r);
    RunInv(r);
    FrameInv(t, fd, net, frame, payload, now);
    RelayFloods(t.hub, fd, net, frame, payload, now);
    i := KnownEntry(t, fd, net, frame, payload, now);
  }

  /** In a run's state, the entries carrying a session's descriptor are those it owns. */
  lemma OwnedByFd(t: Tap, j: nat, i: nat)
    requires TapInv(t) && j < |t.hub.sessions| && t.hub.sessions[j].active && i < |t.hub.macs|
    ensures t.hub.macs[i].active && t.hub.macs[i].fd == t.hub.sessions[j].fd
       <==> OwnedBy(t.hub.sessions[j].fd, t.hub.sessions[j].net)(t.hub.macs[i])
  {
    var e, s := t.hub.macs[i], t.hub.sessions[j];
    if e.active && e.fd == s.fd {
      assert EntryOk(e, t.hub.sessions, t.clock);
      assert First(t.hub.sessions, SessionKey(e.fd, e.net)) == j;
    }
  }

  /** The entries a session owns never exceed its cap plus the addresses moved onto it since it joined. */
  lemma MacCap(r: Run, j: nat)
    requires Legal(r) && j < |State(r).hub.sessions| && State(r).hub.sessions[j].active
    ensures var t := State(r); var s := t.hub.sessions[j];
            |set i | 0 <= i < |t.hub.macs| && t.hub.macs[i].active && t.hub.macs[i].fd == s.fd|
              <= s.maxMac + MovedOnto(t.hist, s.fd)
  {
    RunInv(r);
    var t := State(r);
    var s := t.hub.sessions[j];
    var p := OwnedBy(s.fd, s.net);
    forall i | 0 <= i < |t.hub.macs|
      ensures t.hub.macs[i].active && t.hub.macs[i].fd == s.fd <==> p(t.hub.macs[i])
    {
      OwnedByFd(t, j, i);
    }
    var ids := set i | 0 <= i < |t.hub.macs| && t.hub.macs[i].active && t.hub.macs[i].fd == s.fd;
    CountIsCardinality(t.hub.macs, p, ids);
  }

  /** A frame moves an address exactly when it is another session's, is not frozen, and its move window has
      run out or has a move left: the cap is not asked. */
  lemma MovesExactly(macs: seq<MacEntry>, s: Session, mac: Mac, now: int)
    ensures var i := First(macs, MacKey(s.net, mac));
            Learn(macs, s, mac, now).1 == Moved <==>
              && Learnable(mac) && i >= 0
              && macs[i].fd != s.fd && macs[i].frozenUntil <= now
              && (MoveExpired(macs[i], now) || macs[i].moveCount + 1 < FREEZE_THRESHOLD)
  {
  }

  /** The cap holds new addresses back, not moves: a session at its cap gets one more entry if and only if
      the frame moves an address onto it. */
  lemma MovesIgnoreCap(macs: seq<MacEntry>, s: Session, mac: Mac, now: int)
    ensures var (macs', k) := Learn(macs, s, mac, now);
            var n, n' := Count(macs, OwnedBy(s.fd, s.net)), Count(macs', OwnedBy(s.fd, s.net));
            && (k == Moved ==> n' == n + 1)
            && (n >= AsInt32(s.maxMac) ==> (n' > n <==> k == Moved))
  {
    LearnCount(macs, s, mac, now, s.fd, s.net);
    var i, e := LearnShape(macs, s, mac, now);
    if Learn(macs, s, mac, now).1 !in {Ignored, NotStored} {
      CountUpdate(macs, i, e, OwnedBy(s.fd, s.net));
    }
  }

  // ---- Freezing ------------------------------------------------------------------------------------

  /** Slot i keeps its entry across a step: it is active before, after the ageing scan and after. */
  predicate Stays(t: Tap, e: Event, i: nat)
    requires i < |t.hub.macs|
  {
    && t.hub.macs[i].active
    && (e.Frame? && |e.frame| >= MIN_FRAME ==> Age(t.hub.macs, t.hub.sessions, e.now)[i].active)
    && i < |Step(t, e).hub.macs| && Step(t, e).hub.macs[i].active
  }

  predicate SameOwner(e: MacEntry, e': MacEntry) {
    e'.net == e.net && e'.mac == e.mac && e'.fd == e.fd && e'.frozenUntil == e.frozenUntil
  }

  lemma FrozenLearn(macs: seq<MacEntry>, s: Session, mac: Mac, now: int, i: nat)
    requires i < |macs| && macs[i].active && macs[i].frozenUntil > now
    ensures SameOwner(macs[i], Learn(macs, s, mac, now).0[i])
  {
    var slot, entry := LearnShape(macs, s, mac, now);
  }

  lemma FrozenStep(t: Tap, e: Event, i: nat)
    requires TapInv(t) && Enabled(t, e) && i < |t.hub.macs| && Stays(t, e, i)
    requires t.hub.macs[i].frozenUntil > Step(t, e).clock
    ensures SameOwner(t.hub.macs[i], Step(t, e).hub.macs[i])
  {
    if e.Frame? {
      RelayFloods(t.hub, e.fd, e.net, e.frame, e.payload, e.now);
      var a := Admit(t.hub, e.fd, e.net, e.frame, e.now);
      if a.verdict !in {TooShort, NoSession, L2Filtered} {
        FrozenFrame(t, e, i);
      }
    }
  }

  lemma FrozenFrame(t: Tap, e: Event, i: nat)
    requires TapInv(t) && e.Frame? && Enabled(t, e) && i < |t.hub.macs| && Stays(t, e, i)
    requires t.hub.macs[i].frozenUntil > Step(t, e).clock
    requires Admit(t.hub, e.fd, e.net, e.frame, e.now).verdict !in {TooShort, NoSession, L2Filtered}
    ensures SameOwner(t.hub.macs[i], Admit(t.hub, e.fd, e.net, e.frame, e.now).hub.macs[i])
  {
    var ss, clock := t.hub.sessions, Step(t, e).clock;
    var aged := Age(t.hub.macs, ss, e.now);
    var j := First(ss, SessionKey(e.fd, e.net));
    DroppedInv(t.hub.macs, aged, ss, t.hist, t.clock, clock);
    LearnTable(aged, ss, j, Src(e.frame), t.hist, e.now, clock);
    FrozenLearn(aged, ss[j], Src(e.frame), e.now, i);
    LookupKeeps(Learn(aged, ss[j], Src(e.frame), e.now).0, ss, e.net, Dst(e.frame), clock);
  }

  /** Run r continues r0, and slot i keeps its entry all the way. */
  predicate StaysSince(r: Run, r0: Run, i: nat) {
    r == r0 || (r.More? && StaysSince(r.before, r0, i)
                && i < |State(r.before).hub.macs| && Stays(State(r.before), r.event, i))
  }

  /** While an entry stays in the table and its freeze has not run out, its owner does not change. */
  lemma {:induction false} FreezeHolds(r: Run, r0: Run, i: nat)
    requires Legal(r) && Legal(r0) && StaysSince(r, r0, i) && i < MAX_MACS
    ensures |State(r0).hub.macs| == |State(r).hub.macs| == MAX_MACS
    ensures State(r0).hub.macs[i].frozenUntil > State(r).clock
            ==> SameOwner(State(r0).hub.macs[i], State(r).hub.macs[i])
  {
    RunInv(r);
    RunInv(r0);
    if r != r0 && State(r0).hub.macs[i].frozenUntil > State(r).clock {
      RunInv(r.before);
      FreezeHolds(r.before, r0, i);
      FrozenStep(State(r.before), r.event, i);
    }
  }
}
