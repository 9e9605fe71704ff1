/** What the hub answers in plain numbers and in terms of how its sessions joined, apart from the step functions. */
module TapRules {
  import opened Bytes
  import opened Scan
  import opened Proto
  import opened TapHub
  import opened TapRuns
  import opened TapMacs
  import opened TapMoves
  import opened TapKnown
  import opened TapDelivery
  import W = Writer

  // ---- Learning a source address -------------------------------------------------------------------

  predicate Individual(mac: Mac) {
    mac != [0, 0, 0, 0, 0, 0] && mac[0] % 2 == 0
  }

  predicate IsOf(e: MacEntry, net: int, mac: Mac) {
    e.active && e.net == net && e.mac == mac
  }

  /** The entry has moved in the ten seconds up to now. */
  predicate JustMoved(e: MacEntry, now: int) {
    e.moveCount >= 1 && e.moveWindow <= now <= e.moveWindow + 10
  }

  predicate HolderAt(macs: seq<MacEntry>, a: int, net: int, mac: Mac) {
    0 <= a < |macs| && IsOf(macs[a], net, mac)
  }

  /** The session has room for one more address, and the table too. */
  predicate HasRoom(macs: seq<MacEntry>, s: Session) {
    && (exists a | 0 <= a < |macs| :: !macs[a].active)
    && |set a | 0 <= a < |macs| && macs[a].active && macs[a].fd == s.fd && macs[a].net == s.net|
       < (if s.maxMac < 0x8000_0000 then s.maxMac else s.maxMac - 0x1_0000_0000)
  }

  /** Group and zero addresses are not learnt. A new address is stored if there is room. A known one is refreshed
      by its own session, always; a frame of another session moves it, or is refused when the address is
      frozen or has just moved. */
  lemma LearnAnswers(macs: seq<MacEntry>, s: Session, mac: Mac, now: int)
    requires UniqueMacs(macs) && FreezesOk(macs) && 0 < now < U64_MOD - 60
    ensures var k := Learn(macs, s, mac, now).1;
            && (k.Ignored? <==> !Individual(mac))
            && (k.Created? <==> Individual(mac) && (forall a :: !HolderAt(macs, a, s.net, mac)) && HasRoom(macs, s))
            && (k.NotStored? <==> Individual(mac) && (forall a :: !HolderAt(macs, a, s.net, mac)) && !HasRoom(macs, s))
    ensures forall a | HolderAt(macs, a, s.net, mac) && Individual(mac) ::
              var k, e := Learn(macs, s, mac, now).1, macs[a];
              && (k.Refreshed? <==> e.fd == s.fd)
              && (k.Frozen? <==> e.fd != s.fd && (e.frozenUntil > now || JustMoved(e, now)))
              && (k.Moved? <==> e.fd != s.fd && e.frozenUntil <= now && !JustMoved(e, now))
  {
    var i := First(macs, MacKey(s.net, mac));
    forall a ensures HolderAt(macs, a, s.net, mac) <==> a == i && i >= 0 {
      if HolderAt(macs, a, s.net, mac) {
        OnlyMatch(macs, s.net, mac, a);
      }
    }
    RoomIs(macs, s);
    if i >= 0 {
      assert HolderAt(macs, i, s.net, mac);
      LearnedKnown(macs[i], s, now);
    }
  }

  lemma RoomIs(macs: seq<MacEntry>, s: Session)
    ensures HasRoom(macs, s) <==> First(macs, FreeMac()) >= 0 && Count(macs, OwnedBy(s.fd, s.net)) < AsInt32(s.maxMac)
  {
    var ids := set a | 0 <= a < |macs| && macs[a].active && macs[a].fd == s.fd && macs[a].net == s.net;
    CountIsCardinality(macs, OwnedBy(s.fd, s.net), ids);
    var f := First(macs, FreeMac());
    if f < 0 {
      forall a | 0 <= a < |macs| ensures macs[a].active {
        assert !FreeMac()(macs[a]);
      }
    } else {
      assert !macs[f].active;
    }
  }

  lemma LearnedKnown(e: MacEntry, s: Session, now: int)
    requires FreezeOk(e) && 0 < now < U64_MOD - 60
    ensures var k := LearnEntry(e, s, now).1;
            && (k.Refreshed? <==> e.fd == s.fd)
            && (k.Frozen? <==> e.fd != s.fd && (e.frozenUntil > now || JustMoved(e, now)))
            && (k.Moved? <==> e.fd != s.fd && e.frozenUntil <= now && !JustMoved(e, now))
  {
  }

  /** The table after a known address was heard: a refreshed entry lives on, its freeze over if it ran out; a
      moved one has its first move in this second's window, or in the one still open; a refused one stays,
      and if it was not frozen yet is so for 60 seconds; nothing else changes. */
  lemma LearnChanges(macs: seq<MacEntry>, s: Session, mac: Mac, now: int, a: int)
    requires UniqueMacs(macs) && FreezesOk(macs) && 0 < now < U64_MOD - 60 && HolderAt(macs, a, s.net, mac) && Individual(mac)
    ensures var (macs', k) := Learn(macs, s, mac, now); var e := macs[a];
            var open := e.moveWindow <= now <= e.moveWindow + 10;
            macs' == macs[a :=
              match k
              case Refreshed => e.(ttl := s.ttl, lastSeen := now, frozenUntil := if e.frozenUntil <= now then 0 else e.frozenUntil)
              case Moved => e.(fd := s.fd, ttl := s.ttl, lastSeen := now, moveWindow := if open then e.moveWindow else now, moveCount := 1)
              case _ => if e.frozenUntil > now then e else e.(moveCount := e.moveCount + 1, frozenUntil := now + 60)]
  {
    OnlyMatch(macs, s.net, mac, a);
    LearnAnswers(macs, s, mac, now);
  }

  /** A new address goes into a free slot, as its session's, heard now and never moved; one that is not stored
      or not learnt changes nothing. */
  lemma NewAddress(macs: seq<MacEntry>, s: Session, mac: Mac, now: int)
    ensures var (macs', k) := Learn(macs, s, mac, now);
            && (k.Created? ==> exists a | 0 <= a < |macs| ::
                  !macs[a].active && macs' == macs[a := MacEntry(true, s.net, s.fd, mac, s.ttl, now, now, 0, 0)])
            && (k in {Ignored, NotStored} ==> macs' == macs)
  {
  }

  /** A frame from the session that owns its source address is never refused for a freeze. */
  lemma OwnerNeverRefused(r: Run, e: Event, a: int)
    requires Legal(More(r, e)) && e.Frame? && |e.frame| >= 14
    requires HolderAt(State(r).hub.macs, a, e.net, e.frame[6..12]) && State(r).hub.macs[a].fd == e.fd
    ensures Admit(State(r).hub, e.fd, e.net, e.frame, e.now).verdict != FrozenSource
  {
    var t, src := State(r), Src(e.frame);
    RunInv(r);
    var aged := Age(t.hub.macs, t.hub.sessions, e.now);
    var i := First(aged, MacKey(e.net, src));
    if i >= 0 {
      assert IsOf(t.hub.macs[i], e.net, src);
      OnlyMatch(t.hub.macs, e.net, src, i);
      OnlyMatch(t.hub.macs, e.net, src, a);
    }
  }

  // ---- Sessions are as they joined -----------------------------------------------------------------

  /** The last time a descriptor joined. */
  function LastJoin(r: Run, fd: int): Option<Event> {
    match r
    case Init => None
    case More(before, e) => if e.Join? && e.fd == fd then Some(e) else LastJoin(before, fd)
  }

  /** What a session is, from the configuration it joined with: the lifetime of addresses defaults to 300
      seconds, their number to 32, the flood queue to 262144 bytes. */
  predicate AsJoined(s: Session, j: Option<Event>) {
    && j.Some? && j.value.Join? && j.value.started
    && var e := j.value; var c := e.config;
       && s.fd == e.fd && s.net == e.net && s.nodePk == e.nodePk && s.isTap == e.isTap && s.socks == c.socks
       && s.ttl == (if c.ttl == 0 then 300 else c.ttl) && s.maxMac == (if c.maxMac == 0 then 32 else c.maxMac)
       && s.netLimit == c.netLimit && s.sessLimit == c.sessLimit
       && s.clientToClient == c.clientToClient && s.l2Control == c.l2Control
       && s.q.sid == e.sid && s.q.limit == (if c.queueLimit == 0 then 262144 else c.queueLimit)
  }

  /** A frame changes a session's flood counters and queue only, and of the queue neither session nor limit. */
  lemma FrameKeepsJoined(t: Tap, e: Event, j: nat)
    requires TapInv(t) && e.Frame? && Enabled(t, e) && j < |t.hub.sessions|
    ensures j < |Step(t, e).hub.sessions|
    ensures var s, s' := t.hub.sessions[j], Step(t, e).hub.sessions[j];
            && s' == s.(floodWindow := s'.floodWindow, floodCount := s'.floodCount, q := s'.q)
            && s'.q.sid == s.q.sid && s'.q.limit == s.q.limit
  {
    RelayIds(t.hub, e.fd, e.net, e.frame, e.payload, e.now);
    OfferIsTaken(t.hub, e, j);
    if Offer(t.hub, e, j).Some? {
      ActKeepsIdentity(t.hub.sessions[j].q, Offer(t.hub, e, j).value);
    }
  }

  lemma StepAsJoined(t: Tap, t': Tap, e: Event, j: nat, last: int -> Option<Event>)
    requires TapInv(t) && Enabled(t, e) && t' == Step(t, e) && j < |t.hub.sessions| == |t'.hub.sessions|
    requires t'.hub.sessions[j].active && (t.hub.sessions[j].active ==> AsJoined(t.hub.sessions[j], last(t.hub.sessions[j].fd)))
    ensures var fd := t'.hub.sessions[j].fd; AsJoined(t'.hub.sessions[j], if e.Join? && e.fd == fd then Some(e) else last(fd))
  {
    match e {
      case Frame(_, _, _, _, _) => FrameKeepsJoined(t, e, j);
      case Writer(slot, step) => ActKeepsIdentity(t.hub.sessions[slot].q, step);
      case Join(fd, _, _, _, _, _, _) =>
        if t.hub.sessions[j].active {
          assert !FdKey(fd)(t.hub.sessions[j]);
        }
      case Leave(_) =>
    }
  }

  /** In every reachable state every session is as its descriptor's last join said. */
  lemma {:induction false} SessionsAsJoined(r: Run, j: nat)
    requires Legal(r) && j < |State(r).hub.sessions| && State(r).hub.sessions[j].active
    ensures AsJoined(State(r).hub.sessions[j], LastJoin(r, State(r).hub.sessions[j].fd))
  {
    if r.More? {
      RunInv(r.before);
      RunInv(r);
      if State(r.before).hub.sessions[j].active {
        SessionsAsJoined(r.before, j);
      }
      StepAsJoined(State(r.before), State(r), r.event, j, (fd: int) => LastJoin(r.before, fd));
    }
  }

  /** The tables keep their sizes: 64 sessions, 512 addresses, 128 network counters. */
  lemma TableSizes(r: Run)
    requires Legal(r)
    ensures |State(r).hub.sessions| == 64 && |State(r).hub.macs| == 512 && |State(r).hub.rates| == 128
  {
    RunInv(r);
  }

  /** A join succeeds if and only if a slot is free and the writer starts; it changes at most one slot, a free one. */
  lemma JoinAnswers(h: Hub, fd: int, sid: int, net: int, nodePk: int, isTap: bool, c: Config, started: bool)
    ensures var (h', ok) := Register(h, fd, sid, net, nodePk, isTap, c, started);
            && (ok <==> started && exists j | 0 <= j < |h.sessions| :: !h.sessions[j].active)
            && h'.macs == h.macs && h'.rates == h.rates
            && (h' == h || exists j | 0 <= j < |h.sessions| ::
                  !h.sessions[j].active && h'.sessions == h.sessions[j := h'.sessions[j]] && h'.sessions[j].active == started)
  {
    var i := First(h.sessions, FreeSession());
    if i < 0 {
      forall j | 0 <= j < |h.sessions| ensures h.sessions[j].active {
        assert !FreeSession()(h.sessions[j]);
      }
    } else {
      assert !h.sessions[i].active;
    }
  }

  // ---- Filters --------------------------------------------------------------------------------------

  /** A frame between two TAP clients reaches no queue unless the source joined with client-to-client traffic
      allowed; and the rule holds back nothing else. */
  lemma ClientRule(r: Run, e: Event, i: nat, j: nat)
    requires Legal(More(r, e)) && e.Frame?
    requires i < |State(r).hub.sessions| && SessionKey(e.fd, e.net)(State(r).hub.sessions[i])
    requires j < |State(r).hub.sessions| && State(r).hub.sessions[j].active
    ensures var from, to := LastJoin(r, State(r).hub.sessions[i].fd), LastJoin(r, State(r).hub.sessions[j].fd);
            && from.Some? && from.value.Join? && to.Some? && to.value.Join?
            && (Barred(State(r).hub.sessions[i], State(r).hub.sessions[j])
                <==> from.value.isTap && to.value.isTap && !from.value.config.clientToClient)
            && (Grew(State(r), e, j) ==> !(from.value.isTap && to.value.isTap && !from.value.config.clientToClient))
  {
    SessionsAsJoined(r, i);
    SessionsAsJoined(r, j);
    RunInv(r);
    CopyGrows(State(r), e, i, j);
  }

  /** What stops a frame before it is learnt from: fewer than 14 bytes, no session, or a destination of
      01:80:c2:00:00:00 to 01:80:c2:00:00:0f with a session that joined without L2 control traffic. */
  lemma FilterRules(r: Run, e: Event)
    requires Legal(More(r, e)) && e.Frame?
    ensures var ss := State(r).hub.sessions;
            var v := Admit(State(r).hub, e.fd, e.net, e.frame, e.now).verdict;
            var j := LastJoin(r, e.fd);
            && (v == TooShort <==> |e.frame| < 14)
            && (v == NoSession <==>
                  && |e.frame| >= 14
                  && forall i | 0 <= i < |ss| :: !(ss[i].active && ss[i].fd == e.fd && ss[i].net == e.net))
            && (v == L2Filtered <==>
                  && |e.frame| >= 14
                  && (exists i | 0 <= i < |ss| :: ss[i].active && ss[i].fd == e.fd && ss[i].net == e.net)
                  && e.frame[0..5] == [0x01, 0x80, 0xc2, 0x00, 0x00] && e.frame[5] <= 15
                  && j.Some? && j.value.Join? && !j.value.config.l2Control)
  {
    var ss := State(r).hub.sessions;
    var i := First(ss, SessionKey(e.fd, e.net));
    forall k | 0 <= k < |ss| ensures SessionKey(e.fd, e.net)(ss[k]) ==> i >= 0 {}
    if i >= 0 {
      SessionsAsJoined(r, i);
    }
    Filtered(State(r).hub, e.fd, e.net, e.frame, e.now);
  }

  lemma Filtered(h: Hub, fd: int, net: int, frame: seq<byte>, now: int)
    ensures var v, i := Admit(h, fd, net, frame, now).verdict, First(h.sessions, SessionKey(fd, net));
            && (v == TooShort <==> |frame| < 14)
            && (v == NoSession <==> |frame| >= 14 && i < 0)
            && (v == L2Filtered <==>
                  && |frame| >= 14 && i >= 0 && !h.sessions[i].l2Control
                  && frame[0..5] == [0x01, 0x80, 0xc2, 0x00, 0x00] && frame[5] <= 15)
  {
    if |frame| >= 14 {
      assert Dst(frame)[..5] == frame[0..5] && Dst(frame)[5] == frame[5];
    }
  }

  // ---- The end of an entry's life --------------------------------------------------------------------

  /** Entries live as long as their session's configuration says. */
  ghost predicate TtlOk(macs: seq<MacEntry>, ss: seq<Session>) {
    forall a | 0 <= a < |macs| && macs[a].active :: TtlOf(macs[a], ss)
  }

  predicate TtlOf(e: MacEntry, ss: seq<Session>) {
    var j := First(ss, SessionKey(e.fd, e.net));
    j >= 0 && e.ttl == ss[j].ttl
  }

  lemma LearnTtl(macs: seq<MacEntry>, ss: seq<Session>, j: nat, mac: Mac, now: int)
    requires TtlOk(macs, ss) && j < |ss| && First(ss, SessionKey(ss[j].fd, ss[j].net)) == j
    ensures TtlOk(Learn(macs, ss[j], mac, now).0, ss)
  {
    var s := ss[j];
    var i, e := LearnShape(macs, s, mac, now);
    var (macs', k) := Learn(macs, s, mac, now);
    if k !in {Ignored, NotStored} {
      if k == Frozen {
        FrozenKeepsEntry(macs[i], s, now);
        assert TtlOf(macs[i], ss);
      } else {
        HeardEntry(macs[i], s, mac, now, e, k);
      }
      SameNet(macs[i], s, mac, now, e, k);
      PutTtl(macs, i, e, ss);
    }
  }

  lemma SameNet(e0: MacEntry, s: Session, mac: Mac, now: int, e: MacEntry, k: Learnt)
    requires (k in {Refreshed, Moved, Frozen} && (e, k) == LearnEntry(e0, s, now)) || (k == Created && e == NewEntry(s, mac, now))
    ensures e.net == if k == Created then s.net else e0.net
  {
  }

  lemma PutTtl(macs: seq<MacEntry>, i: nat, e: MacEntry, ss: seq<Session>)
    requires i < |macs| && TtlOk(macs, ss) && TtlOf(e, ss)
    ensures TtlOk(macs[i := e], ss)
  {
  }

  lemma SameTtl(macs: seq<MacEntry>, macs': seq<MacEntry>, ss: seq<Session>, ss': seq<Session>)
    requires TtlOk(macs, ss) && Dropped(macs, macs') && SameIds(ss, ss')
    ensures TtlOk(macs', ss')
  {
    forall a | 0 <= a < |macs'| && macs'[a].active ensures TtlOf(macs'[a], ss') {
      assert TtlOf(macs[a], ss);
      SameFirst(ss, ss', macs[a].fd, macs[a].net);
    }
  }

  lemma FrameTtl(t: Tap, e: Event)
    requires TapInv(t) && e.Frame? && Enabled(t, e) && TtlOk(t.hub.macs, t.hub.sessions)
    ensures TtlOk(Step(t, e).hub.macs, Step(t, e).hub.sessions)
  {
    var t', ss := Step(t, e), t.hub.sessions;
    RelayIds(t.hub, e.fd, e.net, e.frame, e.payload, e.now);
    StepKinds(t, e);
    if Learns(t, e) {
      var i := First(ss, SessionKey(e.fd, e.net));
      LearnedTable(t, t'.hub.macs, t'.hist, e, i);
      SameTtl(t.hub.macs, Age(t.hub.macs, ss, e.now), ss, ss);
      LearnTtl(Age(t.hub.macs, ss, e.now), ss, i, Src(e.frame), e.now);
    }
    SameTtl(if Learns(t, e) then t'.hub.macs else t.hub.macs, t'.hub.macs, ss, t'.hub.sessions);
  }

  lemma JoinTtl(t: Tap, e: Event)
    requires TapInv(t) && e.Join? && Enabled(t, e) && TtlOk(t.hub.macs, t.hub.sessions)
    ensures TtlOk(Step(t, e).hub.macs, Step(t, e).hub.sessions)
  {
    var ss, ss' := t.hub.sessions, Step(t, e).hub.sessions;
    forall a | 0 <= a < |t.hub.macs| && t.hub.macs[a].active ensures TtlOf(t.hub.macs[a], ss') {
      var m := t.hub.macs[a];
      assert TtlOf(m, ss);
      JoinKeeps(t, e, m.fd, m.net);
    }
  }

  /** Another session's join leaves a session where it was. */
  lemma JoinKeeps(t: Tap, e: Event, fd: int, net: int)
    requires TapInv(t) && e.Join? && Enabled(t, e) && First(t.hub.sessions, SessionKey(fd, net)) >= 0
    ensures var j, ss' := First(t.hub.sessions, SessionKey(fd, net)), Step(t, e).hub.sessions;
            First(ss', SessionKey(fd, net)) == j && ss'[j] == t.hub.sessions[j]
  {
    var ss, ss' := t.hub.sessions, Step(t, e).hub.sessions;
    var j := First(ss, SessionKey(fd, net));
    assert !FdKey(e.fd)(ss[j]);
    forall k | 0 <= k < |ss'| && k != j ensures !SessionKey(fd, net)(ss'[k]) {
      assert ss[k].active ==> ss[k].fd != fd;
    }
    FirstIs(ss', SessionKey(fd, net), j);
  }

  lemma LeaveTtl(t: Tap, fd: int)
    requires TapInv(t) && TtlOk(t.hub.macs, t.hub.sessions)
    ensures TtlOk(Step(t, Leave(fd)).hub.macs, Step(t, Leave(fd)).hub.sessions)
  {
    var t' := Step(t, Leave(fd));
    forall a | 0 <= a < |t'.hub.macs| && t'.hub.macs[a].active ensures TtlOf(t'.hub.macs[a], t'.hub.sessions) {
      var m := t.hub.macs[a];
      assert TtlOf(m, t.hub.sessions);
      UnregisterKeeps(t.hub, fd, m.fd, m.net);
    }
  }

  lemma {:induction false} TtlRun(r: Run)
    requires Legal(r)
    ensures TtlOk(State(r).hub.macs, State(r).hub.sessions)
  {
    if r.More? {
      var t, e := State(r.before), r.event;
      RunInv(r.before);
      TtlRun(r.before);
      match e {
        case Join(_, _, _, _, _, _, _) => JoinTtl(t, e);
        case Leave(fd) => LeaveTtl(t, fd);
        case Frame(_, _, _, _, _) => FrameTtl(t, e);
        case Writer(_, _) => SameTtl(t.hub.macs, t.hub.macs, t.hub.sessions, State(r).hub.sessions);
      }
    }
  }

  /** A frame past the filters, to an address never heard, or last heard from a session longer ago than that
      session's lifetime of addresses, is not forwarded as known unicast. */
  lemma ForgottenIsFlooded(r: Run, e: Event)
    requires Legal(More(r, e)) && Learns(State(r), e) && e.frame[0..6] != e.frame[6..12]
    requires var heard := LastHeard(State(r).hist, e.net, e.frame[0..6]);
             heard.None? ||
             var j := First(State(r).hub.sessions, SessionKey(heard.value.0, e.net));
             j >= 0 && e.now > heard.value.1 + Lifetime(State(r).hub.sessions[j])
    ensures Admit(State(r).hub, e.fd, e.net, e.frame, e.now).verdict in {FrozenSource, Admitted, RateLimited}
  {
    var t, dst := State(r), Dst(e.frame);
    var i := First(t.hub.sessions, SessionKey(e.fd, e.net));
    RunInv(r);
    TtlRun(r);
    var aged := Age(t.hub.macs, t.hub.sessions, e.now);
    var heard := LastHeard(t.hist, e.net, dst);
    forall a | 0 <= a < |aged| ensures !MacKey(e.net, dst)(aged[a]) {
      if MacKey(e.net, dst)(t.hub.macs[a]) && heard.Some? {
        assert TtlOf(t.hub.macs[a], t.hub.sessions);
        assert heard == Some((t.hub.macs[a].fd, t.hub.macs[a].lastSeen));
        assert Stale(t.hub.macs[a], t.hub.sessions, e.now);
      }
    }
    NotLearnt(aged, t.hub.sessions[i], Src(e.frame), e.now, dst);
  }

  /** Learning one address makes no other one known. */
  lemma NotLearnt(macs: seq<MacEntry>, s: Session, mac: Mac, now: int, other: Mac)
    requires other != mac && forall a | 0 <= a < |macs| :: !MacKey(s.net, other)(macs[a])
    ensures First(Learn(macs, s, mac, now).0, MacKey(s.net, other)) < 0
  {
    var i, e := LearnShape(macs, s, mac, now);
    FirstIs(Learn(macs, s, mac, now).0, MacKey(s.net, other), -1);
  }

  // ---- After a session has left ----------------------------------------------------------------------

  /** A descriptor that leaves has no session and no address any more; its writer is as after a stop request and
      the exit that follows it, with both queues empty; other sessions and addresses are untouched. */
  lemma LeaveAnswers(r: Run, fd: int, j: nat, a: nat)
    requires Legal(r) && j < |State(r).hub.sessions| && a < |State(r).hub.macs|
    ensures j < |State(More(r, Leave(fd))).hub.sessions| && a < |State(More(r, Leave(fd))).hub.macs|
    ensures var s, s' := State(r).hub.sessions[j], State(More(r, Leave(fd))).hub.sessions[j];
            if s.active && s.fd == fd
            then !s'.active && s'.q == W.Act(W.Act(s.q, W.StopRequest), W.Take).(started := false)
                 && s'.q.ctrl == [] && s'.q.tap == [] && s'.q.pending == 0 && s'.q.stop
            else s' == s
    ensures var e, e' := State(r).hub.macs[a], State(More(r, Leave(fd))).hub.macs[a];
            if e.active && e.fd == fd then e' == e.(active := false) else e' == e
  {
    RunInv(r);
    WritersRun(r);
    var ss := State(r).hub.sessions;
    UnregisterSlot(State(r).hub, fd, j);
    if ss[j].active && ss[j].fd == fd {
      assert WriterOk(ss[j], State(r).steps[j]);
      W.Conservation(ss[j].q.sid, ss[j].q.limit, State(r).steps[j]);
      StoppedWriter(ss[j].q);
    }
  }

  lemma UnregisterSlot(h: Hub, fd: int, j: nat)
    requires UniqueFds(h.sessions) && j < |h.sessions|
    ensures var s, ss' := h.sessions[j], Unregister(h, fd).sessions;
            |ss'| == |h.sessions| && ss'[j] == if s.active && s.fd == fd then s.(active := false, q := StopWriter(s.q)) else s
  {
    if h.sessions[j].active && h.sessions[j].fd == fd {
      OnlySession(h.sessions, j);
    }
  }

  lemma StoppedWriter(q: W.Writer)
    requires q.started
    ensures var q' := StopWriter(q);
            q' == W.Act(W.Act(q, W.StopRequest), W.Take).(started := false) && q'.ctrl == q'.tap == [] && q'.pending == 0 && q'.stop
  {
  }

  // ---- The reported mode -----------------------------------------------------------------------------

  /** The mode reported with a frame's copies. */
  lemma ModesAre(h: Hub, v: Verdict, i: nat, payload: seq<byte>, now: int)
    requires i < |h.sessions| && (v.Known? ==> v.target < |h.sessions|)
    ensures var (_, n, mode) := Forward(h, v, i, payload, now);
            && (v == NoSession ==> n == 0 && mode == DropSession) && (v == L2Filtered ==> n == 0 && mode == DropL2)
            && (v == FrozenSource ==> n == 0 && mode == DropMacFreeze) && (v == RateLimited ==> n == 0 && mode == DropRate)
            && (v == TooShort ==> n == 0 && mode == Flood)
            && (v.Known? ==>
                  var s, d := h.sessions[i], h.sessions[v.target];
                  mode == if d.fd == s.fd then Mode.Unicast
                          else if s.isTap && d.isTap && !s.clientToClient then DropClient
                          else if d.q.started && !d.q.stop then Mode.Unicast else DropQueue)
            && (v == Admitted ==>
                  mode == if n == 0 && exists j | 0 <= j < |h.sessions| :: DropsCopy(h.sessions[i], h.sessions[j], payload, now)
                          then DropQueue else Flood)
  {
    if v == Admitted {
      var dropped := CopyOutcome(h.sessions[i], payload, now, W.Dropped);
      if Count(h.sessions, dropped) == 0 {
        NoneCounted(h.sessions, dropped);
      } else {
        SomeCounted(h.sessions, dropped);
      }
    }
  }

  /** A flood's copy is due to the session, whose writer runs but has no budget left. */
  predicate DropsCopy(s: Session, d: Session, payload: seq<byte>, now: int) {
    && d.active && d.fd != s.fd && d.net == s.net && !(s.isTap && d.isTap && !s.clientToClient)
    && d.q.started && !d.q.stop && W.OverBudget(d.q, payload, now)
  }

  lemma {:induction false} NoneCounted(ss: seq<Session>, p: Session -> bool)
    requires Count(ss, p) == 0
    ensures forall j | 0 <= j < |ss| :: !p(ss[j])
  {
    if ss != [] {
      NoneCounted(ss[..|ss| - 1], p);
    }
  }

  lemma {:induction false} SomeCounted(ss: seq<Session>, p: Session -> bool)
    requires Count(ss, p) > 0
    ensures exists j | 0 <= j < |ss| :: p(ss[j])
  {
    if p(ss[|ss| - 1]) {
      assert p(ss[|ss| - 1]);
    } else {
      SomeCounted(ss[..|ss| - 1], p);
      var j :| 0 <= j < |ss| - 1 && p(ss[..|ss| - 1][j]);
      assert p(ss[j]);
    }
  }
}
