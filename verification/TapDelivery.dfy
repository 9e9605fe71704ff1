/** Who gets a copy of a frame, and what every session's queue has been through. */
module TapDelivery {
  import opened Bytes
  import opened Scan
  import opened Proto
  import opened TapHub
  import opened TapRuns
  import opened TapMacs
  import W = Writer

  /** The relay takes the frame of the session at slot i past its filters. */
  predicate Passes(h: Hub, i: nat, frame: seq<byte>, now: int)
    requires i < |h.sessions|
  {
    && |frame| >= MIN_FRAME
    && !(IsL2Control(Dst(frame)) && !h.sessions[i].l2Control)
    && Learn(Age(h.macs, h.sessions, now), h.sessions[i], Src(frame), now).1 != Frozen
  }

  /** The address table a frame is forwarded by: aged, with the frame's source learnt. */
  function Table(h: Hub, i: nat, frame: seq<byte>, now: int): seq<MacEntry>
    requires i < |h.sessions| && |frame| >= MIN_FRAME
  {
    Learn(Age(h.macs, h.sessions, now), h.sessions[i], Src(frame), now).0
  }

  predicate Owns(e: MacEntry, s: Session, mac: Mac) {
    e.active && e.net == s.net && e.fd == s.fd && e.mac == mac
  }

  predicate KnownAddress(macs: seq<MacEntry>, net: int, mac: Mac) {
    mac[0] % 2 == 0 && exists a | 0 <= a < |macs| :: macs[a].active && macs[a].net == net && macs[a].mac == mac
  }

  /** Room for n more flood bytes: alone, on top of what is pending, and within this second. */
  predicate Room(q: W.Writer, n: int, now: int) {
    var limit := if q.limit == 0 then 256 * 1024 else q.limit;
    n <= limit && q.pending + n <= limit && (if q.winSec == now then q.winBytes else 0) + n <= limit
  }

  /** Session j is to get a copy of the frame of session i. */
  predicate Gets(h: Hub, i: nat, frame: seq<byte>, payload: seq<byte>, now: int, j: nat)
    requires i < |h.sessions| && j < |h.sessions|
  {
    var s, d := h.sessions[i], h.sessions[j];
    && Passes(h, i, frame, now)
    && d.active && d.net == s.net && d.fd != s.fd
    && !(s.isTap && d.isTap && !s.clientToClient)
    && d.q.started && !d.q.stop
    && if KnownAddress(Table(h, i, frame, now), s.net, Dst(frame))
       then exists a | 0 <= a < |Table(h, i, frame, now)| :: Owns(Table(h, i, frame, now)[a], d, Dst(frame))
       else AdmitFlood(s, h.rates, now).2 && Room(d.q, |payload| + 16, now)
  }

  lemma OnlySession(ss: seq<Session>, i: nat)
    requires UniqueFds(ss) && i < |ss| && ss[i].active
    ensures First(ss, SessionKey(ss[i].fd, ss[i].net)) == i
    ensures First(ss, FdKey(ss[i].fd)) == i
  {
    assert SessionKey(ss[i].fd, ss[i].net)(ss[i]);
    assert FdKey(ss[i].fd)(ss[i]);
  }

  /** What a state's verdict on a frame means in terms of the tables. */
  lemma VerdictMeans(t: Tap, e: Event, i: nat)
    requires TapInv(t) && e.Frame? && Enabled(t, e)
    requires i < |t.hub.sessions| && SessionKey(e.fd, e.net)(t.hub.sessions[i])
    ensures First(t.hub.sessions, SessionKey(e.fd, e.net)) == i
    ensures var v := Admit(t.hub, e.fd, e.net, e.frame, e.now).verdict;
            && (v in {TooShort, L2Filtered, FrozenSource} <==> !Passes(t.hub, i, e.frame, e.now))
            && v != NoSession
            && (v.Known? ==> KnownAddress(Table(t.hub, i, e.frame, e.now), e.net, Dst(e.frame)))
            && (v in {Admitted, RateLimited} ==> !KnownAddress(Table(t.hub, i, e.frame, e.now), e.net, Dst(e.frame)))
            && (v in {Admitted, RateLimited} ==> (v == Admitted <==> AdmitFlood(t.hub.sessions[i], t.hub.rates, e.now).2))
  {
    OnlySession(t.hub.sessions, i);
    if Passes(t.hub, i, e.frame, e.now) {
      var macs := Table(t.hub, i, e.frame, e.now);
      LearnedOk(t, e, i);
      LookupKeeps(macs, t.hub.sessions, e.net, Dst(e.frame), Latest(t.clock, e.now));
      if exists a | 0 <= a < |macs| :: macs[a].active && macs[a].net == e.net && macs[a].mac == Dst(e.frame) {
        var a :| 0 <= a < |macs| && macs[a].active && macs[a].net == e.net && macs[a].mac == Dst(e.frame);
        assert MacKey(e.net, Dst(e.frame))(macs[a]);
      }
    }
  }

  lemma LearnedOk(t: Tap, e: Event, i: nat)
    requires TapInv(t) && e.Frame? && Enabled(t, e) && |e.frame| >= MIN_FRAME
    requires i < |t.hub.sessions| && t.hub.sessions[i].active
    ensures MacsOk(Table(t.hub, i, e.frame, e.now), t.hub.sessions, Latest(t.clock, e.now))
  {
    var ss, clock := t.hub.sessions, Latest(t.clock, e.now);
    DroppedInv(t.hub.macs, Age(t.hub.macs, ss, e.now), ss, t.hist, t.clock, clock);
    LearnTable(Age(t.hub.macs, ss, e.now), ss, i, Src(e.frame), t.hist, e.now, clock);
  }

  /** The target of a known-unicast verdict is the session that owns the destination address. */
  lemma TargetOwns(t: Tap, e: Event, i: nat, j: nat)
    requires TapInv(t) && e.Frame? && Enabled(t, e) && j < |t.hub.sessions|
    requires i < |t.hub.sessions| && SessionKey(e.fd, e.net)(t.hub.sessions[i])
    requires Admit(t.hub, e.fd, e.net, e.frame, e.now).verdict.Known?
    ensures |e.frame| >= MIN_FRAME
    ensures var macs := Table(t.hub, i, e.frame, e.now); var d := t.hub.sessions[j];
            d.active && d.net == e.net ==>
              (Admit(t.hub, e.fd, e.net, e.frame, e.now).verdict == Known(j) <==>
                exists a | 0 <= a < |macs| :: Owns(macs[a], d, Dst(e.frame)))
    ensures var d := t.hub.sessions[Admit(t.hub, e.fd, e.net, e.frame, e.now).verdict.target];
            d.active && d.net == e.net
  {
    OnlySession(t.hub.sessions, i);
    LearnedOk(t, e, i);
    var macs := Table(t.hub, i, e.frame, e.now);
    var a := First(macs, MacKey(e.net, Dst(e.frame)));
    LookupKeeps(macs, t.hub.sessions, e.net, Dst(e.frame), Latest(t.clock, e.now));
    if t.hub.sessions[j].active {
      OnlySession(t.hub.sessions, j);
    }
    forall b | 0 <= b < |macs| && macs[b].active && macs[b].net == e.net && macs[b].mac == Dst(e.frame) ensures b == a {
      OnlyMatch(macs, e.net, Dst(e.frame), b);
    }
  }

  lemma FloodOffer(h: Hub, e: Event, i: nat, j: nat)
    requires e.Frame? && j < |h.sessions| && First(h.sessions, SessionKey(e.fd, e.net)) == i
    requires Admit(h, e.fd, e.net, e.frame, e.now).verdict.Admitted?
    ensures After(h, e).sessions[j].q
         == if Eligible(h.sessions[i], h.sessions[j]) then W.EnqueueTap(h.sessions[j].q, e.payload, true, e.now)
            else h.sessions[j].q
  {
    AdmittedKeepsQueues(h, e, i, j);
  }

  lemma UnicastOffer(h: Hub, e: Event, i: nat, j: nat)
    requires e.Frame? && j < |h.sessions| && First(h.sessions, SessionKey(e.fd, e.net)) == i
    requires Admit(h, e.fd, e.net, e.frame, e.now).verdict.Known?
    ensures After(h, e).sessions[j].q
         == if Admit(h, e.fd, e.net, e.frame, e.now).verdict == Known(j) && h.sessions[j].fd != e.fd
               && !Barred(h.sessions[i], h.sessions[j])
            then W.EnqueueTap(h.sessions[j].q, e.payload, false, e.now) else h.sessions[j].q
  {
  }

  /** The step offered to a writer is what happens to the session's queue. */
  lemma OfferIsTaken(h: Hub, e: Event, j: nat)
    requires e.Frame? && j < |h.sessions|
    ensures var q, q' := h.sessions[j].q, After(h, e).sessions[j].q;
            q' == if Offer(h, e, j).Some? then W.Act(q, Offer(h, e, j).value) else q
  {
    var i := First(h.sessions, SessionKey(e.fd, e.net));
    var v := Admit(h, e.fd, e.net, e.frame, e.now).verdict;
    if i >= 0 {
      match v {
        case Admitted => FloodOffer(h, e, i, j);
        case Known(_) => UnicastOffer(h, e, i, j);
        case RateLimited => AdmitFloodIds(h.sessions[i], h.rates, e.now);
        case _ =>
      }
    }
  }

  lemma AdmittedKeepsQueues(h: Hub, e: Event, i: nat, j: nat)
    requires e.Frame? && j < |h.sessions| && First(h.sessions, SessionKey(e.fd, e.net)) == i
    requires Admit(h, e.fd, e.net, e.frame, e.now).verdict.Admitted?
    ensures var ss := Admit(h, e.fd, e.net, e.frame, e.now).hub.sessions;
            ss[j].q == h.sessions[j].q && Eligible(ss[i], ss[j]) == Eligible(h.sessions[i], h.sessions[j])
  {
    AdmitFloodIds(h.sessions[i], h.rates, e.now);
  }

  /** The writer of slot j accepts what the frame offers it. */
  predicate Accepts(h: Hub, e: Event, j: int)
    requires e.Frame?
  {
    && 0 <= j < |h.sessions| && Offer(h, e, j).Some? && Offer(h, e, j).value.Tap?
    && W.Verdict(h.sessions[j].q, e.payload, Offer(h, e, j).value.flood, e.now).Queued?
  }

  lemma OfferMeans(t: Tap, e: Event, i: nat, j: nat)
    requires TapInv(t) && e.Frame? && Enabled(t, e) && j < |t.hub.sessions|
    requires i < |t.hub.sessions| && SessionKey(e.fd, e.net)(t.hub.sessions[i])
    ensures Gets(t.hub, i, e.frame, e.payload, e.now, j) <==> Accepts(t.hub, e, j)
  {
    VerdictMeans(t, e, i);
    var v := Admit(t.hub, e.fd, e.net, e.frame, e.now).verdict;
    if v.Known? {
      UnicastMeans(t, e, i, j);
    } else if v.Admitted? {
      FloodMeans(t, e, i, j);
    }
  }

  /** A known destination: the owner's writer is offered a message outside the budget. */
  lemma UnicastMeans(t: Tap, e: Event, i: nat, j: nat)
    requires TapInv(t) && e.Frame? && Enabled(t, e) && j < |t.hub.sessions|
    requires i < |t.hub.sessions| && SessionKey(e.fd, e.net)(t.hub.sessions[i])
    requires Admit(t.hub, e.fd, e.net, e.frame, e.now).verdict.Known?
    ensures Gets(t.hub, i, e.frame, e.payload, e.now, j) <==> Accepts(t.hub, e, j)
  {
    VerdictMeans(t, e, i);
    TargetOwns(t, e, i, j);
    UnicastAccepts(t.hub, e, i, j);
  }

  lemma UnicastAccepts(h: Hub, e: Event, i: nat, j: nat)
    requires e.Frame? && j < |h.sessions| && First(h.sessions, SessionKey(e.fd, e.net)) == i
    requires Admit(h, e.fd, e.net, e.frame, e.now).verdict.Known?
    ensures Accepts(h, e, j) <==>
              && Admit(h, e.fd, e.net, e.frame, e.now).verdict == Known(j)
              && h.sessions[j].fd != e.fd && !Barred(h.sessions[i], h.sessions[j]) && W.Running(h.sessions[j].q)
  {
  }

  /** A flood: every eligible writer is offered a message within its budget. */
  lemma FloodMeans(t: Tap, e: Event, i: nat, j: nat)
    requires TapInv(t) && e.Frame? && Enabled(t, e) && j < |t.hub.sessions|
    requires i < |t.hub.sessions| && SessionKey(e.fd, e.net)(t.hub.sessions[i])
    requires Admit(t.hub, e.fd, e.net, e.frame, e.now).verdict.Admitted?
    ensures Gets(t.hub, i, e.frame, e.payload, e.now, j) <==> Accepts(t.hub, e, j)
  {
    VerdictMeans(t, e, i);
  }

  lemma OfferIsTap(h: Hub, e: Event, j: nat)
    requires e.Frame? && j < |h.sessions|
    ensures var o := Offer(h, e, j);
            o.Some? ==> o.value.Tap? && o.value.payload == e.payload && o.value.now == e.now
  {
  }

  predicate Grew(t: Tap, e: Event, j: nat)
    requires e.Frame? && j < |t.hub.sessions|
  {
    Step(t, e).hub.sessions[j].q.tap != t.hub.sessions[j].q.tap
  }

  /** Session j's TAP queue grows by one message with the frame's payload if it is to get a copy,
      and otherwise nothing of its queues changes. */
  predicate GrowsAsDue(t: Tap, e: Event, i: nat, j: nat)
    requires e.Frame? && j < |t.hub.sessions| && i < |t.hub.sessions|
  {
    var q, q' := t.hub.sessions[j].q, Step(t, e).hub.sessions[j].q;
    && q'.ctrl == q.ctrl
    && q'.tap == if Gets(t.hub, i, e.frame, e.payload, e.now, j)
                 then q.tap + [W.Msg(MSG_TAP_FRAME, q.sid, e.payload)] else q.tap
  }

  lemma CopyGrows(t: Tap, e: Event, i: nat, j: nat)
    requires TapInv(t) && e.Frame? && Enabled(t, e) && j < |t.hub.sessions|
    requires i < |t.hub.sessions| && SessionKey(e.fd, e.net)(t.hub.sessions[i])
    ensures GrowsAsDue(t, e, i, j)
    ensures Grew(t, e, j) <==> Gets(t.hub, i, e.frame, e.payload, e.now, j)
    ensures Grew(t, e, j) <==> Accepts(t.hub, e, j)
  {
    OfferIsTaken(t.hub, e, j);
    OfferIsTap(t.hub, e, j);
    OfferMeans(t, e, i, j);
  }

  lemma FloodCounts(h: Hub, e: Event, i: nat)
    requires e.Frame? && First(h.sessions, SessionKey(e.fd, e.net)) == i
    requires Admit(h, e.fd, e.net, e.frame, e.now).verdict.Admitted?
    ensures var ss := Admit(h, e.fd, e.net, e.frame, e.now).hub.sessions;
            Relay(h, e.fd, e.net, e.frame, e.payload, e.now).1 == Count(ss, CopyOutcome(ss[i], e.payload, e.now, W.Queued))
  {
  }

  lemma FloodReturns(h: Hub, e: Event, i: nat, grown: set<int>)
    requires e.Frame? && First(h.sessions, SessionKey(e.fd, e.net)) == i
    requires Admit(h, e.fd, e.net, e.frame, e.now).verdict.Admitted?
    requires forall j :: j in grown <==> Accepts(h, e, j)
    ensures Relay(h, e.fd, e.net, e.frame, e.payload, e.now).1 == |grown|
  {
    var ss := Admit(h, e.fd, e.net, e.frame, e.now).hub.sessions;
    var copied := CopyOutcome(ss[i], e.payload, e.now, W.Queued);
    FloodCounts(h, e, i);
    forall j ensures j in grown <==> 0 <= j < |ss| && copied(ss[j]) {
      if 0 <= j < |ss| {
        AdmittedKeepsQueues(h, e, i, j);
      }
    }
    CountIsCardinality(ss, copied, grown);
  }

  lemma UnicastCounts(h: Hub, e: Event, i: nat)
    requires e.Frame? && First(h.sessions, SessionKey(e.fd, e.net)) == i
    requires Admit(h, e.fd, e.net, e.frame, e.now).verdict.Known?
    ensures var d := h.sessions[Admit(h, e.fd, e.net, e.frame, e.now).verdict.target];
            Relay(h, e.fd, e.net, e.frame, e.payload, e.now).1
            == if d.fd != e.fd && !Barred(h.sessions[i], d) && W.Running(d.q) then 1 else 0
  {
  }

  lemma UnicastReturns(h: Hub, e: Event, i: nat, grown: set<int>)
    requires e.Frame? && First(h.sessions, SessionKey(e.fd, e.net)) == i
    requires Admit(h, e.fd, e.net, e.frame, e.now).verdict.Known?
    requires forall j :: j in grown <==> Accepts(h, e, j)
    ensures Relay(h, e.fd, e.net, e.frame, e.payload, e.now).1 == |grown|
  {
    var k := Admit(h, e.fd, e.net, e.frame, e.now).verdict.target;
    UnicastCounts(h, e, i);
    forall j | j in grown ensures j == k {
      UnicastAccepts(h, e, i, j);
    }
    UnicastAccepts(h, e, i, k);
    assert grown == if Accepts(h, e, k) then {k} else {};
  }

  lemma ReturnsGrown(t: Tap, e: Event, i: nat, grown: set<int>)
    requires TapInv(t) && e.Frame? && Enabled(t, e)
    requires i < |t.hub.sessions| && SessionKey(e.fd, e.net)(t.hub.sessions[i])
    requires forall j :: j in grown <==> 0 <= j < |t.hub.sessions| && Grew(t, e, j)
    ensures Relay(t.hub, e.fd, e.net, e.frame, e.payload, e.now).1 == |grown|
  {
    OnlySession(t.hub.sessions, i);
    forall j ensures j in grown <==> Accepts(t.hub, e, j) {
      if 0 <= j < |t.hub.sessions| {
        CopyGrows(t, e, i, j);
      }
    }
    var v := Admit(t.hub, e.fd, e.net, e.frame, e.now).verdict;
    if v.Admitted? {
      FloodReturns(t.hub, e, i, grown);
    } else if v.Known? {
      UnicastReturns(t.hub, e, i, grown);
    } else {
      forall j ensures j !in grown {
        assert !Accepts(t.hub, e, j);
      }
      assert grown == {};
    }
  }

  /** Delivery: in every reachable state a frame from a registered session grows, by exactly one
      message carrying its payload, the TAP queue of exactly the sessions that are to get it; no
      control queue changes; and the relay returns the number of queues that grew. */
  lemma RelayDelivers(r: Run, e: Event, i: nat)
    requires Legal(More(r, e)) && e.Frame?
    requires i < |State(r).hub.sessions| && SessionKey(e.fd, e.net)(State(r).hub.sessions[i])
    ensures forall j | 0 <= j < |State(r).hub.sessions| :: GrowsAsDue(State(r), e, i, j)
    ensures Relay(State(r).hub, e.fd, e.net, e.frame, e.payload, e.now).1
         == |set j | 0 <= j < |State(r).hub.sessions| && Grew(State(r), e, j)|
  {
    RunInv(r);
    var t := State(r);
    forall j | 0 <= j < |t.hub.sessions| ensures GrowsAsDue(t, e, i, j) {
      CopyGrows(t, e, i, j);
    }
    ReturnsGrown(t, e, i, set j | 0 <= j < |t.hub.sessions| && Grew(t, e, j));
  }

  /** A frame from a descriptor that is not registered in the network changes no queue. */
  lemma StrangersReachNobody(r: Run, e: Event, j: nat)
    requires Legal(More(r, e)) && e.Frame? && j < |State(r).hub.sessions|
    requires forall i | 0 <= i < |State(r).hub.sessions| :: !SessionKey(e.fd, e.net)(State(r).hub.sessions[i])
    ensures State(More(r, e)).hub.sessions[j].q == State(r).hub.sessions[j].q
    ensures Relay(State(r).hub, e.fd, e.net, e.frame, e.payload, e.now).1 == 0
  {
  }

  // ---- Every session's queue is a legal writer run -------------------------------------------

  predicate WriterOk(s: Session, steps: W.Trace) {
    && W.Legal(s.q.sid, s.q.limit, steps)
    && 0 <= s.q.limit < U32_MOD
    && W.Run(s.q.sid, s.q.limit, steps).w == s.q
  }

  predicate WritersOk(t: Tap) {
    |t.steps| == |t.hub.sessions| &&
    forall j | 0 <= j < |t.hub.sessions| && t.hub.sessions[j].active :: WriterOk(t.hub.sessions[j], t.steps[j])
  }

  lemma ActKeepsIdentity(q: W.Writer, e: W.Event)
    ensures W.Act(q, e).sid == q.sid && W.Act(q, e).limit == q.limit
  {
  }

  lemma FrameWriters(t: Tap, e: Event)
    requires TapInv(t) && WritersOk(t) && e.Frame? && Enabled(t, e)
    ensures WritersOk(Step(t, e))
  {
    var t' := Step(t, e);
    RelayIds(t.hub, e.fd, e.net, e.frame, e.payload, e.now);
    forall j | 0 <= j < |t'.hub.sessions| && t'.hub.sessions[j].active
      ensures WriterOk(t'.hub.sessions[j], t'.steps[j])
    {
      assert WriterOk(t.hub.sessions[j], t.steps[j]);
      OfferIsTaken(t.hub, e, j);
      if Offer(t.hub, e, j).Some? {
        ActKeepsIdentity(t.hub.sessions[j].q, Offer(t.hub, e, j).value);
      }
    }
  }

  lemma OtherWriters(t: Tap, e: Event)
    requires TapInv(t) && WritersOk(t) && !e.Frame? && Enabled(t, e)
    ensures WritersOk(Step(t, e))
  {
    var t' := Step(t, e);
    if e.Writer? {
      ActKeepsIdentity(t.hub.sessions[e.slot].q, e.step);
    }
    forall j | 0 <= j < |t'.hub.sessions| && t'.hub.sessions[j].active
      ensures WriterOk(t'.hub.sessions[j], t'.steps[j])
    {
      assert t.hub.sessions[j].active ==> WriterOk(t.hub.sessions[j], t.steps[j]);
    }
  }

  lemma {:induction false} WritersRun(r: Run)
    requires Legal(r)
    ensures WritersOk(State(r))
  {
    match r
    case Init =>
      assert forall j | 0 <= j < |State(r).hub.sessions| :: !State(r).hub.sessions[j].active;
    case More(before, e) =>
      RunInv(before);
      WritersRun(before);
      if e.Frame? {
        FrameWriters(State(before), e);
      } else {
        OtherWriters(State(before), e);
      }
  }

  /** In every reachable state of the hub, every session's queue is exactly what a legal run of its own
      writer leaves: nothing accepted is unaccounted for, and what was sent is a prefix of what was
      accepted. */
  lemma EverySessionConserves(r: Run, j: nat)
    requires Legal(r) && j < |State(r).hub.sessions| && State(r).hub.sessions[j].active
    ensures |State(r).steps| == |State(r).hub.sessions|
    ensures var q := State(r).hub.sessions[j].q;
            && W.Legal(q.sid, q.limit, State(r).steps[j])
            && var l := W.Run(q.sid, q.limit, State(r).steps[j]);
               && l.w == q
               && l.tap.accepted == l.tap.sent + W.Airborne(l, true) + l.tap.lost + q.tap
               && l.ctrl.accepted == l.ctrl.sent + W.Airborne(l, false) + l.ctrl.lost + q.ctrl
  {
    WritersRun(r);
    var q := State(r).hub.sessions[j].q;
    assert WriterOk(State(r).hub.sessions[j], State(r).steps[j]);
    W.Conservation(q.sid, q.limit, State(r).steps[j]);
  }

  // ---- Budgets, while frames take the lock in the order of their stamps ----------------------------

  predicate StepsInOrder(s: Session, steps: W.Trace, clock: int)
    requires WriterOk(s, steps)
  {
    W.Ordered(s.q.sid, s.q.limit, steps) && W.Run(s.q.sid, s.q.limit, steps).clock <= clock
  }

  lemma FrameInOrder(t: Tap, e: Event, j: nat)
    requires TapInv(t) && WritersOk(t) && e.Frame? && Enabled(t, e) && t.clock <= e.now
    requires j < |t.hub.sessions| && t.hub.sessions[j].active && StepsInOrder(t.hub.sessions[j], t.steps[j], t.clock)
    ensures WritersOk(Step(t, e)) && Step(t, e).hub.sessions[j].active
    ensures StepsInOrder(Step(t, e).hub.sessions[j], Step(t, e).steps[j], e.now)
  {
    RelayIds(t.hub, e.fd, e.net, e.frame, e.payload, e.now);
    FrameWriters(t, e);
    OfferIsTaken(t.hub, e, j);
    assert WriterOk(t.hub.sessions[j], t.steps[j]);
    if Offer(t.hub, e, j).Some? {
      ActKeepsIdentity(t.hub.sessions[j].q, Offer(t.hub, e, j).value);
    }
  }

  lemma OtherInOrder(t: Tap, e: Event, j: nat)
    requires TapInv(t) && WritersOk(t) && !e.Frame? && Enabled(t, e)
    requires j < |t.hub.sessions| && t.hub.sessions[j].active && Step(t, e).hub.sessions[j].active
    requires StepsInOrder(t.hub.sessions[j], t.steps[j], t.clock)
    ensures WritersOk(Step(t, e)) && StepsInOrder(Step(t, e).hub.sessions[j], Step(t, e).steps[j], t.clock)
  {
    OtherWriters(t, e);
    assert WriterOk(t.hub.sessions[j], t.steps[j]);
    if e.Writer? {
      ActKeepsIdentity(t.hub.sessions[e.slot].q, e.step);
    }
  }

  lemma {:induction false} InOrderRun(r: Run, j: nat)
    requires Legal(r) && Ordered(r) && j < |State(r).hub.sessions| && State(r).hub.sessions[j].active
    ensures WritersOk(State(r)) && StepsInOrder(State(r).hub.sessions[j], State(r).steps[j], State(r).clock)
  {
    RunInv(r);
    WritersRun(r);
    if r.More? {
      var t, e := State(r.before), r.event;
      RunInv(r.before);
      WritersRun(r.before);
      if e.Frame? {
        RelayIds(t.hub, e.fd, e.net, e.frame, e.payload, e.now);
        InOrderRun(r.before, j);
        FrameInOrder(t, e, j);
      } else if t.hub.sessions[j].active {
        InOrderRun(r.before, j);
        OtherInOrder(t, e, j);
      }
    }
  }

  /** In whatever order frames take the lock: as long as a session is never offered a flood in a second that
      its window left with bytes in it, it gets in no second more flood bytes than its limit, from all
      sources together. */
  lemma EverySessionWithinBudget(r: Run, j: nat, sec: int)
    requires Legal(r) && j < |State(r).hub.sessions| && State(r).hub.sessions[j].active
    ensures |State(r).steps| == |State(r).hub.sessions|
    ensures var q := State(r).hub.sessions[j].q;
            && W.Legal(q.sid, q.limit, State(r).steps[j])
            && var l := W.Run(q.sid, q.limit, State(r).steps[j]);
               l.w == q && (W.NeverReopens(q.sid, q.limit, State(r).steps[j]) ==> W.FloodBytes(l.floods, sec) <= W.Limit(q))
  {
    WritersRun(r);
    var q := State(r).hub.sessions[j].q;
    assert WriterOk(State(r).hub.sessions[j], State(r).steps[j]);
    W.FloodBudget(q.sid, q.limit, State(r).steps[j], sec);
  }

  /** ... which stamps in order make sure of. */
  lemma InOrderNeverReopens(r: Run, j: nat)
    requires Legal(r) && Ordered(r) && j < |State(r).hub.sessions| && State(r).hub.sessions[j].active
    ensures |State(r).steps| == |State(r).hub.sessions|
    ensures var q := State(r).hub.sessions[j].q;
            W.Legal(q.sid, q.limit, State(r).steps[j]) && W.NeverReopens(q.sid, q.limit, State(r).steps[j])
  {
    InOrderRun(r, j);
    var q := State(r).hub.sessions[j].q;
    assert WriterOk(State(r).hub.sessions[j], State(r).steps[j]);
    W.OrderedNeverReopens(q.sid, q.limit, State(r).steps[j]);
  }
}
