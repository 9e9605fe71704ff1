/** The flood limiter over whole runs. */
module TapFloods {
  import opened Scan
  import opened Proto
  import opened TapHub
  import opened TapRuns
  import opened TapMacs

  /** A session's counter against the floods it was admitted since it joined; its last frame was stamped `own`. */
  ghost predicate SessionOk(s: Session, h: History, own: int) {
    && 0 <= s.floodCount && 0 <= s.floodWindow <= own
    && (s.sessLimit > 0 ==>
          && (forall t | t > 0 && t >= s.floodWindow :: SessionFloods(h, s.fd, t) == FloodsIn(s, t))
          && (forall t | t > 0 :: SessionFloods(h, s.fd, t) <= s.sessLimit))
  }

  lemma ChargeOk(s: Session, h: History, now: int, admitted: bool, netLimit: int)
    requires SessionOk(s, h, now) && now > 0
    requires admitted && s.sessLimit > 0 ==> FloodsIn(s, now) < s.sessLimit
    ensures SessionOk(Charge(s, now, admitted), if admitted then Then(h, Flooded(s.fd, s.net, now, netLimit)) else h, now)
  {
    var s', h' := Charge(s, now, admitted), if admitted then Then(h, Flooded(s.fd, s.net, now, netLimit)) else h;
    forall t | t > 0 && s.sessLimit > 0
      ensures SessionFloods(h', s.fd, t) <= s.sessLimit
      ensures t >= now ==> SessionFloods(h', s.fd, t) == FloodsIn(s', t)
    {
      assert SessionFloods(h, s.fd, t) <= s.sessLimit;
      assert t >= now ==> SessionFloods(h, s.fd, t) == FloodsIn(s, t);
    }
  }

  lemma OtherSessionOk(s: Session, h: History, r: Record, own: int)
    requires SessionOk(s, h, own)
    requires !r.Joined? || r.fd != s.fd
    requires !r.Flooded? || r.fd != s.fd
    ensures SessionOk(s, Then(h, r), own)
  {
  }

  lemma LaterSessionOk(s: Session, h: History, own: int, now: int)
    requires SessionOk(s, h, own) && own <= now
    ensures SessionOk(s, h, now)
  {
  }

  // ---- One frame, as the limiter sees it ------------------------------------------------------------

  function FloodRecorded(h: History, s: Session, now: int, ok: bool): History {
    if ok then Then(h, Flooded(s.fd, s.net, now, s.netLimit)) else h
  }

  /** The frame from the session at slot i was put to the limiter if `tried`, after what was heard of it. */
  ghost predicate FloodStep(t: Tap, t': Tap, e: Event, i: int, heard: History, tried: bool) {
    var ss, now := t.hub.sessions, if e.Frame? then e.now else t.clock;
    && e.Frame?
    && (heard == t.hist || (heard.Then? && heard.past == t.hist && heard.last.Heard?))
    && (!tried ==> SameFloods(ss, t'.hub.sessions) && t'.hub.rates == t.hub.rates && t'.hist == heard)
    && (tried ==>
          && 0 <= i < |ss| && SessionKey(e.fd, e.net)(ss[i])
          && var (s', rates', ok) := AdmitFlood(ss[i], t.hub.rates, now);
             && SameFloods(ss[i := s'], t'.hub.sessions) && t'.hub.rates == rates'
             && t'.hist == FloodRecorded(heard, ss[i], now, ok))
  }

  lemma FloodStepIs(t: Tap, e: Event) returns (i: int, heard: History, tried: bool)
    requires e.Frame?
    ensures FloodStep(t, Step(t, e), e, i, heard, tried)
  {
    var a := Admit(t.hub, e.fd, e.net, e.frame, e.now);
    i := First(t.hub.sessions, SessionKey(e.fd, e.net));
    tried := a.verdict in {Admitted, RateLimited};
    heard := if |e.frame| < MIN_FRAME || i < 0 || a.learnt in {Ignored, Frozen} then t.hist
             else Then(t.hist, Heard(e.fd, e.net, Src(e.frame), e.now, a.learnt));
    RelayFloods(t.hub, e.fd, e.net, e.frame, e.payload, e.now);
  }

  // ---- Sessions: their own thread's order is enough ------------------------------------------------

  /** One frame, as the session at slot j sees it. */
  lemma FrameSession(t: Tap, t': Tap, e: Event, i: int, heard: History, tried: bool, j: nat, own: int)
    requires FloodStep(t, t', e, i, heard, tried) && UniqueFds(t.hub.sessions) && e.now > 0
    requires j < |t.hub.sessions| && t.hub.sessions[j].active
    requires SessionOk(t.hub.sessions[j], t.hist, own) && (t.hub.sessions[j].fd == e.fd ==> own <= e.now)
    ensures SessionOk(t'.hub.sessions[j], t'.hist, if t.hub.sessions[j].fd == e.fd then e.now else own)
  {
    var s := t.hub.sessions[j];
    var own' := if s.fd == e.fd then e.now else own;
    LaterSessionOk(s, t.hist, own, own');
    if heard != t.hist {
      OtherSessionOk(s, t.hist, heard.last, own');
    }
    if tried {
      var source := t.hub.sessions[i];
      var ok := AdmitFlood(source, t.hub.rates, e.now).2;
      ChargedSource(source, t.hub.rates, e.now);
      if j == i {
        ChargeOk(s, heard, e.now, ok, s.netLimit);
      } else if ok {
        OtherSessionOk(s, heard, Flooded(source.fd, source.net, e.now, source.netLimit), own');
      }
      SameCountersOk(t.hub.sessions[i := Charge(source, e.now, ok)][j], t'.hub.sessions[j], t'.hist, own');
    } else {
      SameCountersOk(s, t'.hub.sessions[j], t'.hist, own');
    }
  }

  lemma ChargedSource(s: Session, rates: seq<Rate>, now: int)
    ensures var (s', _, ok) := AdmitFlood(s, rates, now);
            s' == Charge(s, now, ok) && (ok && s.sessLimit > 0 ==> FloodsIn(s, now) < s.sessLimit)
  {
  }

  lemma SameCountersOk(s: Session, s': Session, h: History, own: int)
    requires SessionOk(s, h, own) && s' == s.(q := s'.q)
    ensures SessionOk(s', h, own)
  {
  }

  /** Joins, leaves and writers' steps say nothing of another session's floods. */
  lemma QuietSession(t: Tap, e: Event, j: nat, own: int)
    requires !e.Frame? && Enabled(t, e) && j < |t.hub.sessions| && t.hub.sessions[j].active
    requires j < |Step(t, e).hub.sessions| && Step(t, e).hub.sessions[j].active
    requires SessionOk(t.hub.sessions[j], t.hist, own)
    ensures SessionOk(Step(t, e).hub.sessions[j], Step(t, e).hist, own)
    ensures Step(t, e).hub.sessions[j].fd == t.hub.sessions[j].fd && (e.Join? ==> e.fd != t.hub.sessions[j].fd)
  {
    if e.Join? {
      assert !FdKey(e.fd)(t.hub.sessions[j]);
    }
    if Step(t, e).hist != t.hist {
      OtherSessionOk(t.hub.sessions[j], t.hist, Step(t, e).hist.last, own);
    }
  }

  lemma FrameSessionRun(r: Run, j: nat)
    requires Legal(r) && OwnOrder(r) && r.More? && r.event.Frame? && TapInv(State(r.before))
    requires j < |State(r.before).hub.sessions| && State(r.before).hub.sessions[j].active
    requires SessionOk(State(r.before).hub.sessions[j], State(r.before).hist, LastStamp(r.before, State(r.before).hub.sessions[j].fd))
    ensures j < |State(r).hub.sessions| && State(r).hub.sessions[j].fd == State(r.before).hub.sessions[j].fd
    ensures SessionOk(State(r).hub.sessions[j], State(r).hist, LastStamp(r, State(r).hub.sessions[j].fd))
  {
    var t, e := State(r.before), r.event;
    RelayIds(t.hub, e.fd, e.net, e.frame, e.payload, e.now);
    var i, heard, tried := FloodStepIs(t, e);
    FrameSession(t, State(r), e, i, heard, tried, j, LastStamp(r.before, t.hub.sessions[j].fd));
  }

  lemma {:induction false} SessionRun(r: Run, j: nat)
    requires Legal(r) && OwnOrder(r) && j < |State(r).hub.sessions| && State(r).hub.sessions[j].active
    ensures SessionOk(State(r).hub.sessions[j], State(r).hist, LastStamp(r, State(r).hub.sessions[j].fd))
  {
    if r.More? {
      var t, e := State(r.before), r.event;
      RunInv(r.before);
      if e.Frame? {
        RelayIds(t.hub, e.fd, e.net, e.frame, e.payload, e.now);
        SessionRun(r.before, j);
        FrameSessionRun(r, j);
      } else if t.hub.sessions[j].active {
        SessionRun(r.before, j);
        QuietSession(t, e, j, LastStamp(r.before, t.hub.sessions[j].fd));
      }
    }
  }

  /** In any clock second a session with a flood limit is admitted at most that many floods, in whatever
      order the frames of different sessions take the lock. */
  lemma SessionFloodLimit(r: Run, j: nat, t: int)
    requires Legal(r) && OwnOrder(r) && t > 0 && j < |State(r).hub.sessions| && State(r).hub.sessions[j].active
    requires State(r).hub.sessions[j].sessLimit > 0
    ensures SessionFloods(State(r).hist, State(r).hub.sessions[j].fd, t) <= State(r).hub.sessions[j].sessLimit
  {
    SessionRun(r, j);
  }

  /** A flood the limiter refuses spends nothing of the session's budget. */
  lemma RefusedFloodIsFree(r: Run, e: Event, j: nat)
    requires Legal(More(r, e)) && e.Frame? && |e.frame| >= MIN_FRAME
    requires Admit(State(r).hub, e.fd, e.net, e.frame, e.now).verdict == RateLimited
    requires j < |State(r).hub.sessions| && State(r).hub.sessions[j].active
    ensures var s, s' := State(r).hub.sessions[j], State(More(r, e)).hub.sessions[j];
            FloodsIn(s', e.now) == FloodsIn(s, e.now)
  {
    RelayFloods(State(r).hub, e.fd, e.net, e.frame, e.payload, e.now);
  }

  // ---- Network counters, in any order of stamps ------------------------------------------------------

  /** Second and length of the last block of a network's limited floods, a block being floods in a row
      in one second. */
  function LastBlock(h: History, net: int): (int, nat)
    decreases h, 0
  {
    match h
    case Begin => (0, 0)
    case Then(p, Flooded(_, n, t, l)) =>
      if n == net && l > 0 then (t, BlockIn(p, net, t) + 1) else LastBlock(p, net)
    case Then(p, _) => LastBlock(p, net)
  }

  /** How many of the last block are in second t. */
  function BlockIn(h: History, net: int, t: int): nat
    decreases h, 1
  {
    if LastBlock(h, net).0 == t then LastBlock(h, net).1 else 0
  }

  /** The limiter's counters change only by the network gate, which a session without budget does not reach. */
  lemma ChargedGate(s: Session, rates: seq<Rate>, now: int)
    ensures var (_, rates', ok) := AdmitFlood(s, rates, now);
            (rates', ok) == NetworkGate(rates, s.net, s.netLimit, now) || (rates' == rates && !ok)
  {
  }

  // ---- Which networks have a counter -----------------------------------------------------------------

  /** The networks for whose limited sessions a flood was ever admitted. */
  function LimitedNets(h: History): set<int> {
    match h
    case Begin => {}
    case Then(p, Flooded(_, n, _, l)) => LimitedNets(p) + if l > 0 then {n} else {}
    case Then(p, _) => LimitedNets(p)
  }

  lemma {:induction false} NoBlock(h: History, net: int, t: int)
    requires net !in LimitedNets(h)
    ensures LastBlock(h, net) == (0, 0) && NetworkFloods(h, net, t) == 0
  {
    if h.Then? {
      NoBlock(h.past, net, t);
    }
  }

  /** Exactly those networks have a counter, one each, which holds the last block; a free counter was never used. */
  ghost predicate Claimed(rates: seq<Rate>, h: History) {
    && (forall i | 0 <= i < |rates| :: rates[i].active ==> (rates[i].window, rates[i].count) == LastBlock(h, rates[i].net))
    && (forall i | 0 <= i < |rates| :: rates[i].active ==> rates[i].net in LimitedNets(h))
    && (forall n | n in LimitedNets(h) :: First(rates, RateKey(n)) >= 0)
    && (forall i | 0 <= i < |rates| && !rates[i].active :: rates[i] == NO_RATE)
    && (forall i, j | 0 <= i < j < |rates| && rates[i].active && rates[j].active :: rates[i].net != rates[j].net)
  }

  /** The window the gate opens counts the last block, if that is in the current second. */
  lemma OpenCounts(rates: seq<Rate>, h: History, net: int, now: int)
    requires Claimed(rates, h) && now > 0 && RateSlot(rates, net) >= 0
    ensures OpenRate(rates[RateSlot(rates, net)], net, now) == Rate(true, net, now, BlockIn(h, net, now))
    ensures BlockIn(h, net, now) > 0 ==> OpenRate(rates[RateSlot(rates, net)], net, now) == rates[RateSlot(rates, net)]
  {
    if First(rates, RateKey(net)) < 0 {
      NoBlock(h, net, now);
    }
  }

  /** The gate lets a flood in if and only if it finds a counter and the last block leaves room. */
  lemma GateMeans(rates: seq<Rate>, h: History, net: int, limit: int, now: int)
    requires Claimed(rates, h) && now > 0
    ensures NetworkGate(rates, net, limit, now).1 <==>
              limit <= 0 || (RateSlot(rates, net) >= 0 && BlockIn(h, net, now) < limit)
  {
    if RateSlot(rates, net) >= 0 {
      OpenCounts(rates, h, net, now);
    }
  }

  lemma GateClaims(rates: seq<Rate>, h: History, s: Session, now: int)
    requires Claimed(rates, h) && now > 0
    ensures var (rates', ok) := NetworkGate(rates, s.net, s.netLimit, now); Claimed(rates', FloodRecorded(h, s, now, ok))
  {
    var k := RateSlot(rates, s.net);
    if s.netLimit <= 0 {
      FreeFloodClaims(rates, h, s, now);
    } else if k >= 0 {
      GateOutcome(rates, h, s.net, s.netLimit, now);
      var n := BlockIn(h, s.net, now);
      if n < s.netLimit {
        PutClaim(rates, k, Rate(true, s.net, now, n + 1), h, s, now);
      }
    }
  }

  lemma GateOutcome(rates: seq<Rate>, h: History, net: int, limit: int, now: int)
    requires Claimed(rates, h) && now > 0 && limit > 0 && RateSlot(rates, net) >= 0
    ensures var n := BlockIn(h, net, now);
            NetworkGate(rates, net, limit, now)
            == if n < limit then (rates[RateSlot(rates, net) := Rate(true, net, now, n + 1)], true) else (rates, false)
  {
    var k := RateSlot(rates, net);
    OpenCounts(rates, h, net, now);
    assert rates[k := rates[k]] == rates;
  }

  lemma FreeFloodClaims(rates: seq<Rate>, h: History, s: Session, now: int)
    requires Claimed(rates, h) && s.netLimit <= 0
    ensures Claimed(rates, FloodRecorded(h, s, now, true))
  {
    assert LimitedNets(FloodRecorded(h, s, now, true)) == LimitedNets(h);
  }

  lemma PutClaim(rates: seq<Rate>, k: nat, r: Rate, h: History, s: Session, now: int)
    requires Claimed(rates, h) && k == RateSlot(rates, s.net) && s.netLimit > 0
    requires r == Rate(true, s.net, now, BlockIn(h, s.net, now) + 1)
    ensures Claimed(rates[k := r], FloodRecorded(h, s, now, true))
  {
    var h' := FloodRecorded(h, s, now, true);
    assert LimitedNets(h') == LimitedNets(h) + {s.net} && LastBlock(h', s.net) == (r.window, r.count);
    forall i | 0 <= i < |rates| && i != k && rates[i].active
      ensures rates[i].net != s.net && LastBlock(h', rates[i].net) == LastBlock(h, rates[i].net)
    {
      assert RateKey(rates[i].net)(rates[i]);
    }
    PutFound(rates, k, r, LimitedNets(h));
  }

  lemma PutFound(rates: seq<Rate>, k: nat, r: Rate, nets: set<int>)
    requires k < |rates| && r.active && (!rates[k].active || rates[k].net == r.net)
    requires forall n | n in nets :: First(rates, RateKey(n)) >= 0
    ensures forall n | n in nets + {r.net} :: First(rates[k := r], RateKey(n)) >= 0
  {
    forall n | n in nets + {r.net} ensures First(rates[k := r], RateKey(n)) >= 0 {
      var i := if n == r.net then k else First(rates, RateKey(n));
      assert RateKey(n)(rates[k := r][i]);
    }
  }

  lemma FrameClaims(t: Tap, t': Tap, e: Event, i: int, heard: History, tried: bool)
    requires FloodStep(t, t', e, i, heard, tried) && e.now > 0 && Claimed(t.hub.rates, t.hist)
    ensures Claimed(t'.hub.rates, t'.hist)
  {
    assert LimitedNets(heard) == LimitedNets(t.hist) && forall n :: LastBlock(heard, n) == LastBlock(t.hist, n);
    if tried {
      GateClaims(t.hub.rates, heard, t.hub.sessions[i], e.now);
      ChargedGate(t.hub.sessions[i], t.hub.rates, e.now);
    }
  }

  lemma {:induction false} ClaimRun(r: Run)
    requires Legal(r)
    ensures Claimed(State(r).hub.rates, State(r).hist)
  {
    if r.More? {
      RunInv(r.before);
      ClaimRun(r.before);
      ClaimStep(State(r.before), State(r), r.event);
    }
  }

  lemma ClaimStep(t: Tap, t': Tap, e: Event)
    requires TapInv(t) && Enabled(t, e) && t' == Step(t, e) && Claimed(t.hub.rates, t.hist)
    ensures Claimed(t'.hub.rates, t'.hist)
  {
    if e.Frame? {
      var i, heard, tried := FloodStepIs(t, e);
      FrameClaims(t, t', e, i, heard, tried);
    }
  }

  /** A network finds a counter if and only if it has one already or fewer networks than counters do. */
  lemma CounterLeft(rates: seq<Rate>, h: History, net: int)
    requires Claimed(rates, h)
    ensures RateSlot(rates, net) >= 0 <==> net in LimitedNets(h) || |LimitedNets(h)| < |rates|
  {
    if First(rates, RateKey(net)) < 0 {
      var f := First(rates, FreeRate());
      if f < 0 {
        AllTaken(rates, h);
      } else {
        OneFree(rates, h, f);
      }
    }
  }

  lemma AllTaken(rates: seq<Rate>, h: History)
    requires Claimed(rates, h) && First(rates, FreeRate()) < 0
    ensures |LimitedNets(h)| >= |rates|
  {
    var nets := seq(|rates|, i requires 0 <= i < |rates| => rates[i].net);
    forall i | 0 <= i < |rates| ensures rates[i].active {
      assert !FreeRate()(rates[i]);
    }
    DistinctSize(nets, LimitedNets(h));
  }

  lemma OneFree(rates: seq<Rate>, h: History, f: nat)
    requires Claimed(rates, h) && f < |rates| && !rates[f].active
    ensures |LimitedNets(h)| < |rates|
  {
    var nets := seq(|rates|, i requires 0 <= i < |rates| => rates[i].net);
    forall n | n in LimitedNets(h) ensures exists i | 0 <= i < |nets| :: i != f && nets[i] == n {
      var i := First(rates, RateKey(n));
      assert i != f && nets[i] == n;
    }
    ListedElsewhere(nets, f, LimitedNets(h));
  }

  /** The limiter against the history, in any order of the sessions' stamps: a flood is admitted if and only if
      the session has been admitted fewer floods this second than its limit and, if its network is limited,
      the network's last block leaves room, and the network is one of the first 128 limited ones to flood. */
  lemma LimiterFollowsHistory(r: Run, j: nat, now: int)
    requires Legal(r) && OwnOrder(r) && j < |State(r).hub.sessions| && State(r).hub.sessions[j].active
    requires now > 0 && LastStamp(r, State(r).hub.sessions[j].fd) <= now
    ensures var t := State(r); var s := t.hub.sessions[j]; var nets := LimitedNets(t.hist);
            AdmitFlood(s, t.hub.rates, now).2 <==>
              && (s.sessLimit > 0 ==> SessionFloods(t.hist, s.fd, now) < s.sessLimit)
              && (s.netLimit > 0 ==> (s.net in nets || |nets| < MAX_RATES) && BlockIn(t.hist, s.net, now) < s.netLimit)
  {
    var t := State(r);
    var s := t.hub.sessions[j];
    RunInv(r);
    SessionRun(r, j);
    ClaimRun(r);
    CounterLeft(t.hub.rates, t.hist, s.net);
    GateMeans(t.hub.rates, t.hist, s.net, s.netLimit, now);
    assert s.sessLimit > 0 ==> SessionFloods(t.hist, s.fd, now) == FloodsIn(s, now);
  }

  // ---- When the counters are right -------------------------------------------------------------------

  /** Each second's limited floods of a network come in one block. */
  predicate Grouped(h: History, net: int) {
    match h
    case Begin => true
    case Then(p, Flooded(_, n, t, l)) =>
      Grouped(p, net) && (n == net && l > 0 && LastBlock(p, net).0 != t ==> NetworkFloods(p, net, t) == 0)
    case Then(p, _) => Grouped(p, net)
  }

  /** The last block is all of its second. */
  predicate BlockIsAll(h: History, net: int) {
    LastBlock(h, net).1 == NetworkFloods(h, net, LastBlock(h, net).0)
  }

  lemma RecordGrouped(h: History, x: Record, net: int)
    requires BlockIsAll(h, net)
    ensures Grouped(Then(h, x), net) <==> Grouped(h, net) && BlockIsAll(Then(h, x), net)
  {
    var h' := Then(h, x);
    if x.Flooded? && x.net == net && x.netLimit > 0 {
      assert LastBlock(h', net) == (x.time, BlockIn(h, net, x.time) + 1);
      assert NetworkFloods(h', net, x.time) == NetworkFloods(h, net, x.time) + 1;
    } else {
      assert LastBlock(h', net) == LastBlock(h, net);
      assert NetworkFloods(h', net, LastBlock(h, net).0) == NetworkFloods(h, net, LastBlock(h, net).0);
    }
  }

  lemma {:induction false} GroupedIsAll(h: History, net: int)
    requires Grouped(h, net)
    ensures BlockIsAll(h, net)
  {
    if h.Then? {
      GroupedIsAll(h.past, net);
      RecordGrouped(h.past, h.last, net);
    }
  }

  /** At every moment of a run the network's counter, if it has one, is its number of limited floods in the
      counter's second. */
  ghost predicate AlwaysExact(r: Run, net: int) {
    && (forall i | 0 <= i < |State(r).hub.rates| && RateKey(net)(State(r).hub.rates[i]) ::
          State(r).hub.rates[i].count == NetworkFloods(State(r).hist, net, State(r).hub.rates[i].window))
    && (r.More? ==> AlwaysExact(r.before, net))
  }

  lemma ExactNow(rates: seq<Rate>, h: History, net: int)
    requires Claimed(rates, h)
    ensures (forall i | 0 <= i < |rates| && RateKey(net)(rates[i]) :: rates[i].count == NetworkFloods(h, net, rates[i].window))
            <==> BlockIsAll(h, net)
  {
    var k := First(rates, RateKey(net));
    if k < 0 {
      NoBlock(h, net, 0);
    } else {
      assert RateKey(net)(rates[k]);
    }
  }

  /** One frame adds to the grouped floods exactly if the last block stays all of its second. */
  lemma FrameGrouped(t: Tap, t': Tap, e: Event, i: int, heard: History, tried: bool, net: int)
    requires FloodStep(t, t', e, i, heard, tried) && BlockIsAll(t.hist, net)
    ensures Grouped(t'.hist, net) <==> Grouped(t.hist, net) && BlockIsAll(t'.hist, net)
  {
    if heard != t.hist {
      RecordGrouped(t.hist, heard.last, net);
    }
    if t'.hist != heard {
      RecordGrouped(heard, t'.hist.last, net);
    }
  }

  lemma StepGrouped(r: Run, net: int)
    requires Legal(r) && r.More? && BlockIsAll(State(r.before).hist, net)
    ensures Grouped(State(r).hist, net) <==> Grouped(State(r.before).hist, net) && BlockIsAll(State(r).hist, net)
  {
    var t := State(r.before);
    if r.event.Frame? {
      var i, heard, tried := FloodStepIs(t, r.event);
      FrameGrouped(t, State(r), r.event, i, heard, tried, net);
    } else if State(r).hist != t.hist {
      RecordGrouped(t.hist, State(r).hist.last, net);
    }
  }

  /** In any order of stamps: a network's counter is right at every moment of a run if and only if each
      second's limited floods of that network come in one block. */
  lemma {:induction false} NetworkCounterExact(r: Run, net: int)
    requires Legal(r)
    ensures AlwaysExact(r, net) <==> Grouped(State(r).hist, net)
  {
    ClaimRun(r);
    ExactNow(State(r).hub.rates, State(r).hist, net);
    if Grouped(State(r).hist, net) {
      GroupedIsAll(State(r).hist, net);
    }
    if r.More? {
      NetworkCounterExact(r.before, net);
      ClaimRun(r.before);
      ExactNow(State(r.before).hub.rates, State(r.before).hist, net);
      if Grouped(State(r).hist, net) {
        StepKeepsGroups(r, net);
      }
      if BlockIsAll(State(r.before).hist, net) {
        StepGrouped(r, net);
      }
    }
  }

  /** What is not grouped stays so. */
  lemma StepKeepsGroups(r: Run, net: int)
    requires Legal(r) && r.More? && Grouped(State(r).hist, net)
    ensures Grouped(State(r.before).hist, net)
  {
    if r.event.Frame? {
      var i, heard, tried := FloodStepIs(State(r.before), r.event);
    }
  }

  // ---- The network limit -----------------------------------------------------------------------------

  /** Every block of limited floods was within the limit of each session in it. */
  predicate WithinBlocks(h: History) {
    match h
    case Begin => true
    case Then(p, Flooded(_, net, _, limit)) => WithinBlocks(p) && (limit > 0 ==> LastBlock(h, net).1 <= limit)
    case Then(p, _) => WithinBlocks(p)
  }

  lemma FrameBlocks(t: Tap, t': Tap, e: Event, i: int, heard: History, tried: bool)
    requires FloodStep(t, t', e, i, heard, tried) && e.now > 0 && Claimed(t.hub.rates, t.hist) && WithinBlocks(t.hist)
    ensures WithinBlocks(t'.hist)
  {
    if tried {
      var s := t.hub.sessions[i];
      assert LastBlock(heard, s.net) == LastBlock(t.hist, s.net);
      GateMeans(t.hub.rates, t.hist, s.net, s.netLimit, e.now);
      ChargedGate(s, t.hub.rates, e.now);
    }
  }

  lemma {:induction false} BlocksRun(r: Run)
    requires Legal(r)
    ensures WithinBlocks(State(r).hist)
  {
    if r.More? {
      BlocksRun(r.before);
      ClaimRun(r.before);
      if r.event.Frame? {
        var i, heard, tried := FloodStepIs(State(r.before), r.event);
        FrameBlocks(State(r.before), State(r), r.event, i, heard, tried);
      }
    }
  }

  /** The limited sessions of a network share one limit. */
  predicate SharedLimit(h: History, net: int, limit: int) {
    match h
    case Begin => true
    case Then(p, Flooded(_, n, _, l)) => SharedLimit(p, net, limit) && (n == net && l > 0 ==> l == limit)
    case Then(p, _) => SharedLimit(p, net, limit)
  }

  lemma {:induction false} GroupedLimit(h: History, net: int, limit: nat, t: int)
    requires WithinBlocks(h) && SharedLimit(h, net, limit) && Grouped(h, net)
    ensures NetworkFloods(h, net, t) <= limit
  {
    if h.Then? {
      GroupedLimit(h.past, net, limit, t);
      GroupedIsAll(h, net);
    }
  }

  /** In whatever order frames take the lock: if each second's limited floods of a network come in one block,
      sessions of it that share a nonzero limit are together admitted at most that many in any second. */
  lemma NetworkFloodLimit(r: Run, net: int, limit: nat, t: int)
    requires Legal(r) && Grouped(State(r).hist, net) && SharedLimit(State(r).hist, net, limit)
    ensures NetworkFloods(State(r).hist, net, t) <= limit
  {
    BlocksRun(r);
    GroupedLimit(State(r).hist, net, limit, t);
  }

  /** A limit of one flood a second is kept in every second exactly if they do. */
  lemma NetworkLimitOfOne(r: Run, net: int)
    requires Legal(r) && SharedLimit(State(r).hist, net, 1)
    ensures (forall t :: NetworkFloods(State(r).hist, net, t) <= 1) <==> Grouped(State(r).hist, net)
  {
    if Grouped(State(r).hist, net) {
      forall t ensures NetworkFloods(State(r).hist, net, t) <= 1 {
        NetworkFloodLimit(r, net, 1, t);
      }
    } else {
      var t := SplitSecond(State(r).hist, net);
    }
  }

  /** Floods that are not grouped are split over two blocks in some second. */
  lemma {:induction false} SplitSecond(h: History, net: int) returns (t: int)
    requires !Grouped(h, net)
    ensures NetworkFloods(h, net, t) >= 2
  {
    if Grouped(h.past, net) {
      t := h.last.time;
    } else {
      t := SplitSecond(h.past, net);
    }
  }

  // ---- Stamps in order -------------------------------------------------------------------------------

  /** A network's limited floods come in the order of their stamps. */
  predicate Sorted(h: History, net: int) {
    match h
    case Begin => true
    case Then(p, Flooded(_, n, t, l)) => Sorted(p, net) && (n == net && l > 0 ==> LastBlock(p, net).0 <= t)
    case Then(p, _) => Sorted(p, net)
  }

  lemma {:induction false} SortedIsGrouped(h: History, net: int)
    requires Sorted(h, net)
    ensures Grouped(h, net) && forall t | t > LastBlock(h, net).0 :: NetworkFloods(h, net, t) == 0
  {
    if h.Then? {
      SortedIsGrouped(h.past, net);
    }
  }

  lemma {:induction false} OrderedIsSorted(r: Run, net: int)
    requires Legal(r) && Ordered(r)
    ensures Sorted(State(r).hist, net) && LastBlock(State(r).hist, net).0 <= State(r).clock
  {
    if r.More? {
      OrderedIsSorted(r.before, net);
      if r.event.Frame? {
        var i, heard, tried := FloodStepIs(State(r.before), r.event);
      }
    }
  }

  /** With stamps in order the limiter goes by all the floods of the current second. */
  lemma LimiterInOrder(r: Run, j: nat, now: int)
    requires Legal(r) && Ordered(r) && j < |State(r).hub.sessions| && State(r).hub.sessions[j].active
    requires now > 0 && State(r).clock <= now
    ensures var t := State(r); var s := t.hub.sessions[j]; var nets := LimitedNets(t.hist);
            AdmitFlood(s, t.hub.rates, now).2 <==>
              && (s.sessLimit > 0 ==> SessionFloods(t.hist, s.fd, now) < s.sessLimit)
              && (s.netLimit > 0 ==> (s.net in nets || |nets| < MAX_RATES) && NetworkFloods(t.hist, s.net, now) < s.netLimit)
  {
    var t := State(r);
    var s := t.hub.sessions[j];
    OrderedIsOwn(r);
    StampsBelowClock(r, s.fd);
    LimiterFollowsHistory(r, j, now);
    OrderedIsSorted(r, s.net);
    SortedIsGrouped(t.hist, s.net);
    GroupedIsAll(t.hist, s.net);
  }

  // ---- Counters that run out -------------------------------------------------------------------------

  /** Run r continues r0. */
  predicate Continues(r: Run, r0: Run) {
    r == r0 || (r.More? && Continues(r.before, r0))
  }

  /** Counters are never given back: a limited network that finds all 128 taken never gets a flood in. */
  lemma {:induction false} ShutOutForever(r: Run, r0: Run, net: int)
    requires Legal(r) && Legal(r0) && Continues(r, r0)
    requires net !in LimitedNets(State(r0).hist) && |LimitedNets(State(r0).hist)| >= MAX_RATES
    ensures net !in LimitedNets(State(r).hist) && |LimitedNets(State(r).hist)| >= MAX_RATES
  {
    if r != r0 {
      ShutOutForever(r.before, r0, net);
      RunInv(r.before);
      ClaimRun(r.before);
      if r.event.Frame? {
        var i, heard, tried := FloodStepIs(State(r.before), r.event);
        NothingNew(State(r.before), State(r), r.event, i, heard, tried);
      }
    }
  }

  /** With every counter taken a frame adds no network. */
  lemma NothingNew(t: Tap, t': Tap, e: Event, i: int, heard: History, tried: bool)
    requires FloodStep(t, t', e, i, heard, tried) && Claimed(t.hub.rates, t.hist) && |LimitedNets(t.hist)| >= |t.hub.rates|
    ensures LimitedNets(t'.hist) == LimitedNets(t.hist)
  {
    assert LimitedNets(heard) == LimitedNets(t.hist);
    if tried {
      var s := t.hub.sessions[i];
      if AdmitFlood(s, t.hub.rates, e.now).2 && s.netLimit > 0 {
        AdmittedHasCounter(s, t.hub.rates, e.now);
        CounterLeft(t.hub.rates, t.hist, s.net);
        assert LimitedNets(t.hist) + {s.net} == LimitedNets(t.hist);
      }
    }
  }

  lemma AdmittedHasCounter(s: Session, rates: seq<Rate>, now: int)
    requires AdmitFlood(s, rates, now).2 && s.netLimit > 0
    ensures RateSlot(rates, s.net) >= 0
  {
  }
}
