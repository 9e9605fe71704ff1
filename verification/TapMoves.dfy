/** The damping of address moves over whole runs, in any order of stamps. */
module TapMoves {
  import opened Bytes
  import opened Scan
  import opened Proto
  import opened TapHub
  import opened TapRuns
  import opened TapMacs

  /** The frame gets as far as having its source learnt. */
  predicate Learns(t: Tap, e: Event) {
    && e.Frame? && |e.frame| >= MIN_FRAME
    && var i := First(t.hub.sessions, SessionKey(e.fd, e.net));
       i >= 0 && !(IsL2Control(Dst(e.frame)) && !t.hub.sessions[i].l2Control)
  }

  /** A step that only drops entries and says nothing of addresses heard. */
  ghost predicate QuietStep(t: Tap, t': Tap) {
    Dropped(t.hub.macs, t'.hub.macs) && forall n, m :: MoveTimes(t'.hist, n, m) == MoveTimes(t.hist, n, m)
  }

  lemma StepKinds(t: Tap, e: Event)
    requires Enabled(t, e)
    ensures if Learns(t, e)
            then LearnStep(t, Step(t, e).hub.macs, Step(t, e).hist, e, First(t.hub.sessions, SessionKey(e.fd, e.net)))
            else QuietStep(t, Step(t, e))
  {
    if e.Frame? {
      RelayFloods(t.hub, e.fd, e.net, e.frame, e.payload, e.now);
      if Learns(t, e) {
        LearnStepIs(t, e);
      }
    }
  }

  /** The table after a step that learns: the aged table with the source learnt. */
  lemma LearnedTable(t: Tap, macs': seq<MacEntry>, hist': History, e: Event, i: int)
    requires TapInv(t) && LearnStep(t, macs', hist', e, i) && Enabled(t, e)
    ensures UniqueMacs(Age(t.hub.macs, t.hub.sessions, e.now))
    ensures macs' == Learn(Age(t.hub.macs, t.hub.sessions, e.now), t.hub.sessions[i], Src(e.frame), e.now).0
  {
    var ss, clock := t.hub.sessions, Latest(t.clock, e.now);
    var aged := Age(t.hub.macs, ss, e.now);
    DroppedInv(t.hub.macs, aged, ss, t.hist, t.clock, clock);
    LearnTable(aged, ss, i, Src(e.frame), t.hist, e.now, clock);
    LookupKeeps(Learn(aged, ss[i], Src(e.frame), e.now).0, ss, e.net, Dst(e.frame), clock);
  }

  // ---- The distance between moves --------------------------------------------------------------------

  /** From the second move on, moves that do not go back in time are more than ten seconds apart. */
  predicate Paced(times: seq<int>) {
    forall k | 1 <= k < |times| - 1 :: times[k] <= times[k + 1] ==> times[k + 1] - times[k] > MOVE_WINDOW_SEC
  }

  /** An entry's window against the times it moved. */
  predicate PacedEntry(e: MacEntry, times: seq<int>) {
    && 0 < e.moveWindow < U64_MOD && 0 <= e.moveCount
    && (|times| >= 1 ==> e.moveCount >= 1)
    && (|times| >= 2 ==> times[|times| - 1] == e.moveWindow)
  }

  ghost predicate AllPaced(macs: seq<MacEntry>, h: History) {
    && (forall net, mac :: Paced(MoveTimes(h, net, mac)))
    && (forall i | 0 <= i < |macs| && macs[i].active :: PacedEntry(macs[i], MoveTimes(h, macs[i].net, macs[i].mac)))
  }

  lemma EntryPaced(e: MacEntry, times: seq<int>, s: Session, now: int)
    requires PacedEntry(e, times) && Paced(times) && 0 < now < U64_MOD
    ensures var (e', k) := LearnEntry(e, s, now);
            var times' := if k == Moved then times + [now] else times;
            PacedEntry(e', times') && Paced(times')
  {
  }

  lemma PutPaced(macs: seq<MacEntry>, i: nat, e: MacEntry, h: History, h': History)
    requires i < |macs| && AllPaced(macs, h)
    requires PacedEntry(e, MoveTimes(h', e.net, e.mac)) && Paced(MoveTimes(h', e.net, e.mac))
    requires forall a | 0 <= a < |macs| && a != i && macs[a].active :: macs[a].net != e.net || macs[a].mac != e.mac
    requires forall n, m | n != e.net || m != e.mac :: MoveTimes(h', n, m) == MoveTimes(h, n, m)
    ensures AllPaced(macs[i := e], h')
  {
    forall n, m ensures Paced(MoveTimes(h', n, m)) {
      if n != e.net || m != e.mac {
        assert Paced(MoveTimes(h, n, m));
      }
    }
  }

  /** Entries dropped and lines added that are not about addresses change nothing here. */
  lemma QuietPaced(macs: seq<MacEntry>, macs': seq<MacEntry>, h: History, h': History)
    requires AllPaced(macs, h) && Dropped(macs, macs')
    requires forall n, m :: MoveTimes(h', n, m) == MoveTimes(h, n, m)
    ensures AllPaced(macs', h')
  {
    forall n, m ensures Paced(MoveTimes(h', n, m)) {
      assert Paced(MoveTimes(h, n, m));
    }
  }

  /** What hearing an address adds to the times it moved. */
  lemma HeardTimes(h: History, s: Session, mac: Mac, now: int, k: Learnt)
    ensures var h' := HistoryOf(h, s, mac, now, k);
            && (forall n, m | n != s.net || m != mac :: MoveTimes(h', n, m) == MoveTimes(h, n, m))
            && MoveTimes(h', s.net, mac)
               == if k == Created then [] else if k == Moved then MoveTimes(h, s.net, mac) + [now] else MoveTimes(h, s.net, mac)
  {
  }

  lemma LearnPaced(macs: seq<MacEntry>, s: Session, mac: Mac, h: History, now: int)
    requires UniqueMacs(macs) && AllPaced(macs, h) && 0 < now < U64_MOD
    ensures var (macs', k) := Learn(macs, s, mac, now); AllPaced(macs', HistoryOf(h, s, mac, now, k))
  {
    var i, e := LearnShape(macs, s, mac, now);
    var k := Learn(macs, s, mac, now).1;
    var h' := HistoryOf(h, s, mac, now, k);
    HeardTimes(h, s, mac, now, k);
    assert Paced(MoveTimes(h, s.net, mac));
    if k in {Ignored, NotStored} {
      QuietPaced(macs, macs, h, h');
    } else {
      if k != Created {
        EntryPaced(macs[i], MoveTimes(h, s.net, mac), s, now);
      }
      PutPaced(macs, i, e, h, h');
    }
  }

  lemma LearnStepPaced(t: Tap, macs': seq<MacEntry>, hist': History, e: Event, i: int)
    requires TapInv(t) && LearnStep(t, macs', hist', e, i) && Enabled(t, e) && AllPaced(t.hub.macs, t.hist)
    ensures AllPaced(macs', hist')
  {
    var s, now, mac := t.hub.sessions[i], e.now, Src(e.frame);
    var aged := Age(t.hub.macs, t.hub.sessions, now);
    LearnedTable(t, macs', hist', e, i);
    QuietPaced(t.hub.macs, aged, t.hist, t.hist);
    LearnPaced(aged, s, mac, t.hist, now);
    QuietPaced(macs', macs', HistoryOf(t.hist, s, mac, now, Learn(aged, s, mac, now).1), hist');
  }

  lemma {:induction false} PacedRun(r: Run)
    requires Legal(r)
    ensures AllPaced(State(r).hub.macs, State(r).hist)
  {
    if r.More? {
      var t, t', e := State(r.before), State(r), r.event;
      RunInv(r.before);
      PacedRun(r.before);
      StepKinds(t, e);
      if Learns(t, e) {
        LearnStepPaced(t, t'.hub.macs, t'.hist, e, First(t.hub.sessions, SessionKey(e.fd, e.net)));
      } else {
        QuietPaced(t.hub.macs, t'.hub.macs, t.hist, t'.hist);
      }
    }
  }

  /** Move damping over whole runs, in any order of stamps: from the second accepted move of an entry's life
      on, a move comes more than ten seconds after the one before it if and only if its stamp is not an
      earlier one. */
  lemma MoveDamping(r: Run, net: int, mac: Mac, k: nat)
    requires Legal(r)
    ensures var times := MoveTimes(State(r).hist, net, mac);
            1 <= k < |times| - 1 ==> (times[k + 1] - times[k] > MOVE_WINDOW_SEC <==> times[k] <= times[k + 1])
  {
    PacedRun(r);
    assert Paced(MoveTimes(State(r).hist, net, mac));
  }

  // ---- The number of counted moves -------------------------------------------------------------------

  /** A freeze that was not lifted ends 60 to 70 seconds after the start of the window. */
  predicate FreezeOk(e: MacEntry) {
    && 0 < e.moveWindow < U64_MOD - FREEZE_SEC && 0 <= e.moveCount
    && (e.moveCount >= FREEZE_THRESHOLD ==>
          e.frozenUntil == 0 || FREEZE_SEC <= e.frozenUntil - e.moveWindow <= FREEZE_SEC + MOVE_WINDOW_SEC)
  }

  ghost predicate FreezesOk(macs: seq<MacEntry>) {
    forall i | 0 <= i < |macs| && macs[i].active :: FreezeOk(macs[i])
  }

  /** No entry counts more than two moves. */
  ghost predicate CountsLow(macs: seq<MacEntry>) {
    forall i | 0 <= i < |macs| && macs[i].active :: macs[i].moveCount <= FREEZE_THRESHOLD
  }

  /** Another session's frame falls into the window of an entry whose freeze its owner has lifted. */
  predicate Rewinds(e: MacEntry, s: Session, now: int) {
    && e.fd != s.fd && e.moveCount >= FREEZE_THRESHOLD && e.frozenUntil == 0
    && e.moveWindow <= now <= e.moveWindow + MOVE_WINDOW_SEC
  }

  predicate RewindsAt(t: Tap, e: Event) {
    && Learns(t, e) && Learnable(Src(e.frame))
    && var s := t.hub.sessions[First(t.hub.sessions, SessionKey(e.fd, e.net))];
       var aged := Age(t.hub.macs, t.hub.sessions, e.now);
       var a := First(aged, MacKey(s.net, Src(e.frame)));
       a >= 0 && Rewinds(aged[a], s, e.now)
  }

  lemma EntryCounts(e: MacEntry, s: Session, now: int)
    requires FreezeOk(e) && 0 < now < U64_MOD - FREEZE_SEC
    ensures var e' := LearnEntry(e, s, now).0;
            FreezeOk(e') && (e.moveCount <= FREEZE_THRESHOLD ==> (e'.moveCount <= FREEZE_THRESHOLD <==> !Rewinds(e, s, now)))
  {
  }

  lemma LearnCounts(macs: seq<MacEntry>, s: Session, mac: Mac, now: int)
    requires FreezesOk(macs) && 0 < now < U64_MOD - FREEZE_SEC
    ensures FreezesOk(Learn(macs, s, mac, now).0)
    ensures var a := First(macs, MacKey(s.net, mac));
            CountsLow(macs) ==>
              (CountsLow(Learn(macs, s, mac, now).0) <==> !(Learnable(mac) && a >= 0 && Rewinds(macs[a], s, now)))
  {
    var a := First(macs, MacKey(s.net, mac));
    if Learnable(mac) && a >= 0 {
      var e := LearnEntry(macs[a], s, now).0;
      EntryCounts(macs[a], s, now);
      assert Learn(macs, s, mac, now).0 == macs[a := e] && e.active && macs[a := e][a] == e;
    }
  }

  lemma StepCounts(t: Tap, t': Tap, e: Event)
    requires TapInv(t) && Enabled(t, e) && FreezesOk(t.hub.macs)
    requires if Learns(t, e)
             then LearnStep(t, t'.hub.macs, t'.hist, e, First(t.hub.sessions, SessionKey(e.fd, e.net)))
             else QuietStep(t, t')
    ensures FreezesOk(t'.hub.macs)
    ensures CountsLow(t.hub.macs) ==> (CountsLow(t'.hub.macs) <==> !RewindsAt(t, e))
  {
    if Learns(t, e) {
      var i := First(t.hub.sessions, SessionKey(e.fd, e.net));
      LearnedTable(t, t'.hub.macs, t'.hist, e, i);
      LearnCounts(Age(t.hub.macs, t.hub.sessions, e.now), t.hub.sessions[i], Src(e.frame), e.now);
    }
  }

  lemma {:induction false} FreezesRun(r: Run)
    requires Legal(r)
    ensures FreezesOk(State(r).hub.macs)
  {
    if r.More? {
      RunInv(r.before);
      FreezesRun(r.before);
      StepKinds(State(r.before), r.event);
      StepCounts(State(r.before), State(r), r.event);
    }
  }

  /** At every moment of a run no entry counts more than two moves. */
  ghost predicate AlwaysLow(r: Run) {
    CountsLow(State(r).hub.macs) && (r.More? ==> AlwaysLow(r.before))
  }

  predicate NeverRewinds(r: Run) {
    r.More? ==> NeverRewinds(r.before) && !RewindsAt(State(r.before), r.event)
  }

  /** In any order of stamps: no entry ever counts more than two moves if and only if no frame ever falls back
      into the window of an address whose freeze its owner has lifted. */
  lemma {:induction false} MoveCountExact(r: Run)
    requires Legal(r)
    ensures AlwaysLow(r) <==> NeverRewinds(r)
  {
    if r.More? {
      MoveCountExact(r.before);
      RunInv(r.before);
      FreezesRun(r.before);
      StepKinds(State(r.before), r.event);
      StepCounts(State(r.before), State(r), r.event);
    }
  }

  // ---- Stamps in order ---------------------------------------------------------------------------------

  /** A freeze its owner has lifted is over, and so is its window; moves are not ahead of the clock. */
  ghost predicate InOrder(macs: seq<MacEntry>, h: History, clock: int) {
    && (forall i | 0 <= i < |macs| && macs[i].active && macs[i].moveCount >= FREEZE_THRESHOLD && macs[i].frozenUntil == 0 ::
          clock >= macs[i].moveWindow + FREEZE_SEC)
    && (forall net, mac :: Ascending(MoveTimes(h, net, mac), clock))
  }

  predicate Ascending(times: seq<int>, clock: int) {
    (forall k | 0 <= k < |times| - 1 :: times[k] <= times[k + 1]) && (|times| > 0 ==> times[|times| - 1] <= clock)
  }

  lemma QuietInOrder(macs: seq<MacEntry>, macs': seq<MacEntry>, h: History, h': History, clock: int, now: int)
    requires InOrder(macs, h, clock) && Dropped(macs, macs') && clock <= now
    requires forall n, m :: MoveTimes(h', n, m) == MoveTimes(h, n, m)
    ensures InOrder(macs', h', now)
  {
    forall n, m ensures Ascending(MoveTimes(h', n, m), now) {
      assert Ascending(MoveTimes(h, n, m), clock);
    }
  }

  lemma LearnInOrder(macs: seq<MacEntry>, s: Session, mac: Mac, h: History, now: int)
    requires InOrder(macs, h, now) && FreezesOk(macs) && 0 < now < U64_MOD - FREEZE_SEC
    ensures var (macs', k) := Learn(macs, s, mac, now); InOrder(macs', HistoryOf(h, s, mac, now, k), now)
  {
    var k := Learn(macs, s, mac, now).1;
    var h' := HistoryOf(h, s, mac, now, k);
    HeardTimes(h, s, mac, now, k);
    forall n, m ensures Ascending(MoveTimes(h', n, m), now) {
      assert Ascending(MoveTimes(h, n, m), now);
    }
    var i, e := LearnShape(macs, s, mac, now);
  }

  lemma StepInOrder(t: Tap, t': Tap, e: Event)
    requires TapInv(t) && Enabled(t, e) && FreezesOk(t.hub.macs) && InOrder(t.hub.macs, t.hist, t.clock)
    requires t'.clock == (if e.Frame? then e.now else t.clock) && t.clock <= t'.clock
    requires if Learns(t, e)
             then LearnStep(t, t'.hub.macs, t'.hist, e, First(t.hub.sessions, SessionKey(e.fd, e.net)))
             else QuietStep(t, t')
    ensures InOrder(t'.hub.macs, t'.hist, t'.clock)
  {
    if Learns(t, e) {
      var i := First(t.hub.sessions, SessionKey(e.fd, e.net));
      var s, mac := t.hub.sessions[i], Src(e.frame);
      var aged := Age(t.hub.macs, t.hub.sessions, e.now);
      LearnedTable(t, t'.hub.macs, t'.hist, e, i);
      QuietInOrder(t.hub.macs, aged, t.hist, t.hist, t.clock, e.now);
      LearnInOrder(aged, s, mac, t.hist, e.now);
      QuietInOrder(t'.hub.macs, t'.hub.macs, HistoryOf(t.hist, s, mac, e.now, Learn(aged, s, mac, e.now).1), t'.hist, e.now, e.now);
    } else {
      QuietInOrder(t.hub.macs, t'.hub.macs, t.hist, t'.hist, t.clock, t'.clock);
    }
  }

  lemma {:induction false} OrderedRun(r: Run)
    requires Legal(r) && Ordered(r)
    ensures InOrder(State(r).hub.macs, State(r).hist, State(r).clock)
  {
    if r.More? {
      OrderedRun(r.before);
      RunInv(r.before);
      FreezesRun(r.before);
      StepKinds(State(r.before), r.event);
      StepInOrder(State(r.before), State(r), r.event);
    }
  }

  lemma {:induction false} OrderedNeverRewinds(r: Run)
    requires Legal(r) && Ordered(r)
    ensures NeverRewinds(r)
  {
    if r.More? {
      OrderedNeverRewinds(r.before);
      OrderedRun(r.before);
    }
  }

  /** With stamps in order no entry counts more than two moves, and from the second one on moves are more than
      ten seconds apart. */
  lemma DampedInOrder(r: Run, net: int, mac: Mac, k: nat)
    requires Legal(r) && Ordered(r)
    ensures forall i | 0 <= i < |State(r).hub.macs| && State(r).hub.macs[i].active :: State(r).hub.macs[i].moveCount <= 2
    ensures var times := MoveTimes(State(r).hist, net, mac);
            1 <= k < |times| - 1 ==> times[k + 1] - times[k] > MOVE_WINDOW_SEC
  {
    OrderedNeverRewinds(r);
    MoveCountExact(r);
    OrderedRun(r);
    assert Ascending(MoveTimes(State(r).hist, net, mac), State(r).clock);
    MoveDamping(r, net, mac, k);
  }

  /** An entry whose first counted move was in second 11 freezes on another one stamped 11, but moves on one
      stamped 10, because the unsigned age of its window wraps. */
  lemma StaleStampUndoesDamping(e: MacEntry, s: Session)
    requires e.fd != s.fd && e.frozenUntil == 0 && e.moveWindow == 11 && e.moveCount == 1
    ensures LearnEntry(e, s, 11).1 == Frozen && LearnEntry(e, s, 10).1 == Moved
  {
  }
}
