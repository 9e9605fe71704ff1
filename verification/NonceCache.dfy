/** The replay cache of the management API: a bounded table of recently seen nonces, updated in place. */
module NonceCache {
  import opened Scan

  const TIME_SKEW_SEC := 20
  const CACHE_SIZE := 1024
  const NONCE_MAX := 127

  datatype Entry = Entry(active: bool, seenAt: int, nonce: string)

  const NO_ENTRY := Entry(false, 0, "")

  predicate Expired(e: Entry, now: int) {
    e.seenAt + TIME_SKEW_SEC < now
  }

  function Live(now: int): Entry -> bool {
    (e: Entry) => e.active && !Expired(e, now)
  }

  function NotLive(now: int): Entry -> bool {
    (e: Entry) => !e.active || Expired(e, now)
  }

  function Replay(nonce: string, now: int): Entry -> bool {
    (e: Entry) => e.active && !Expired(e, now) && e.nonce == nonce
  }

  function Expire(e: Entry, now: int): Entry {
    if e.active && Expired(e, now) then e.(active := false) else e
  }

  /** The first `n` entries with the expired ones dropped. */
  function Sweep(s: seq<Entry>, n: int, now: int): seq<Entry> {
    seq(|s|, i requires 0 <= i < |s| => if i < n then Expire(s[i], now) else s[i])
  }

  /** Time and slot of the oldest live entry, as the scan's running variables hold them. */
  function Oldest(s: seq<Entry>, now: int): (r: (int, nat))
    ensures s != [] ==> r.1 < |s|
  {
    if s == [] then (0, 0)
    else
      var (seen, slot) := Oldest(s[..|s| - 1], now);
      var e := s[|s| - 1];
      if Live(now)(e) && (seen == 0 || e.seenAt < seen) then (e.seenAt, |s| - 1)
      else (seen, if |s| == 1 then 0 else slot)
  }

  /** One step of the scan over slot i. */
  lemma ScanStep(s: seq<Entry>, i: nat, now: int)
    requires i < |s|
    ensures Sweep(s, i, now)[i] == s[i]
    ensures Sweep(s, i + 1, now) == Sweep(s, i, now)[i := Expire(s[i], now)]
    ensures var (seen, slot) := Oldest(s[..i], now);
            Oldest(s[..i + 1], now)
            == if Live(now)(s[i]) && (seen == 0 || s[i].seenAt < seen) then (s[i].seenAt, i) else (seen, if i == 0 then 0 else slot)
  {
    assert s[..i + 1][..i] == s[..i];
  }

  lemma ScanEnds(s: seq<Entry>, now: int)
    ensures Sweep(s, 0, now) == s && Oldest(s[..0], now) == (0, 0) && s[..|s|] == s
  {
  }

  function Stored(nonce: string): string {
    if |nonce| > NONCE_MAX then nonce[..NONCE_MAX] else nonce
  }

  function Slot(s: seq<Entry>, now: int): (r: nat)
    requires s != []
    ensures r < |s|
  {
    var free := First(s, NotLive(now));
    if free >= 0 then free else Oldest(s, now).1
  }

  function Accepts(s: seq<Entry>, nonce: string, now: int): bool {
    nonce != "" && First(s, Replay(nonce, now)) < 0
  }

  /** The table after one attempt to record a nonce. */
  function Record(s: seq<Entry>, nonce: string, now: int): (r: seq<Entry>)
    requires s != []
    ensures |r| == |s|
  {
    if nonce == "" then s
    else if Accepts(s, nonce, now) then Sweep(s, |s|, now)[Slot(s, now) := Entry(true, now, Stored(nonce))]
    else Sweep(s, First(s, Replay(nonce, now)), now)
  }

  class Cache {
    const entries: array<Entry>

    constructor ()
      ensures fresh(entries) && entries.Length == CACHE_SIZE && forall i | 0 <= i < CACHE_SIZE :: entries[i] == NO_ENTRY
    {
      entries := new Entry[CACHE_SIZE](_ => NO_ENTRY);
    }

    /** One pass over the table that drops expired entries, looks for a replay, and picks the slot
        to use: the first free one, or the oldest. */
    method RecordNonce(nonce: string, now: int) returns (ok: bool)
      requires entries.Length == CACHE_SIZE
      modifies entries
      ensures entries[..] == Record(old(entries[..]), nonce, now)
      ensures ok == Accepts(old(entries[..]), nonce, now)
    {
      if nonce == "" {
        return false;
      }
      ghost var before := entries[..];
      var slot, oldestSeen, oldestSlot := CACHE_SIZE, 0, 0;
      ScanEnds(before, now);
      var i := 0;
      while i < CACHE_SIZE
        invariant 0 <= i <= CACHE_SIZE
        invariant entries[..] == Sweep(before, i, now)
        invariant forall k | 0 <= k < i :: !Replay(nonce, now)(before[k])
        invariant slot == CACHE_SIZE || (0 <= slot < i && NotLive(now)(before[slot]))
        invariant forall k | 0 <= k < i && k < slot :: !NotLive(now)(before[k])
        invariant (oldestSeen, oldestSlot) == Oldest(before[..i], now)
      {
        ScanStep(before, i, now);
        var e := entries[i];
        if !e.active {
          if slot == CACHE_SIZE { slot := i; }
        } else if e.seenAt + TIME_SKEW_SEC < now {
          entries[i] := e.(active := false);
          if slot == CACHE_SIZE { slot := i; }
        } else {
          if e.nonce == nonce {
            FirstIs(before, Replay(nonce, now), i);
            return false;
          }
          if oldestSeen == 0 || e.seenAt < oldestSeen {
            oldestSeen, oldestSlot := e.seenAt, i;
          }
        }
        i := i + 1;
      }
      FirstIs(before, Replay(nonce, now), -1);
      FirstIs(before, NotLive(now), if slot == CACHE_SIZE then -1 else slot);
      if slot == CACHE_SIZE {
        slot := oldestSlot;
      }
      entries[slot] := Entry(true, now, if |nonce| > NONCE_MAX then nonce[..NONCE_MAX] else nonce);
      ok := true;
    }
  }

  // ---- Runs -------------------------------------------------------------------------------

  /** The table, the clock, the log of accepted nonces with their times, and for each slot the
      position in the log of the nonce it last took. */
  datatype State = State(s: seq<Entry>, clock: int, log: seq<(string, int)>, from: seq<nat>)

  datatype Run = Init | More(before: Run, nonce: string, now: int)

  function Step(t: State, nonce: string, now: int): State {
    if t.s == [] then t
    else if Accepts(t.s, nonce, now) && |t.from| == |t.s| then
      State(Record(t.s, nonce, now), now, t.log + [(nonce, now)], t.from[Slot(t.s, now) := |t.log|])
    else State(Record(t.s, nonce, now), now, t.log, t.from)
  }

  function StateOf(r: Run): State {
    match r
    case Init => State(seq(CACHE_SIZE, _ => NO_ENTRY), 1, [], seq(CACHE_SIZE, _ => 0))
    case More(before, nonce, now) => Step(StateOf(before), nonce, now)
  }

  /** Requests come at nondecreasing times, with nonces that fit the request's nonce field. */
  predicate Legal(r: Run) {
    r.More? ==> Legal(r.before) && StateOf(r.before).clock <= r.now && |r.nonce| <= NONCE_MAX
  }

  /** Positions of the log whose time lies in [from, to]. */
  function Within(log: seq<(string, int)>, from: int, to: int): set<int> {
    set k | 0 <= k < |log| && from <= log[k].1 <= to
  }

  predicate InSlot(t: State, k: nat, i: nat) {
    i < |t.s| && i < |t.from| && t.s[i].active && t.from[i] == k
  }

  predicate Held(t: State, k: nat) {
    exists i | 0 <= i < |t.s| :: InSlot(t, k, i)
  }

  /** Accepted nonce k is still in the table, or too old, or more than a table's worth of nonces
      was accepted since its second. */
  predicate Accounted(t: State, k: nat)
    requires k < |t.log|
  {
    || Held(t, k)
    || t.log[k].1 + TIME_SKEW_SEC < t.clock
    || |Within(t.log, t.log[k].1, t.clock)| > CACHE_SIZE
  }

  ghost predicate Inv(t: State) {
    && |t.s| == |t.from| == CACHE_SIZE && t.clock > 0
    && (forall k | 0 <= k < |t.log| :: 0 < t.log[k].1 <= t.clock)
    && (forall i | 0 <= i < CACHE_SIZE && t.s[i].active ::
          t.from[i] < |t.log| && t.log[t.from[i]] == (t.s[i].nonce, t.s[i].seenAt))
    && (forall i, j | 0 <= i < j < CACHE_SIZE && t.s[i].active && t.s[j].active :: t.from[i] != t.from[j])
    && (forall k | 0 <= k < |t.log| :: Accounted(t, k))
  }

  /** When every entry is live, the slot that is reused holds the least time. */
  lemma {:induction false} OldestIsMinimal(s: seq<Entry>, now: int, k: nat)
    requires k < |s| && forall i | 0 <= i < |s| :: Live(now)(s[i]) && s[i].seenAt > 0
    ensures var (seen, slot) := Oldest(s, now); seen == s[slot].seenAt <= s[k].seenAt
  {
    if |s| > 1 {
      OldestIsMinimal(s[..|s| - 1], now, if k < |s| - 1 then k else 0);
    } else {
      assert s[..0] == [];
    }
  }

  /** A live entry is given up only when every slot holds a live entry, and then none is older. */
  lemma EvictsOldest(t: State, now: int, k: nat)
    requires Inv(t) && k < CACHE_SIZE && Live(now)(t.s[Slot(t.s, now)])
    ensures Live(now)(t.s[k]) && t.s[Slot(t.s, now)].seenAt <= t.s[k].seenAt
  {
    forall i | 0 <= i < |t.s| ensures Live(now)(t.s[i]) && t.s[i].seenAt > 0 {
      assert !NotLive(now)(t.s[i]);
    }
    OldestIsMinimal(t.s, now, k);
  }

  lemma WithinGrows(log: seq<(string, int)>, x: (string, int), from: int, to: int, to': int)
    requires to <= to'
    ensures Within(log, from, to) <= Within(log + [x], from, to')
    ensures |Within(log, from, to)| <= |Within(log + [x], from, to')|
  {
    Contained(Within(log, from, to), Within(log + [x], from, to'));
  }

  /** The pigeonhole step: evicting a live nonce means a full table of nonces no older than it,
      all in different positions of the log, besides the one that comes in. */
  lemma EvictionCounts(t: State, nonce: string, now: int)
    requires Inv(t) && t.clock <= now && Live(now)(t.s[Slot(t.s, now)])
    ensures var t0 := t.s[Slot(t.s, now)].seenAt;
            |Within(t.log + [(nonce, now)], t0, now)| > CACHE_SIZE
  {
    var t0 := t.s[Slot(t.s, now)].seenAt;
    var log' := t.log + [(nonce, now)];
    forall i | 0 <= i < CACHE_SIZE ensures t.from[i] in Within(log', t0, now) && t.s[i].active && t.from[i] < |t.log| {
      EvictsOldest(t, now, i);
    }
    EvictsOldest(t, now, 0);
    DistinctSize(t.from + [|t.log|], Within(log', t0, now));
  }

  lemma AcceptInv(t: State, nonce: string, now: int)
    requires Inv(t) && t.clock <= now && Accepts(t.s, nonce, now) && |nonce| <= NONCE_MAX
    ensures Inv(Step(t, nonce, now))
  {
    var t' := Step(t, nonce, now);
    var slot := Slot(t.s, now);
    forall k | 0 <= k < |t'.log| ensures Accounted(t', k) {
      if k == |t.log| {
        assert InSlot(t', k, slot);
      } else {
        assert Accounted(t, k);
        WithinGrows(t.log, (nonce, now), t.log[k].1, t.clock, now);
        if i :| 0 <= i < |t.s| && InSlot(t, k, i) {
          if i == slot && Live(now)(t.s[slot]) {
            EvictionCounts(t, nonce, now);
          } else if i != slot {
            assert !Expired(t.s[i], now) ==> InSlot(t', k, i);
          }
        }
      }
    }
  }

  lemma RejectInv(t: State, nonce: string, now: int)
    requires Inv(t) && t.clock <= now && !Accepts(t.s, nonce, now)
    ensures Inv(Step(t, nonce, now))
  {
    var t' := Step(t, nonce, now);
    forall k | 0 <= k < |t'.log| ensures Accounted(t', k) {
      assert Accounted(t, k);
      Contained(Within(t.log, t.log[k].1, t.clock), Within(t.log, t.log[k].1, now));
      if i :| 0 <= i < |t.s| && InSlot(t, k, i) {
        assert !Expired(t.s[i], now) ==> InSlot(t', k, i);
      }
    }
  }

  lemma {:induction false} RunInv(r: Run)
    requires Legal(r)
    ensures Inv(StateOf(r))
  {
    match r
    case Init =>
    case More(before, nonce, now) =>
      RunInv(before);
      if Accepts(StateOf(before).s, nonce, now) {
        AcceptInv(StateOf(before), nonce, now);
      } else {
        RejectInv(StateOf(before), nonce, now);
      }
  }

  /** The table after an attempt. An accepted nonce takes one slot, up to its 127th character, with its time, and
      every other entry over 20 seconds old is dropped; a replay drops those before the entry it meets; an empty
      nonce changes nothing. */
  lemma RecordChanges(s: seq<Entry>, nonce: string, now: int)
    requires s != []
    ensures nonce == "" ==> !Accepts(s, nonce, now) && Record(s, nonce, now) == s
    ensures nonce != "" && Accepts(s, nonce, now) ==> exists i | 0 <= i < |s| ::
              Record(s, nonce, now)[i] == Entry(true, now, if |nonce| <= 127 then nonce else nonce[..127])
              && forall j | 0 <= j < |s| && j != i :: Aged(s[j], Record(s, nonce, now)[j], now)
    ensures nonce != "" && !Accepts(s, nonce, now) ==> exists i | 0 <= i < |s| ::
              s[i].active && s[i].nonce == nonce && s[i].seenAt + 20 >= now
              && forall j | 0 <= j < |s| :: if j < i then Aged(s[j], Record(s, nonce, now)[j], now) else Record(s, nonce, now)[j] == s[j]
  {
    if nonce != "" {
      var r := Record(s, nonce, now);
      if Accepts(s, nonce, now) {
        var i := Slot(s, now);
        assert r[i] == Entry(true, now, Stored(nonce));
        assert forall j | 0 <= j < |s| && j != i :: Aged(s[j], r[j], now);
      } else {
        var i := First(s, Replay(nonce, now));
        assert s[i].active && s[i].nonce == nonce && s[i].seenAt + 20 >= now;
      }
    }
  }

  predicate Aged(e: Entry, e': Entry, now: int) {
    e' == if e.active && e.seenAt + 20 < now then e.(active := false) else e
  }

  // ---- What holds in every run ----------------------------------------------------------------

  /** A nonce accepted at time t is rejected at any time up to t+20, as long as no more than a
      table's worth of nonces (itself included) was accepted between. */
  lemma ReplayRejected(r: Run, k: nat, now: int)
    requires Legal(r) && StateOf(r).clock <= now && k < |StateOf(r).log|
    requires var (_, t) := StateOf(r).log[k]; now <= t + 20 && |Within(StateOf(r).log, t, now)| <= 1024
    ensures !Accepts(StateOf(r).s, StateOf(r).log[k].0, now)
  {
    RunInv(r);
    var t := StateOf(r);
    assert Accounted(t, k);
    Contained(Within(t.log, t.log[k].1, t.clock), Within(t.log, t.log[k].1, now));
    var i :| 0 <= i < |t.s| && InSlot(t, k, i);
    assert Replay(t.log[k].0, now)(t.s[i]);
  }

  /** Only replays are rejected: a refused nonce was accepted within the last 20 seconds. */
  lemma RejectionIsReplay(r: Run, nonce: string, now: int)
    requires Legal(r) && StateOf(r).clock <= now && nonce != "" && !Accepts(StateOf(r).s, nonce, now)
    ensures exists k | 0 <= k < |StateOf(r).log| :: StateOf(r).log[k].0 == nonce && now <= StateOf(r).log[k].1 + 20
  {
    RunInv(r);
    var t := StateOf(r);
    var i := First(t.s, Replay(nonce, now));
    assert t.log[t.from[i]] == (nonce, t.s[i].seenAt);
  }

  /** The cache against its specification: while at most 1024 nonces were accepted in the last 20
      seconds, a nonce is accepted if and only if it was not accepted in the last 20 seconds. */
  lemma CacheIsRecentlySeen(r: Run, nonce: string, now: int)
    requires Legal(r) && StateOf(r).clock <= now && nonce != ""
    requires |Within(StateOf(r).log, now - 20, now)| <= 1024
    ensures Accepts(StateOf(r).s, nonce, now) <==>
            !exists k | 0 <= k < |StateOf(r).log| :: StateOf(r).log[k].0 == nonce && now <= StateOf(r).log[k].1 + 20
  {
    var t := StateOf(r);
    forall k | 0 <= k < |t.log| && t.log[k].0 == nonce && now <= t.log[k].1 + TIME_SKEW_SEC
      ensures !Accepts(t.s, nonce, now)
    {
      Contained(Within(t.log, t.log[k].1, now), Within(t.log, now - TIME_SKEW_SEC, now));
      ReplayRejected(r, k, now);
    }
    if !Accepts(t.s, nonce, now) {
      RejectionIsReplay(r, nonce, now);
    }
  }

  // ---- Exactly when the cache keeps its promise ----------------------------------------------------

  /** The nonce was accepted in the last 20 seconds. */
  predicate SeenRecently(log: seq<(string, int)>, nonce: string, now: int) {
    exists k | 0 <= k < |log| :: log[k].0 == nonce && now <= log[k].1 + 20
  }

  ghost predicate KeepsPromise(t: State, now: int) {
    forall nonce | nonce != "" :: Accepts(t.s, nonce, now) <==> !SeenRecently(t.log, nonce, now)
  }

  /** Every slot holds a nonce accepted at time c or later. */
  predicate Full(t: State, c: int) {
    forall i | 0 <= i < |t.s| :: t.s[i].active && t.s[i].seenAt >= c
  }

  /** A nonce accepted at time c or later is in no slot. */
  predicate Forgotten(t: State, c: int, k: nat) {
    k < |t.log| && t.log[k].1 >= c && forall i | 0 <= i < |t.s| :: !t.s[i].active || t.s[i].nonce != t.log[k].0
  }

  /** Once a table's worth of nonces came in since c, the table is full of such nonces; one more, and
      one of them is forgotten. */
  ghost predicate Pressed(t: State, c: int) {
    && (|Within(t.log, c, c + TIME_SKEW_SEC)| >= CACHE_SIZE ==> Full(t, c))
    && (|Within(t.log, c, c + TIME_SKEW_SEC)| > CACHE_SIZE ==> exists k :: Forgotten(t, c, k))
  }

  /** Two live entries hold different nonces. */
  predicate Different(t: State) {
    forall i, j | 0 <= i < j < |t.s| && Live(t.clock)(t.s[i]) && Live(t.clock)(t.s[j]) :: t.s[i].nonce != t.s[j].nonce
  }

  lemma StepDifferent(t: State, nonce: string, now: int)
    requires Inv(t) && Different(t) && t.clock <= now && |nonce| <= NONCE_MAX
    ensures Different(Step(t, nonce, now))
  {
    var t' := Step(t, nonce, now);
    if Accepts(t.s, nonce, now) {
      var slot := Slot(t.s, now);
      forall i | 0 <= i < |t.s| && i != slot && Live(now)(t'.s[i]) ensures t'.s[i] == t.s[i] && t.s[i].nonce != nonce {
        assert !Replay(nonce, now)(t.s[i]);
      }
    }
  }

  /** If all nonces since c are still in the table and fill it, every slot holds one of them. */
  lemma AllHeldIsFull(t: State, c: int, w: set<int>)
    requires Inv(t) && |w| == CACHE_SIZE
    requires forall k: nat | k in w :: Held(t, k) && k < |t.log| && t.log[k].1 >= c
    requires forall k | k in w :: k >= 0
    ensures Full(t, c)
  {
    forall i | 0 <= i < |t.s| ensures t.s[i].active && t.s[i].seenAt >= c {
      if !t.s[i].active || t.s[i].seenAt < c {
        forall k | k in w ensures exists j | 0 <= j < |t.from| :: j != i && t.from[j] == k {
          assert Held(t, k);
          var j :| 0 <= j < |t.s| && InSlot(t, k, j);
          assert j != i && t.from[j] == k;
        }
        ListedElsewhere(t.from, i, w);
      }
    }
  }

  /** With a table's worth of nonces since c, none of them too old, all are still held. */
  lemma FillsUp(t: State, c: int)
    requires Inv(t) && t.clock <= c + TIME_SKEW_SEC && |Within(t.log, c, c + TIME_SKEW_SEC)| == CACHE_SIZE
    ensures Full(t, c)
  {
    forall k: nat | k in Within(t.log, c, c + TIME_SKEW_SEC) ensures Held(t, k) {
      assert Accounted(t, k);
      Contained(Within(t.log, t.log[k].1, t.clock), Within(t.log, c, c + TIME_SKEW_SEC));
    }
    AllHeldIsFull(t, c, Within(t.log, c, c + TIME_SKEW_SEC));
  }

  lemma OneMore(log: seq<(string, int)>, x: (string, int), c: int)
    requires forall k | 0 <= k < |log| :: log[k].1 <= x.1
    ensures var w, w' := Within(log, c, c + TIME_SKEW_SEC), Within(log + [x], c, c + TIME_SKEW_SEC);
            && (c <= x.1 <= c + TIME_SKEW_SEC ==> w' == w + {|log|} && |w'| == |w| + 1)
            && (x.1 < c ==> |w'| == 0)
  {
    var w, w' := Within(log, c, c + TIME_SKEW_SEC), Within(log + [x], c, c + TIME_SKEW_SEC);
    if c <= x.1 <= c + TIME_SKEW_SEC {
      assert w' == w + {|log|};
    } else if x.1 < c {
      assert w' == {};
    }
  }

  /** A full table gives up one of its nonces, which is then nowhere. */
  lemma Overflows(t: State, nonce: string, now: int, c: int)
    requires Inv(t) && Different(t) && Full(t, c) && c <= now <= c + TIME_SKEW_SEC && t.clock <= now
    requires Accepts(t.s, nonce, now) && |nonce| <= NONCE_MAX
    ensures Full(Step(t, nonce, now), c) && Forgotten(Step(t, nonce, now), c, t.from[Slot(t.s, now)])
  {
    var t', slot := Step(t, nonce, now), Slot(t.s, now);
    forall i | 0 <= i < |t.s| ensures Live(now)(t.s[i]) && Live(t.clock)(t.s[i]) && Expire(t.s[i], now) == t.s[i] {
    }
    assert !Replay(nonce, now)(t.s[slot]);
    assert forall i | 0 <= i < |t.s| && i != slot :: t'.s[i] == t.s[i];
  }

  lemma StepPressed(t: State, nonce: string, now: int, c: int)
    requires Inv(t) && Different(t) && Pressed(t, c) && t.clock <= now <= c + TIME_SKEW_SEC && |nonce| <= NONCE_MAX
    ensures Pressed(Step(t, nonce, now), c)
  {
    var t' := Step(t, nonce, now);
    if Accepts(t.s, nonce, now) {
      AcceptInv(t, nonce, now);
      OneMore(t.log, (nonce, now), c);
      if now >= c && |Within(t'.log, c, c + TIME_SKEW_SEC)| > CACHE_SIZE {
        Overflows(t, nonce, now, c);
      } else if |Within(t'.log, c, c + TIME_SKEW_SEC)| == CACHE_SIZE {
        FillsUp(t', c);
      }
    } else if |Within(t.log, c, c + TIME_SKEW_SEC)| >= CACHE_SIZE {
      assert t'.s == t.s;
      assert forall k :: Forgotten(t, c, k) ==> Forgotten(t', c, k);
    }
  }

  lemma {:induction false} PressedRun(r: Run, c: int)
    requires Legal(r) && StateOf(r).clock <= c + TIME_SKEW_SEC
    ensures Different(StateOf(r)) && Pressed(StateOf(r), c)
  {
    match r
    case Init =>
      assert Within(StateOf(r).log, c, c + TIME_SKEW_SEC) == {};
    case More(before, nonce, now) =>
      RunInv(before);
      PressedRun(before, c);
      StepDifferent(StateOf(before), nonce, now);
      StepPressed(StateOf(before), nonce, now, c);
  }

  /** The cache keeps its promise (a nonce is accepted if and only if it was not accepted in the last 20
      seconds) exactly while no more than 1024 nonces were accepted in the last 20 seconds. */
  lemma PromiseKeptExactly(r: Run, now: int)
    requires Legal(r) && StateOf(r).clock <= now
    ensures KeepsPromise(StateOf(r), now) <==> |Within(StateOf(r).log, now - 20, now)| <= 1024
  {
    var t, c := StateOf(r), now - TIME_SKEW_SEC;
    if |Within(t.log, c, now)| <= CACHE_SIZE {
      forall nonce | nonce != "" ensures Accepts(t.s, nonce, now) <==> !SeenRecently(t.log, nonce, now) {
        CacheIsRecentlySeen(r, nonce, now);
      }
    } else {
      PressedRun(r, c);
      var k :| Forgotten(t, c, k);
      NoneEmpty(r, k);
      ForgottenIsAccepted(t, c, k, now);
    }
  }

  lemma ForgottenIsAccepted(t: State, c: int, k: nat, now: int)
    requires Forgotten(t, c, k) && t.log[k].0 != "" && now <= c + TIME_SKEW_SEC
    ensures Accepts(t.s, t.log[k].0, now) && SeenRecently(t.log, t.log[k].0, now)
  {
    FirstIs(t.s, Replay(t.log[k].0, now), -1);
  }

  /** The empty nonce is never accepted. */
  lemma {:induction false} NoneEmpty(r: Run, k: nat)
    requires k < |StateOf(r).log|
    ensures StateOf(r).log[k].0 != ""
  {
    if r.More? && k < |StateOf(r.before).log| {
      NoneEmpty(r.before, k);
    }
  }

  // ---- The input on which it fails -------------------------------------------------------------------

  function Name(n: nat): string
    requires n <= CACHE_SIZE
  {
    [(65 + n / 64) as char, (65 + n % 64) as char]
  }

  /** The first n names, all in second 1. */
  function Burst(n: nat): Run
    requires n <= CACHE_SIZE + 1
  {
    if n == 0 then Init else More(Burst(n - 1), Name(n - 1), 1)
  }

  predicate Filled(t: State, n: nat) {
    && |t.s| == |t.from| == CACHE_SIZE && |t.log| == n <= CACHE_SIZE && t.clock == 1
    && (forall i | 0 <= i < n :: t.s[i] == Entry(true, 1, Name(i)) && t.log[i] == (Name(i), 1))
    && (forall i | n <= i < CACHE_SIZE :: t.s[i] == NO_ENTRY)
  }

  /** A table of names takes the next name. */
  lemma TakesNext(t: State, n: nat)
    requires Filled(t, n)
    ensures Accepts(t.s, Name(n), 1)
    ensures n < CACHE_SIZE ==> Filled(Step(t, Name(n), 1), n + 1)
  {
    FirstIs(t.s, Replay(Name(n), 1), -1);
    if n < CACHE_SIZE {
      FirstIs(t.s, NotLive(1), n);
    }
  }

  lemma {:induction false} BurstFills(n: nat)
    requires n <= CACHE_SIZE
    ensures Legal(Burst(n)) && Filled(StateOf(Burst(n)), n)
  {
    if n > 0 {
      BurstFills(n - 1);
      TakesNext(StateOf(Burst(n - 1)), n - 1);
    }
  }

  /** Among entries of one second the first slot is reused. */
  lemma {:induction false} FirstOfEquals(s: seq<Entry>, now: int)
    requires s != [] && forall i | 0 <= i < |s| :: Live(now)(s[i]) && s[i].seenAt == 1
    ensures Oldest(s, now) == (1, 0)
  {
    if |s| > 1 {
      FirstOfEquals(s[..|s| - 1], now);
    } else {
      assert s[..0] == [];
    }
  }

  /** A full table of names gives up the first one. */
  lemma GivesUpFirst(t: State, n: nat)
    requires Filled(t, n) && n == CACHE_SIZE
    ensures var t' := Step(t, Name(n), 1);
            t'.log == t.log + [(Name(n), 1)] && Accepts(t'.s, Name(0), 1)
  {
    TakesNext(t, n);
    FirstIs(t.s, NotLive(1), -1);
    FirstOfEquals(t.s, 1);
    var t' := Step(t, Name(n), 1);
    assert t'.s[0] == Entry(true, 1, Name(n)) && forall i | 0 < i < CACHE_SIZE :: t'.s[i] == t.s[i];
    FirstIs(t'.s, Replay(Name(0), 1), -1);
  }

  /** After 1025 nonces in one second the first of them is accepted again in that very second. */
  lemma BurstForgets(n: nat)
    requires n == 1024
    ensures var r := Burst(n + 1);
            Legal(r) && |StateOf(r).log| == n + 1 && StateOf(r).log[0] == (Name(0), 1) && Accepts(StateOf(r).s, Name(0), 1)
  {
    BurstFills(n);
    GivesUpFirst(StateOf(Burst(n)), n);
  }

  // ---- Signed requests ------------------------------------------------------------------------------

  /** A correctly signed request is taken when its time stamp is near the clock and its nonce is new. */
  predicate Takes(s: seq<Entry>, stamp: int, nonce: string, now: int) {
    now - 20 <= stamp <= now + 20 && Accepts(s, nonce, now)
  }

  /** Whether a request, taken at time t, is taken again at a later time: its nonce is forgotten 20 seconds
      after t, its stamp stays good for 20 seconds after the stamp. */
  lemma SecondUse(r: Run, k: nat, stamp: int, now: int)
    requires Legal(r) && StateOf(r).clock <= now && k < |StateOf(r).log|
    requires forall j | k < j < |StateOf(r).log| :: StateOf(r).log[j].0 != StateOf(r).log[k].0
    requires var (_, t) := StateOf(r).log[k]; -20 <= stamp - t <= 20 && |Within(StateOf(r).log, t, now)| <= 1024
    ensures var (nonce, t) := StateOf(r).log[k];
            Takes(StateOf(r).s, stamp, nonce, now) <==> t + 20 < now <= stamp + 20
  {
    RunInv(r);
    NoneEmpty(r, k);
    InTimeOrder(r, k);
    var (nonce, t) := StateOf(r).log[k];
    if now <= t + TIME_SKEW_SEC {
      ReplayRejected(r, k, now);
    } else if !Accepts(StateOf(r).s, nonce, now) {
      RejectionIsReplay(r, nonce, now);
    }
  }

  /** The log is in the order of its times. */
  lemma {:induction false} InTimeOrder(r: Run, k: nat)
    requires Legal(r) && k < |StateOf(r).log|
    ensures forall j | 0 <= j < k :: StateOf(r).log[j].1 <= StateOf(r).log[k].1
  {
    if r.More? {
      RunInv(r.before);
      if k < |StateOf(r.before).log| {
        InTimeOrder(r.before, k);
      }
    }
  }

  /** A request that was just taken can be taken a second time, with no other traffic, if and only if its
      stamp was ahead of the clock. */
  lemma TakenTwiceExactly(r: Run, nonce: string, t: int, stamp: int)
    requires Legal(More(r, nonce, t)) && Takes(StateOf(r).s, stamp, nonce, t)
    requires |Within(StateOf(More(r, nonce, t)).log, t, t)| <= 1024
    ensures (exists now | t <= now :: Takes(StateOf(More(r, nonce, t)).s, stamp, nonce, now)) <==> stamp > t
  {
    var r' := More(r, nonce, t);
    RunInv(r);
    RunInv(r');
    var log := StateOf(r').log;
    forall now | t <= now
      ensures Takes(StateOf(r').s, stamp, nonce, now) <==> t + TIME_SKEW_SEC < now <= stamp + TIME_SKEW_SEC
    {
      assert Within(log, t, now) == Within(log, t, t);
      SecondUse(r', |log| - 1, stamp, now);
    }
    if stamp > t {
      assert Takes(StateOf(r').s, stamp, nonce, t + TIME_SKEW_SEC + 1);
    }
  }
}
