/** The TapHub's tables updated in place; every method is proved to take the step of TapHub.dfy. */
module HubServer {
  import opened Bytes
  import opened Proto
  import opened Scan
  import opened TapHub
  import opened SessionQueues
  import W = Writer

  /** An address seen again: refreshed by its owner, moved, or refused while it moves too often. */
  method LearnKnown(e0: MacEntry, s: Session, now: int) returns (e: MacEntry, ok: bool)
    ensures e == LearnEntry(e0, s, now).0 && ok == (LearnEntry(e0, s, now).1 != Frozen)
  {
    e := e0;
    if e.fd != s.fd {
      if e.frozenUntil > now {
        return e, false;
      }
      if e.moveWindow == 0 || Sub64(now, e.moveWindow) > MOVE_WINDOW_SEC {
        e := e.(moveWindow := now, moveCount := 0);
      }
      e := e.(moveCount := e.moveCount + 1);
      if e.moveCount >= FREEZE_THRESHOLD {
        return e.(frozenUntil := now + FREEZE_SEC), false;
      }
    } else if e.frozenUntil <= now {
      e := e.(frozenUntil := 0);
    }
    e, ok := e.(fd := s.fd, ttl := s.ttl, lastSeen := now), true;
  }

  lemma SameLearner(e: MacEntry, s: Session, s': Session, now: int)
    requires s.fd == s'.fd && s.ttl == s'.ttl
    ensures LearnEntry(e, s, now) == LearnEntry(e, s', now)
  {
  }

  /** The flood's visit of the first j slots: the sessions it leaves, the copies queued and dropped. */
  function CopyUpTo(ss: seq<Session>, i: nat, j: nat, payload: seq<byte>, now: int): (r: (seq<Session>, int, int))
    requires i < |ss| && j <= |ss|
    ensures |r.0| == |ss|
    decreases j, ss
  {
    if j == 0 then (ss, 0, 0)
    else
      var (view, queued, dropped) := CopyUpTo(ss, i, j - 1, payload, now);
      var s := ss[j - 1];
      (view[j - 1 := Copy(ss[i], s, payload, now)],
       queued + One(CopyOutcome(ss[i], payload, now, W.Queued)(s)),
       dropped + One(CopyOutcome(ss[i], payload, now, W.Dropped)(s)))
  }

  function One(b: bool): int {
    if b then 1 else 0
  }

  lemma {:induction false} CopyUpToIs(ss: seq<Session>, i: nat, j: nat, payload: seq<byte>, now: int)
    requires i < |ss| && j <= |ss|
    ensures var r := CopyUpTo(ss, i, j, payload, now);
            && r.0 == FloodCopies(ss, ss[i], payload, now)[..j] + ss[j..]
            && r.1 == Count(ss[..j], CopyOutcome(ss[i], payload, now, W.Queued))
            && r.2 == Count(ss[..j], CopyOutcome(ss[i], payload, now, W.Dropped))
    decreases j
  {
    if j > 0 {
      CopyUpToIs(ss, i, j - 1, payload, now);
      CountPrefix(ss, j - 1, CopyOutcome(ss[i], payload, now, W.Queued));
      CountPrefix(ss, j - 1, CopyOutcome(ss[i], payload, now, W.Dropped));
    }
  }

  lemma CopyUpToAt(ss: seq<Session>, i: nat, j: nat, payload: seq<byte>, now: int)
    requires i < |ss| && j < |ss|
    ensures CopyUpTo(ss, i, j, payload, now).0[j] == ss[j]
    ensures CopyUpTo(ss, i, j, payload, now).0[i] == ss[i]
    ensures var (r, r') := (CopyUpTo(ss, i, j, payload, now), CopyUpTo(ss, i, j + 1, payload, now));
            && r'.0 == r.0[j := Copy(ss[i], ss[j], payload, now)]
            && r'.1 == r.1 + One(CopyOutcome(ss[i], payload, now, W.Queued)(ss[j]))
            && r'.2 == r.2 + One(CopyOutcome(ss[i], payload, now, W.Dropped)(ss[j]))
  {
    CopyUpToIs(ss, i, j, payload, now);
  }

  /** The whole visit makes exactly the flood's copies. */
  lemma CopyAllIs(ss: seq<Session>, i: nat, payload: seq<byte>, now: int)
    requires i < |ss|
    ensures CopyUpTo(ss, i, |ss|, payload, now)
         == (FloodCopies(ss, ss[i], payload, now),
             Count(ss, CopyOutcome(ss[i], payload, now, W.Queued)), Count(ss, CopyOutcome(ss[i], payload, now, W.Dropped)))
  {
    CopyUpToIs(ss, i, |ss|, payload, now);
    assert ss[..|ss|] == ss;
    assert FloodCopies(ss, ss[i], payload, now)[..|ss|] + ss[|ss|..] == FloodCopies(ss, ss[i], payload, now);
  }

  class Server {
    const slots: seq<ActiveSession>
    const macs: array<MacEntry>
    const rates: array<Rate>
    ghost var view: seq<Session>
    ghost var Repr: set<object>  // the slots and their queues, not this object or the tables

    ghost predicate Valid()
      reads this, Repr
    {
      && this !in Repr && macs !in Repr && rates !in Repr
      && |slots| == |view| == MAX_SESSIONS && macs.Length == MAX_MACS && rates.Length == MAX_RATES
      && (forall i | 0 <= i < |slots| ::
            slots[i] in Repr && slots[i].Repr <= Repr && slots[i].Valid() && slots[i].View() == view[i])
      && (forall i, j | 0 <= i < j < |slots| :: slots[i].Repr !! slots[j].Repr)
    }

    /** All slots free, both tables empty. */
    constructor ()
      ensures Valid() && fresh(this) && fresh(macs) && fresh(rates) && fresh(Repr) && Hub() == EMPTY_HUB
    {
      var made: seq<ActiveSession> := [];
      ghost var owned: set<object> := {};
      while |made| < MAX_SESSIONS
        invariant |made| <= MAX_SESSIONS && fresh(owned)
        invariant forall i | 0 <= i < |made| ::
          made[i] in owned && made[i].Repr <= owned && made[i].Valid() && made[i].View() == NO_SESSION
        invariant forall i, j | 0 <= i < j < |made| :: made[i].Repr !! made[j].Repr
      {
        var slot := new ActiveSession();
        made := made + [slot];
        owned := owned + slot.Repr + {slot};
      }
      slots := made;
      macs := new MacEntry[MAX_MACS](_ => NO_MAC);
      rates := new Rate[MAX_RATES](_ => NO_RATE);
      view := seq(MAX_SESSIONS, _ => NO_SESSION);
      Repr := owned;
    }

    ghost function Hub(): Hub
      reads this, macs, rates
    {
      TapHub.Hub(view, macs[..], rates[..])
    }

    // ---- Scans ---------------------------------------------------------------------------

    /** The first active session of a descriptor in a network. */
    method FindSession(fd: int, net: int) returns (i: int)
      requires Valid()
      ensures i == First(view, SessionKey(fd, net))
    {
      i := 0;
      while i < |slots|
        invariant 0 <= i <= |slots|
        invariant forall k | 0 <= k < i :: !SessionKey(fd, net)(view[k])
      {
        if slots[i].s.active && slots[i].s.fd == fd && slots[i].s.net == net {
          FirstIs(view, SessionKey(fd, net), i);
          return;
        }
        i := i + 1;
      }
      FirstIs(view, SessionKey(fd, net), -1);
      i := -1;
    }

    method CountMacs(fd: int, net: int) returns (count: int)
      requires Valid()
      ensures count == Count(macs[..], OwnedBy(fd, net))
    {
      count := 0;
      var i := 0;
      while i < macs.Length
        invariant 0 <= i <= macs.Length
        invariant count == Count(macs[..i], OwnedBy(fd, net))
      {
        CountPrefix(macs[..], i, OwnedBy(fd, net));
        assert macs[..][..i] == macs[..i] && macs[..][..i + 1] == macs[..i + 1];
        if macs[i].active && macs[i].fd == fd && macs[i].net == net {
          count := count + 1;
        }
        i := i + 1;
      }
      assert macs[..i] == macs[..];
    }

    // ---- MAC table -------------------------------------------------------------------------

    method AgeMacs(now: int)
      requires Valid()
      modifies macs
      ensures Valid()
      ensures Hub() == old(Hub()).(macs := Age(old(macs[..]), view, now))
    {
      var i := 0;
      ghost var aged := Age(macs[..], view, now);
      while i < macs.Length
        invariant 0 <= i <= macs.Length
        invariant forall k | 0 <= k < i :: macs[k] == aged[k]
        invariant forall k | i <= k < macs.Length :: macs[k] == old(macs[k])
      {
        var stale := IsStale(macs[i], now);
        assert aged[i] == AgeEntry(macs[i], view, now);
        if macs[i].active && stale {
          macs[i] := macs[i].(active := false);
        }
        i := i + 1;
      }
    }

    /** Past its lifetime, or of a session that is gone. */
    method IsStale(e: MacEntry, now: int) returns (stale: bool)
      requires Valid()
      ensures e.active ==> stale == Stale(e, view, now)
    {
      if !e.active {
        return false;
      }
      var ttl := if e.ttl == 0 then DEFAULT_MAC_TTL_SEC else e.ttl;
      var owner := FindSession(e.fd, e.net);
      stale := (now > e.lastSeen && now - e.lastSeen > ttl) || owner < 0;
    }

    method ForgetMacs(fd: int)
      requires Valid()
      modifies macs
      ensures Valid()
      ensures Hub() == old(Hub()).(macs := Forget(old(macs[..]), fd))
    {
      var i := 0;
      while i < macs.Length
        invariant 0 <= i <= macs.Length
        invariant forall k | 0 <= k < i ::
          macs[k] == if old(macs[k]).active && old(macs[k]).fd == fd then old(macs[k]).(active := false) else old(macs[k])
        invariant forall k | i <= k < macs.Length :: macs[k] == old(macs[k])
      {
        if macs[i].active && macs[i].fd == fd {
          macs[i] := macs[i].(active := false);
        }
        i := i + 1;
      }
    }

    /** The entry of an address and, if there is none, the first free slot. */
    method FindMac(net: int, mac: Mac) returns (i: int, free: int)
      requires Valid()
      ensures i == First(macs[..], MacKey(net, mac))
      ensures i < 0 ==> free == First(macs[..], FreeMac())
    {
      free := -1;
      i := 0;
      while i < macs.Length
        invariant 0 <= i <= macs.Length
        invariant forall k | 0 <= k < i :: !MacKey(net, mac)(macs[k])
        invariant -1 <= free < i && (free >= 0 ==> FreeMac()(macs[free]))
        invariant forall k | 0 <= k < (if free < 0 then i else free) :: !FreeMac()(macs[k])
      {
        if macs[i].active && macs[i].net == net && macs[i].mac == mac {
          FirstIs(macs[..], MacKey(net, mac), i);
          return;
        }
        if !macs[i].active && free < 0 {
          free := i;
        }
        i := i + 1;
      }
      FirstIs(macs[..], MacKey(net, mac), -1);
      FirstIs(macs[..], FreeMac(), free);
      i := -1;
    }

    /** Learns a source address for the session at slot j; false when the address is frozen. */
    method LearnMac(j: nat, mac: Mac, now: int) returns (ok: bool)
      requires Valid() && j < |slots|
      modifies macs
      ensures Valid()
      ensures Hub() == old(Hub()).(macs := Learn(old(macs[..]), view[j], mac, now).0)
      ensures ok == (Learn(old(macs[..]), view[j], mac, now).1 != Frozen)
    {
      assert slots[j].View() == view[j];
      if !Learnable(mac) {
        return true;
      }
      var i, free := FindMac(slots[j].s.net, mac);
      if i >= 0 {
        ok := LearnAgain(j, i, now);
        return;
      }
      StoreMac(j, mac, free, now);
      ok := true;
    }

    /** Learns an address that is in entry i. */
    method LearnAgain(j: nat, i: nat, now: int) returns (ok: bool)
      requires Valid() && j < |slots| && i < macs.Length
      modifies macs
      ensures macs[..] == old(macs[..])[i := LearnEntry(old(macs[i]), view[j], now).0]
      ensures ok == (LearnEntry(old(macs[i]), view[j], now).1 != Frozen)
    {
      assert slots[j].View() == view[j];
      var e;
      SameLearner(macs[i], slots[j].s, view[j], now);
      e, ok := LearnKnown(macs[i], slots[j].s, now);
      macs[i] := e;
    }

    /** Stores a new address in a free slot, if there is one and the session is under its cap. */
    method StoreMac(j: nat, mac: Mac, free: int, now: int)
      requires Valid() && j < |slots| && free < macs.Length
      modifies macs
      ensures macs[..] == if free < 0 || Count(old(macs[..]), OwnedBy(view[j].fd, view[j].net)) >= AsInt32(view[j].maxMac)
                          then old(macs[..]) else old(macs[..])[free := NewEntry(view[j], mac, now)]
    {
      var s := slots[j].s;
      assert slots[j].View() == view[j];
      var owned := CountMacs(s.fd, s.net);
      if free < 0 || owned >= AsInt32(s.maxMac) {
        return;
      }
      macs[free] := MacEntry(true, s.net, s.fd, mac, s.ttl, now, now, 0, 0);
    }

    method LookupMac(net: int, mac: Mac) returns (target: int)
      requires Valid()
      modifies macs
      ensures Valid()
      ensures Hub() == old(Hub()).(macs := Lookup(old(macs[..]), view, net, mac).0)
      ensures target == Lookup(old(macs[..]), view, net, mac).1
    {
      if IsMulticast(mac) {
        return -1;
      }
      var i;
      i, target := FindOwner(net, mac);
      if i >= 0 && target < 0 {
        DropMac(i);
      }
    }

    method DropMac(i: nat)
      requires Valid() && i < macs.Length
      modifies macs
      ensures macs[..] == old(macs[..])[i := old(macs[i]).(active := false)]
    {
      macs[i] := macs[i].(active := false);
    }

    /** The entry of an address and the slot of the session it names, -1 for what there is not. */
    method FindOwner(net: int, mac: Mac) returns (i: int, target: int)
      requires Valid()
      ensures i == First(macs[..], MacKey(net, mac))
      ensures target == if i < 0 then -1 else First(view, SessionKey(macs[i].fd, net))
    {
      var free;
      i, free := FindMac(net, mac);
      if i < 0 {
        return i, -1;
      }
      target := FindSession(macs[i].fd, net);
    }

    // ---- Flood limiter -----------------------------------------------------------------------

    method FindRate(net: int) returns (k: int)
      requires Valid()
      ensures k == RateSlot(rates[..], net)
    {
      var free, i := -1, 0;
      while i < rates.Length
        invariant 0 <= i <= rates.Length
        invariant forall k | 0 <= k < i :: !RateKey(net)(rates[k])
        invariant -1 <= free < i && (free >= 0 ==> FreeRate()(rates[free]))
        invariant forall k | 0 <= k < (if free < 0 then i else free) :: !FreeRate()(rates[k])
      {
        if rates[i].active && rates[i].net == net {
          FirstIs(rates[..], RateKey(net), i);
          return i;
        }
        if !rates[i].active && free < 0 {
          free := i;
        }
        i := i + 1;
      }
      FirstIs(rates[..], RateKey(net), -1);
      FirstIs(rates[..], FreeRate(), free);
      k := free;
    }

    /** The network's part of the limiter. */
    method NetworkAllows(net: int, limit: int, now: int) returns (ok: bool)
      requires Valid()
      modifies rates
      ensures Valid()
      ensures rates[..] == NetworkGate(old(rates[..]), net, limit, now).0
      ensures ok == NetworkGate(old(rates[..]), net, limit, now).1
    {
      if limit <= 0 {
        return true;
      }
      var k := FindRate(net);
      if k < 0 {
        return false;
      }
      var r := rates[k].(active := true, net := net);
      if r.window != now {
        r := r.(window := now, count := 0);
      }
      ok := r.count < limit;
      rates[k] := if ok then r.(count := r.count + 1) else r;
    }

    /** After an operation on slot j that touches nothing outside it, the rest is as it was. */
    twostate lemma Framed(j: nat)
      requires j < |slots| && old(Valid())
      requires forall o | o in old(Repr) && o !in old(slots[j].Repr) :: unchanged(o)
      requires slots[j].Valid() && fresh(slots[j].Repr - old(slots[j].Repr))
      requires view == old(view)[j := slots[j].View()] && Repr == old(Repr) + slots[j].Repr
      ensures Valid()
    {
      forall k | 0 <= k < |slots| && k != j
        ensures slots[k].Valid() && slots[k].View() == view[k] && slots[k].Repr == old(slots[k].Repr)
        ensures slots[k].Repr !! slots[j].Repr
      {
        assert old(slots[k].Repr) !! old(slots[j].Repr);
      }
    }

    method OpenFloodAt(j: nat, now: int) returns (ok: bool)
      requires Valid() && j < |slots|
      modifies this`view, slots[j].Repr
      ensures Valid() && Repr == old(Repr) && slots[j].Repr == old(slots[j].Repr)
      ensures rates[..] == old(rates[..]) && macs[..] == old(macs[..])
      ensures view == old(view)[j := Charge(old(view)[j], now, false)]
      ensures ok == !(view[j].sessLimit > 0 && FloodsIn(old(view)[j], now) >= view[j].sessLimit)
    {
      ok := slots[j].OpenFlood(now);
      view := view[j := Charge(view[j], now, false)];
      Framed(j);
    }

    method SpendFloodAt(j: nat, ghost s: Session, now: int)
      requires Valid() && j < |slots| && view[j] == Charge(s, now, false)
      modifies this`view, slots[j].Repr
      ensures Valid() && Repr == old(Repr) && slots[j].Repr == old(slots[j].Repr)
      ensures rates[..] == old(rates[..]) && macs[..] == old(macs[..])
      ensures view == old(view)[j := Charge(s, now, true)]
    {
      slots[j].SpendFlood(s, now);
      view := view[j := Charge(s, now, true)];
      Framed(j);
    }

    method FloodAllowed(j: nat, now: int) returns (ok: bool)
      requires Valid() && j < |slots|
      modifies this`view, slots[j].Repr, rates
      ensures Valid() && Repr == old(Repr)
      ensures ok == AdmitFlood(old(view)[j], old(rates[..]), now).2
      ensures view == old(view)[j := AdmitFlood(old(view)[j], old(rates[..]), now).0]
      ensures rates[..] == AdmitFlood(old(view)[j], old(rates[..]), now).1
      ensures macs[..] == old(macs[..])
    {
      ghost var s := view[j];
      ok := OpenFloodAt(j, now);
      if !ok {
        return;
      }
      assert view[j].net == s.net && view[j].netLimit == s.netLimit;
      ok := NetworkAllows(slots[j].s.net, slots[j].s.netLimit, now);
      if ok {
        SpendFloodAt(j, s, now);
      }
    }

    // ---- Relay -------------------------------------------------------------------------------

    method EnqueueAt(j: nat, payload: seq<byte>, flood: bool, now: int) returns (rc: W.Outcome)
      requires Valid() && j < |slots|
      modifies this`view, this`Repr, slots[j].Repr
      ensures Valid() && fresh(Repr - old(Repr)) && old(Repr) <= Repr
      ensures rates[..] == old(rates[..]) && macs[..] == old(macs[..])
      ensures view == old(view)[j := old(view)[j].(q := W.EnqueueTap(old(view)[j].q, payload, flood, now))]
      ensures rc == W.Verdict(old(view)[j].q, payload, flood, now)
    {
      rc := slots[j].EnqueueTap(payload, flood, now);
      view := view[j := view[j].(q := W.EnqueueTap(view[j].q, payload, flood, now))];
      Repr := Repr + slots[j].Repr;
      Framed(j);
    }

    method CopyAt(i: nat, j: nat, payload: seq<byte>, now: int) returns (queued: int, dropped: int)
      requires Valid() && i < |slots| && j < |slots|
      modifies this`view, this`Repr, Repr
      ensures Valid() && fresh(Repr - old(Repr)) && old(Repr) <= Repr
      ensures rates[..] == old(rates[..]) && macs[..] == old(macs[..])
      ensures view == old(view)[j := Copy(old(view)[i], old(view)[j], payload, now)]
      ensures queued == One(CopyOutcome(old(view)[i], payload, now, W.Queued)(old(view)[j]))
      ensures dropped == One(CopyOutcome(old(view)[i], payload, now, W.Dropped)(old(view)[j]))
    {
      queued, dropped := 0, 0;
      var eligible := IsEligible(i, j);
      if eligible {
        var rc := EnqueueAt(j, payload, true, now);
        queued, dropped := if rc == W.Queued then 1 else 0, if rc == W.Dropped then 1 else 0;
      }
    }

    /** One step of the flood's visit, with the counters so far. */
    method CopyNext(ghost ss: seq<Session>, i: nat, j: nat, payload: seq<byte>, now: int, forwarded: int, dropped: int)
        returns (forwarded': int, dropped': int)
      requires Valid() && i < |slots| && j < |slots| == |ss|
      requires (view, forwarded, dropped) == CopyUpTo(ss, i, j, payload, now)
      modifies this`view, this`Repr, Repr
      ensures Valid() && fresh(Repr - old(Repr)) && old(Repr) <= Repr
      ensures rates[..] == old(rates[..]) && macs[..] == old(macs[..])
      ensures (view, forwarded', dropped') == CopyUpTo(ss, i, j + 1, payload, now)
    {
      CopyUpToAt(ss, i, j, payload, now);
      var queued, drop := CopyAt(i, j, payload, now);
      forwarded', dropped' := forwarded + queued, dropped + drop;
    }

    /** Queues the flood's copies; i is the source's slot. */
    method CopyToAll(i: nat, payload: seq<byte>, now: int) returns (forwarded: int, dropped: int)
      requires Valid() && i < |slots|
      modifies this`view, this`Repr, Repr
      ensures Valid() && fresh(Repr - old(Repr)) && old(Repr) <= Repr
      ensures rates[..] == old(rates[..]) && macs[..] == old(macs[..])
      ensures view == FloodCopies(old(view), old(view)[i], payload, now)
      ensures forwarded == Count(old(view), CopyOutcome(old(view)[i], payload, now, W.Queued))
      ensures dropped == Count(old(view), CopyOutcome(old(view)[i], payload, now, W.Dropped))
    {
      CopyAllIs(view, i, payload, now);
      forwarded, dropped := CopyEach(i, payload, now);
    }

    /** The loop over the slots. */
    method CopyEach(i: nat, payload: seq<byte>, now: int) returns (forwarded: int, dropped: int)
      requires Valid() && i < |slots|
      modifies this`view, this`Repr, Repr
      ensures Valid() && fresh(Repr - old(Repr)) && old(Repr) <= Repr
      ensures (view, forwarded, dropped) == CopyUpTo(old(view), i, |old(view)|, payload, now)
    {
      ghost var ss := view;
      forwarded, dropped := 0, 0;
      var j := 0;
      while j < |slots|
        invariant Valid() && fresh(Repr - old(Repr)) && old(Repr) <= Repr
        invariant 0 <= j <= |slots| == |ss|
        invariant (view, forwarded, dropped) == CopyUpTo(ss, i, j, payload, now)
      {
        forwarded, dropped := CopyNext(ss, i, j, payload, now, forwarded, dropped);
        j := j + 1;
      }
    }

    method FloodFrame(i: nat, payload: seq<byte>, now: int) returns (forwarded: int, mode: Mode)
      requires Valid() && i < |slots|
      modifies this`view, this`Repr, Repr
      ensures Valid() && fresh(Repr - old(Repr))
      ensures (Hub(), forwarded, mode) == SendAll(old(Hub()), i, payload, now)
    {
      var dropped;
      forwarded, dropped := CopyToAll(i, payload, now);
      mode := if forwarded == 0 && dropped > 0 then DropQueue else Flood;
    }

    method IsEligible(i: nat, j: nat) returns (yes: bool)
      requires Valid() && i < |slots| && j < |slots|
      ensures yes == Eligible(view[i], view[j])
    {
      var source, target := slots[i].s, slots[j].s;
      assert slots[i].View() == view[i] && slots[j].View() == view[j];
      if !target.active || target.fd == source.fd || target.net != source.net {
        return false;
      }
      yes := !(source.isTap && target.isTap && !source.clientToClient);
    }

    /** Forwards to a known destination: at most one copy, outside the flood budget. */
    method ForwardKnown(i: nat, j: nat, payload: seq<byte>, now: int) returns (forwarded: int, mode: Mode)
      requires Valid() && i < |slots| && j < |slots|
      modifies this`view, this`Repr, Repr
      ensures Valid() && fresh(Repr - old(Repr))
      ensures (Hub(), forwarded, mode) == SendTo(old(Hub()), i, j, payload, now)
    {
      var source, target := slots[i].s, slots[j].s;
      assert slots[i].View() == view[i] && slots[j].View() == view[j];
      if target.fd == source.fd {
        return 0, Unicast;
      }
      if source.isTap && target.isTap && !source.clientToClient {
        return 0, DropClient;
      }
      var rc := EnqueueAt(j, payload, false, now);
      if rc == W.Queued {
        return 1, Unicast;
      }
      forwarded, mode := 0, DropQueue;
    }

    /** Everything up to the queues: ageing, filters, learning, lookup and the flood limiter. */
    method AdmitFrame(fd: int, net: int, frame: seq<byte>, now: int) returns (verdict: Verdict, i: int)
      requires Valid()
      modifies this`view, macs, rates, Repr
      ensures Valid() && Repr == old(Repr)
      ensures Hub() == Admit(old(Hub()), fd, net, frame, now).hub
      ensures verdict == Admit(old(Hub()), fd, net, frame, now).verdict
      ensures verdict !in {TooShort, NoSession} ==> 0 <= i < |slots| && i == First(old(view), SessionKey(fd, net))
      ensures verdict.Known? ==> verdict.target < |slots|
    {
      i := -1;
      if |frame| < MIN_FRAME {
        return TooShort, i;
      }
      var dst, src := Dst(frame), Src(frame);
      AgeMacs(now);
      i := FindSession(fd, net);
      if i < 0 {
        return NoSession, i;
      }
      assert slots[i].View() == view[i];
      if IsL2Control(dst) && !slots[i].s.l2Control {
        return L2Filtered, i;
      }
      var ok := LearnMac(i, src, now);
      if !ok {
        return FrozenSource, i;
      }
      verdict := LookupOrFlood(i, net, dst, now);
    }

    method LookupOrFlood(i: nat, net: int, dst: Mac, now: int) returns (verdict: Verdict)
      requires Valid() && i < |slots|
      modifies this`view, macs, rates, Repr
      ensures Valid() && Repr == old(Repr)
      ensures Hub() == var (macs', target) := Lookup(old(macs[..]), old(view), net, dst);
                       if target >= 0 then old(Hub()).(macs := macs')
                       else var (s, rates', _) := AdmitFlood(old(view)[i], old(rates[..]), now);
                            TapHub.Hub(old(view)[i := s], macs', rates')
      ensures verdict == var target := Lookup(old(macs[..]), old(view), net, dst).1;
                         if target >= 0 then Known(target)
                         else if AdmitFlood(old(view)[i], old(rates[..]), now).2 then Admitted else RateLimited
      ensures verdict.Known? ==> verdict.target < |slots|
    {
      var target := LookupMac(net, dst);
      if target >= 0 {
        return Known(target);
      }
      var ok := FloodAllowed(i, now);
      verdict := if ok then Admitted else RateLimited;
    }

    method ForwardFrame(verdict: Verdict, i: int, payload: seq<byte>, now: int) returns (forwarded: int, mode: Mode)
      requires Valid()
      requires verdict.Known? || verdict.Admitted? ==> 0 <= i < |slots|
      requires verdict.Known? ==> verdict.target < |slots|
      modifies this`view, this`Repr, Repr
      ensures Valid() && fresh(Repr - old(Repr))
      ensures (Hub(), forwarded, mode) == Forward(old(Hub()), verdict, i, payload, now)
    {
      match verdict {
        case TooShort => return 0, Flood;
        case NoSession => return 0, DropSession;
        case L2Filtered => return 0, DropL2;
        case FrozenSource => return 0, DropMacFreeze;
        case RateLimited => return 0, DropRate;
        case Known(j) => forwarded, mode := ForwardKnown(i, j, payload, now);
        case Admitted => forwarded, mode := FloodFrame(i, payload, now);
      }
    }

    method RelayTapFrame(fd: int, net: int, frame: seq<byte>, payload: seq<byte>, now: int)
        returns (forwarded: int, mode: Mode)
      requires Valid()
      modifies this`view, this`Repr, macs, rates, Repr
      ensures Valid() && fresh(Repr - old(Repr))
      ensures (Hub(), forwarded, mode) == Relay(old(Hub()), fd, net, frame, payload, now)
    {
      var verdict, i := AdmitFrame(fd, net, frame, now);
      forwarded, mode := ForwardFrame(verdict, i, payload, now);
    }

    // ---- Registration ---------------------------------------------------------------------------

    method FindFree() returns (i: int)
      requires Valid()
      ensures i == First(view, FreeSession())
    {
      i := 0;
      while i < |slots|
        invariant 0 <= i <= |slots|
        invariant forall k | 0 <= k < i :: !FreeSession()(view[k])
      {
        if !slots[i].s.active {
          FirstIs(view, FreeSession(), i);
          return;
        }
        i := i + 1;
      }
      FirstIs(view, FreeSession(), -1);
      i := -1;
    }

    method FindFd(fd: int) returns (i: int)
      requires Valid()
      ensures i == First(view, FdKey(fd))
    {
      i := 0;
      while i < |slots|
        invariant 0 <= i <= |slots|
        invariant forall k | 0 <= k < i :: !FdKey(fd)(view[k])
      {
        if slots[i].s.active && slots[i].s.fd == fd {
          FirstIs(view, FdKey(fd), i);
          return;
        }
        i := i + 1;
      }
      FirstIs(view, FdKey(fd), -1);
      i := -1;
    }

    method FillAt(j: nat, fd: int, sid: int, net: int, nodePk: int, isTap: bool, c: Config, started: bool)
      requires Valid() && j < |slots|
      modifies this`view, slots[j].Repr
      ensures Valid() && Repr == old(Repr)
      ensures rates[..] == old(rates[..]) && macs[..] == old(macs[..])
      ensures view == old(view)[j := NewSession(fd, sid, net, nodePk, isTap, c, started)]
    {
      slots[j].Wipe();
      slots[j].Fill(fd, sid, net, nodePk, isTap, c, started);
      view := view[j := NewSession(fd, sid, net, nodePk, isTap, c, started)];
      Framed(j);
    }

    method RetireAt(j: nat)
      requires Valid() && j < |slots|
      modifies this`view, slots[j].Repr
      ensures Valid() && Repr == old(Repr)
      ensures rates[..] == old(rates[..]) && macs[..] == old(macs[..])
      ensures view == old(view)[j := old(view)[j].(active := false, q := StopWriter(old(view)[j].q))]
    {
      slots[j].Retire();
      view := view[j := view[j].(active := false, q := StopWriter(view[j].q))];
      Framed(j);
    }

    /** `started` is what making the socket nonblocking and starting the writer thread came to. */
    method RegisterSession(fd: int, sid: int, net: int, nodePk: int, isTap: bool, c: Config, started: bool)
        returns (ok: bool)
      requires Valid()
      modifies this`view, Repr
      ensures Valid() && Repr == old(Repr)
      ensures (Hub(), ok) == Register(old(Hub()), fd, sid, net, nodePk, isTap, c, started)
    {
      var i := FindFree();
      if i < 0 {
        return false;
      }
      FillAt(i, fd, sid, net, nodePk, isTap, c, started);
      ok := started;
    }

    method UnregisterSession(fd: int)
      requires Valid()
      modifies this`view, macs, Repr
      ensures Valid() && Repr == old(Repr)
      ensures Hub() == Unregister(old(Hub()), fd)
    {
      ForgetMacs(fd);
      var i := FindFd(fd);
      if i >= 0 {
        RetireAt(i);
      }
    }

    // ---- The writer thread ------------------------------------------------------------------------

    /** One locked step of slot j's writer: take a message, or stop after a failed send. */
    method WriterTake(j: nat) returns (m: Option<W.Msg>)
      requires Valid() && j < |slots|
      modifies this`view, slots[j].Repr
      ensures Valid() && Repr == old(Repr)
      ensures rates[..] == old(rates[..]) && macs[..] == old(macs[..])
      ensures view == old(view)[j := old(view)[j].(q := W.Act(old(view)[j].q, W.Take))]
      ensures m == if old(view)[j].q.stop then None else W.Pop(old(view)[j].q).1
    {
      m := slots[j].Take();
      view := view[j := view[j].(q := W.Act(view[j].q, W.Take))];
      Framed(j);
    }

    method WriterFail(j: nat)
      requires Valid() && j < |slots|
      modifies this`view, slots[j].Repr
      ensures Valid() && Repr == old(Repr)
      ensures rates[..] == old(rates[..]) && macs[..] == old(macs[..])
      ensures view == old(view)[j := old(view)[j].(q := W.Act(old(view)[j].q, W.SendFailed))]
    {
      slots[j].FailWriter();
      view := view[j := view[j].(q := W.Act(view[j].q, W.SendFailed))];
      Framed(j);
    }
  }
}
