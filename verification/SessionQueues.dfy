/** One session slot with its two linked message queues, updated in place. */
module SessionQueues {
  import opened Bytes
  import opened Proto
  import TapHub
  import W = Writer

  class Node {
    var msg: W.Msg
    var next: Node?

    constructor (msg: W.Msg)
      ensures this.msg == msg && next == null
    {
      this.msg := msg;
      next := null;
    }
  }

  /** A singly linked list known by its head and tail. */
  class Queue {
    var head: Node?
    var tail: Node?
    ghost var nodes: seq<Node>
    ghost var contents: seq<W.Msg>
    ghost var Repr: set<object>

    ghost predicate Valid()
      reads this, Repr
    {
      && this in Repr && |nodes| == |contents|
      && (forall i | 0 <= i < |nodes| :: nodes[i] in Repr && nodes[i].msg == contents[i])
      && (forall i | 0 <= i < |nodes| - 1 :: nodes[i].next == nodes[i + 1])
      && (forall i, j | 0 <= i < j < |nodes| :: nodes[i] != nodes[j])
      && (if nodes == [] then head == tail == null
          else head == nodes[0] && tail == nodes[|nodes| - 1] && nodes[|nodes| - 1].next == null)
    }

    constructor ()
      ensures Valid() && contents == [] && Repr == {this}
    {
      head, tail, nodes, contents, Repr := null, null, [], [], {this};
    }

    method Reset()
      requires Valid()
      modifies this
      ensures Valid() && Repr == old(Repr) && contents == []
    {
      head, tail, nodes, contents := null, null, [], [];
    }

    method Append(n: Node)
      requires Valid() && n !in Repr && n.next == null
      modifies Repr
      ensures Valid() && Repr == old(Repr) + {n}
      ensures contents == old(contents) + [n.msg]
    {
      if tail != null {
        tail.next := n;
      } else {
        head := n;
      }
      tail := n;
      nodes, contents, Repr := nodes + [n], contents + [n.msg], Repr + {n};
    }

    method Pop() returns (n: Node?)
      requires Valid()
      modifies Repr
      ensures Valid() && Repr == old(Repr)
      ensures n == null <==> old(contents) == []
      ensures n == null ==> contents == []
      ensures n != null ==> n.msg == old(contents)[0] && contents == old(contents)[1..] && n.next == null
    {
      n := head;
      if n == null {
        return;
      }
      head := n.next;
      if head == null {
        tail := null;
      }
      n.next := null;
      nodes, contents := nodes[1..], contents[1..];
    }
  }

  lemma SameBudget(q: W.Writer, c: seq<W.Msg>, t: seq<W.Msg>, payload: seq<byte>, now: int)
    ensures W.OverBudget(q.(ctrl := c, tap := t), payload, now) == W.OverBudget(q, payload, now)
    ensures W.OpenWindow(q.(ctrl := c, tap := t), now) == W.OpenWindow(q, now).(ctrl := c, tap := t)
    ensures W.CountDrop(W.OpenWindow(q.(ctrl := c, tap := t), now)) == W.CountDrop(W.OpenWindow(q, now)).(ctrl := c, tap := t)
  {
  }

  /** Whether a flood of this payload would break the budget, and the bytes already queued this second. */
  method CheckBudget(q: W.Writer, payload: seq<byte>, now: int) returns (over: bool, inWindow: int)
    ensures over == W.OverBudget(q, payload, now) && inWindow == W.WindowBytes(q, now)
  {
    var frameBytes := W.QueuedBytes(|payload|);
    var budget := if q.limit == 0 then W.DEFAULT_TAP_QUEUE_LIMIT else q.limit;
    inWindow := if q.winSec != now then 0 else q.winBytes;
    over := frameBytes > budget || q.pending > budget - frameBytes || inWindow > budget - frameBytes;
  }

  /** A session slot. Its scalar fields are kept in one record; its messages are in the two lists. */
  class ActiveSession {
    var s: TapHub.Session
    const ctrl: Queue
    const tap: Queue
    ghost var Repr: set<object>

    ghost predicate Valid()
      reads this`Repr, Repr - {this}
    {
      && this in Repr && ctrl in Repr && tap in Repr
      && ctrl.Repr <= Repr && tap.Repr <= Repr && ctrl.Repr !! tap.Repr
      && this !in ctrl.Repr && this !in tap.Repr
      && ctrl.Valid() && tap.Valid()
    }

    ghost function Writer(): W.Writer
      reads this, ctrl, tap
    {
      s.q.(ctrl := ctrl.contents, tap := tap.contents)
    }

    ghost function View(): TapHub.Session
      reads this, ctrl, tap
    {
      s.(q := Writer())
    }

    constructor ()
      ensures Valid() && fresh(this) && fresh(Repr) && View() == TapHub.NO_SESSION
    {
      s := TapHub.NO_SESSION;
      var c := new Queue();
      var t := new Queue();
      ctrl, tap := c, t;
      Repr := {this, c, t};
    }

    /** Clears a slot's memory. */
    method Wipe()
      requires Valid()
      modifies Repr
      ensures Valid() && Repr == old(Repr) && View() == TapHub.NO_SESSION
    {
      ctrl.Reset();
      tap.Reset();
      s := TapHub.NO_SESSION;
    }

    /** Fills a wiped slot for a new session; a slot whose writer did not start stays free. */
    method Fill(fd: int, sid: int, net: int, nodePk: int, isTap: bool, c: TapHub.Config, started: bool)
      requires Valid() && View() == TapHub.NO_SESSION
      modifies this
      ensures Valid() && Repr == old(Repr)
      ensures View() == TapHub.NewSession(fd, sid, net, nodePk, isTap, c, started)
    {
      s := s.(active := started, fd := fd, net := net, nodePk := nodePk, isTap := isTap, socks := c.socks,
              ttl := TapHub.OrDefault(c.ttl, TapHub.DEFAULT_MAC_TTL_SEC),
              netLimit := c.netLimit, sessLimit := c.sessLimit,
              maxMac := TapHub.OrDefault(c.maxMac, TapHub.DEFAULT_MAX_MAC_PER_SESSION),
              clientToClient := c.clientToClient, l2Control := c.l2Control,
              q := s.q.(sid := sid, started := started,
                        limit := TapHub.OrDefault(c.queueLimit, W.DEFAULT_TAP_QUEUE_LIMIT)));
    }

    /** Marks the slot free and stops its writer. */
    method Retire()
      requires Valid()
      modifies Repr
      ensures Valid() && Repr == old(Repr)
      ensures View() == old(View()).(active := false, q := TapHub.StopWriter(old(Writer())))
    {
      s := s.(active := false);
      StopWriter();
    }

    /** Moves a limited session's flood window to the current second and looks at its budget. */
    method OpenFlood(now: int) returns (ok: bool)
      requires Valid()
      modifies this
      ensures Valid() && Repr == old(Repr)
      ensures View() == TapHub.Charge(old(View()), now, false)
      ensures ok == !(old(s).sessLimit > 0 && TapHub.FloodsIn(old(View()), now) >= old(s).sessLimit)
    {
      if s.sessLimit > 0 {
        s := s.(floodWindow := now, floodCount := if s.floodWindow != now then 0 else s.floodCount);
        return s.floodCount < s.sessLimit;
      }
      ok := true;
    }

    /** Spends one flood of a limited session's budget. */
    method SpendFlood(ghost s0: TapHub.Session, now: int)
      requires Valid() && View() == TapHub.Charge(s0, now, false)
      modifies this
      ensures Valid() && Repr == old(Repr)
      ensures View() == TapHub.Charge(s0, now, true)
    {
      if s.sessLimit > 0 {
        s := s.(floodCount := s.floodCount + 1);
      }
    }

    method AppendControl(msg: W.Msg)
      requires Valid()
      modifies Repr
      ensures Valid() && fresh(Repr - old(Repr))
      ensures View() == old(View()).(q := old(Writer()).(ctrl := old(ctrl.contents) + [msg]))
    {
      var n := new Node(msg);
      ctrl.Append(n);
      Repr := Repr + {n};
    }

    method AppendTapNode(msg: W.Msg)
      requires Valid()
      modifies Repr
      ensures Valid() && fresh(Repr - old(Repr))
      ensures View() == old(View()).(q := old(Writer()).(tap := old(tap.contents) + [msg]))
    {
      var n := new Node(msg);
      tap.Append(n);
      Repr := Repr + {n};
    }

    /** Queues a TAP message and counts its bytes, a flood's also against the current second. */
    method AppendTap(payload: seq<byte>, flood: bool)
      requires Valid()
      modifies Repr
      ensures Valid() && fresh(Repr - old(Repr))
      ensures View() == old(View()).(q := W.AppendTap(old(Writer()), payload, flood))
    {
      s := s.(q := W.CountBytes(s.q, W.QueuedBytes(|payload|), flood));
      AppendTapNode(W.Msg(MSG_TAP_FRAME, s.q.sid, payload));
    }

    method EnqueueControl(ty: byte, payload: seq<byte>) returns (ok: bool)
      requires Valid()
      modifies Repr
      ensures Valid() && fresh(Repr - old(Repr))
      ensures View() == old(View()).(q := W.EnqueueControl(old(Writer()), ty, payload))
      ensures ok == W.Running(old(Writer()))
    {
      if !s.q.started || s.q.stop {
        return false;
      }
      AppendControl(W.Msg(ty, s.q.sid, payload));
      ok := true;
    }

    /** The flood budget check: moves the window to the current second and counts a drop. */
    method OverBudget(payload: seq<byte>, now: int) returns (over: bool)
      requires Valid()
      modifies this
      ensures Valid() && Repr == old(Repr)
      ensures over == W.OverBudget(old(Writer()), payload, now)
      ensures var q := W.OpenWindow(old(Writer()), now);
              View() == old(View()).(q := if over then W.CountDrop(q) else q)
    {
      var inWindow;
      over, inWindow := CheckBudget(s.q, payload, now);
      SameBudget(s.q, ctrl.contents, tap.contents, payload, now);
      var q := s.q.(winSec := now, winBytes := inWindow);
      s := s.(q := if over then q.(drops := Wrap32(q.drops + 1)) else q);
    }

    method EnqueueTap(payload: seq<byte>, flood: bool, now: int) returns (rc: W.Outcome)
      requires Valid()
      modifies Repr
      ensures Valid() && fresh(Repr - old(Repr))
      ensures View() == old(View()).(q := W.EnqueueTap(old(Writer()), payload, flood, now))
      ensures rc == W.Verdict(old(Writer()), payload, flood, now)
    {
      if !s.q.started || s.q.stop {
        return W.Refused;
      }
      if flood {
        var over := OverBudget(payload, now);
        if over {
          return W.Dropped;
        }
      }
      AppendTap(payload, flood);
      rc := W.Queued;
    }

    method PopControl() returns (n: Node?)
      requires Valid()
      modifies Repr
      ensures Valid() && Repr == old(Repr)
      ensures n == null <==> old(ctrl.contents) == []
      ensures n != null ==> n.msg == old(ctrl.contents)[0]
      ensures View() == old(View()).(q := old(Writer()).(ctrl := if n == null then [] else old(ctrl.contents)[1..]))
    {
      n := ctrl.Pop();
    }

    method PopTap() returns (n: Node?)
      requires Valid()
      modifies Repr
      ensures Valid() && Repr == old(Repr)
      ensures n == null <==> old(tap.contents) == []
      ensures n != null ==> n.msg == old(tap.contents)[0]
      ensures View() == old(View()).(q := old(Writer()).(tap := if n == null then [] else old(tap.contents)[1..]))
    {
      n := tap.Pop();
    }

    method ReleaseBytes(n: nat)
      requires Valid()
      modifies this
      ensures Valid() && Repr == old(Repr)
      ensures View() == old(View()).(q := W.ReleaseBytes(old(Writer()), n))
    {
      s := s.(q := W.ReleaseBytes(s.q, n));
    }

    method QueuePop() returns (m: Option<W.Msg>)
      requires Valid()
      modifies Repr
      ensures Valid() && Repr == old(Repr)
      ensures View() == old(View()).(q := W.Pop(old(Writer())).0)
      ensures m == W.Pop(old(Writer())).1
    {
      var n := PopControl();
      if n != null {
        return Some(n.msg);
      }
      n := PopTap();
      if n == null {
        return None;
      }
      ReleaseBytes(W.QueuedBytes(|n.msg.payload|));
      m := Some(n.msg);
    }

    method ClearControl()
      requires Valid()
      modifies Repr
      ensures Valid() && Repr == old(Repr)
      ensures View() == old(View()).(q := old(Writer()).(ctrl := []))
    {
      var n := PopControl();
      while n != null
        invariant Valid() && Repr == old(Repr)
        invariant n == null ==> ctrl.contents == []
        invariant View() == old(View()).(q := old(Writer()).(ctrl := ctrl.contents))
        decreases |ctrl.contents|, n != null
      {
        n := PopControl();
      }
    }

    method ClearTap()
      requires Valid()
      modifies Repr
      ensures Valid() && Repr == old(Repr)
      ensures View() == old(View()).(q := old(Writer()).(tap := []))
    {
      var n := PopTap();
      while n != null
        invariant Valid() && Repr == old(Repr)
        invariant n == null ==> tap.contents == []
        invariant View() == old(View()).(q := old(Writer()).(tap := tap.contents))
        decreases |tap.contents|, n != null
      {
        n := PopTap();
      }
    }

    method QueueClear()
      requires Valid()
      modifies Repr
      ensures Valid() && Repr == old(Repr)
      ensures View() == old(View()).(q := W.Clear(old(Writer())))
    {
      ClearControl();
      ClearTap();
      s := s.(q := s.q.(pending := 0));
    }

    /** The writer thread's locked step: clear everything if told to stop, else take a message. */
    method Take() returns (m: Option<W.Msg>)
      requires Valid()
      modifies Repr
      ensures Valid() && Repr == old(Repr)
      ensures View() == old(View()).(q := W.Act(old(Writer()), W.Take))
      ensures m == if old(s).q.stop then None else W.Pop(old(Writer())).1
    {
      if s.q.stop {
        QueueClear();
        return None;
      }
      m := QueuePop();
    }

    /** The writer thread's reaction to a failed send. */
    method FailWriter()
      requires Valid()
      modifies Repr
      ensures Valid() && Repr == old(Repr)
      ensures View() == old(View()).(q := W.Act(old(Writer()), W.SendFailed))
    {
      s := s.(q := s.q.(stop := true));
      QueueClear();
    }

    /** Stop request, exit of the writer thread and join, taken as one step. */
    method StopWriter()
      requires Valid()
      modifies Repr
      ensures Valid() && Repr == old(Repr)
      ensures View() == old(View()).(q := TapHub.StopWriter(old(Writer())))
    {
      if !s.q.started {
        return;
      }
      s := s.(q := s.q.(stop := true));
      QueueClear();
      s := s.(q := s.q.(started := false));
    }
  }
}
