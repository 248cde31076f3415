/**
 How far the FIFO order of the queue goes: a 32-bit counter tells copies stored under the same time
 apart. The order can be broken exactly when the counter falls back to 0 while such a copy waits.
 */
module Overtaking {
  import opened Packets
  import opened Queue
  import opened Delivery
  import opened DeliveryRuns

  // ---------- Going on from a state ----------

  function Onward(s: State, more: seq<Event>): State
    decreases |more|
  {
    if more == [] then s else Onward(Step(s, more[0]), more[1..])
  }

  /** The handler may go on with these steps, without a packet arriving. */
  ghost predicate MayGoOn(s: State, more: seq<Event>)
    decreases |more|
  {
    more == [] || (!more[0].Offer? && Enabled(s, more[0]) && MayGoOn(Step(s, more[0]), more[1..]))
  }

  /** When packets stop arriving, the FIFO copies leave in the order of acceptance. */
  ghost predicate OrderSafe(s: State) {
    forall more: seq<Event> :: MayGoOn(s, more) ==> LeavesInOrder(Onward(s, more))
  }

  /** At every moment of the run. */
  ghost predicate OrderAlwaysSafe(fifo: bool, events: seq<Event>) {
    OrderSafe(After(fifo, events)) && (events == [] || OrderAlwaysSafe(fifo, events[..|events| - 1]))
  }

  lemma {:induction false} OrderKept(s: State, more: seq<Event>)
    requires KeysGrow(s) && LeavesInOrder(s) && MayGoOn(s, more)
    ensures LeavesInOrder(Onward(s, more))
    decreases |more|
  {
    if more != [] {
      KeysGrowStep(s, more[0]);
      LeavesInOrderStep(s, more[0]);
      OrderKept(Step(s, more[0]), more[1..]);
    }
  }

  // ---------- Letting the later copy pass ----------

  lemma {:induction false} SomeHead(ns: seq<QueueNode>) returns (h: nat)
    requires ns != []
    ensures h < |ns| && IsHead(ns, ns[h])
  {
    if |ns| == 1 {
      h := 0;
    } else {
      var n := |ns| - 1;
      var g := SomeHead(ns[..n]);
      h := if Before(ns[n], ns[g]) then n else g;
      forall m | m in ns ensures AtMost(ns[h], m) {
        assert m == ns[n] || m in ns[..n];
        assert AtMost(ns[g], ns[n]) || Before(ns[n], ns[g]);
      }
    }
  }

  lemma HeadIsNeither(ns: seq<QueueNode>, h: nat, n: nat, o: nat)
    requires h < |ns| && IsHead(ns, ns[h]) && n < |ns| && o < |ns| && AtMost(ns[n], ns[o]) && !IsHead(ns, ns[n])
    ensures h != n && h != o && ns[h].forwardTime <= ns[n].forwardTime
  {
    var m :| m in ns && Before(m, ns[n]);
    assert AtMost(ns[h], m);
  }

  /** Position of entry i once entry h is gone. */
  function Moved(i: nat, h: nat): nat
    requires i != h
  {
    if i < h then i else i - 1
  }

  /** `first` has left, while `second` still waits. */
  ghost predicate HasPassed(s: State, first: Ticket, second: Ticket) {
    Conserved(s) && first in Departed(s.sent) && second in Tickets(s.waiting)
  }

  /** In the timer branch; entry n, in the order of arrival, sorts no later than entry o. */
  ghost predicate CanPass(s: State, n: nat, o: nat) {
    && Conserved(s) && s.draining && n < |s.waiting| && o < |s.waiting| && n != o
    && AtMost(s.waiting[n].node, s.waiting[o].node)
  }

  lemma PassNow(s: State, n: nat, o: nat, now: nat)
    requires CanPass(s, n, o) && IsHead(Nodes(s.waiting), s.waiting[n].node)
    requires s.clock <= now && s.waiting[n].node.forwardTime < now
    ensures Enabled(s, Release(n, now))
    ensures HasPassed(Step(s, Release(n, now)), s.waiting[n].ticket, s.waiting[o].ticket)
  {
    var r := Step(s, Release(n, now));
    ConservedRelease(s, n, now);
    assert Departed(r.sent)[|s.sent|] == s.waiting[n].ticket;
    assert Tickets(r.waiting)[Moved(o, n)] == s.waiting[o].ticket;
  }

  lemma ClearHead(s: State, n: nat, o: nat, now: nat) returns (h: nat)
    requires CanPass(s, n, o) && !IsHead(Nodes(s.waiting), s.waiting[n].node)
    requires s.clock <= now && s.waiting[n].node.forwardTime < now
    ensures h != n && h != o && Enabled(s, Release(h, now))
    ensures var r := Step(s, Release(h, now));
            && CanPass(r, Moved(n, h), Moved(o, h)) && |r.waiting| < |s.waiting|
            && r.waiting[Moved(n, h)] == s.waiting[n] && r.waiting[Moved(o, h)] == s.waiting[o]
  {
    h := SomeHead(Nodes(s.waiting));
    HeadIsNeither(Nodes(s.waiting), h, n, o);
    ConservedRelease(s, h, now);
  }

  /** The timer branch can release entry n and leave entry o behind. */
  lemma {:induction false} LetPass(s: State, n: nat, o: nat) returns (more: seq<Event>)
    requires CanPass(s, n, o)
    ensures MayGoOn(s, more) && HasPassed(Onward(s, more), s.waiting[n].ticket, s.waiting[o].ticket)
    decreases |s.waiting|
  {
    var now := s.clock + s.waiting[n].node.forwardTime + 1;
    if IsHead(Nodes(s.waiting), s.waiting[n].node) {
      PassNow(s, n, o, now);
      more := [Release(n, now)];
    } else {
      var h := ClearHead(s, n, o, now);
      var rest := LetPass(Step(s, Release(h, now)), Moved(n, h), Moved(o, h));
      more := GoOn(s, Release(h, now), rest);
    }
  }

  lemma GoOn(s: State, e: Event, rest: seq<Event>) returns (more: seq<Event>)
    requires !e.Offer? && Enabled(s, e) && MayGoOn(Step(s, e), rest)
    ensures MayGoOn(s, more) && Onward(s, more) == Onward(Step(s, e), rest)
  {
    more := [e] + rest;
    assert more[0] == e && more[1..] == rest;
  }

  lemma SentBeforeWaiting(s: State, first: Ticket, second: Ticket)
    requires HasPassed(s, first, second) && LeavesInOrder(s) && first.fifo && second.fifo
    ensures first.packet.copy < second.packet.copy
  {
    FifoMembers(Departed(s.sent));
    FifoMembers(Tickets(s.waiting));
    FifoKeepsIncrease(s.accepted);
    var left, right := Fifo(Departed(s.sent)), Fifo(Tickets(s.waiting));
    var x :| 0 <= x < |left| && left[x] == first;
    var y :| 0 <= y < |right| && right[y] == second;
    assert (left + right)[x] == first && (left + right)[|left| + y] == second;
  }

  /** When the timer fires after an overtaking step, an earlier copy sorts no sooner than the new one. */
  lemma OvertakenCopy(s: State, e: Event) returns (o: nat)
    requires Conserved(s) && Enabled(s, e) && Overtakes(s, e)
    ensures o < |s.waiting| && s.waiting[o].ticket.fifo && s.waiting[o].ticket.packet.copy < |s.accepted|
    ensures var r := Step(Step(s, e), TimerFires);
            && Enabled(Step(s, e), TimerFires) && CanPass(r, |s.waiting|, o)
            && r.waiting[o] == s.waiting[o] && r.waiting[|s.waiting|].ticket == TicketFor(s, e)
  {
    o :| 0 <= o < |s.waiting| && s.waiting[o].ticket.fifo && s.waiting[o].node.forwardTime == s.keys.maxForwardTime;
    assert Tickets(s.waiting)[o] in multiset(s.accepted);
    ConservedStep(s, e);
  }

  /** After an overtaking step the queue timer can release the new copy and leave an earlier one behind. */
  lemma OvertakingBreaksOrder(s: State, e: Event)
    requires Conserved(s) && Enabled(s, e) && Overtakes(s, e)
    ensures !OrderSafe(Step(s, e))
  {
    var o := OvertakenCopy(s, e);
    var rest := LetPass(Step(Step(s, e), TimerFires), |s.waiting|, o);
    var more := GoOn(Step(s, e), TimerFires, rest);
    if LeavesInOrder(Onward(Step(s, e), more)) {
      SentBeforeWaiting(Onward(Step(s, e), more), TicketFor(s, e), s.waiting[o].ticket);
    }
  }

  /**
   The FIFO order is safe at every moment of a run, whatever the mode changes, exactly when the
   counter never wraps past a waiting copy.
   */
  lemma {:induction false} OrderSafeExactlyWithoutOvertaking(fifo: bool, events: seq<Event>)
    requires Legal(fifo, events)
    ensures OrderAlwaysSafe(fifo, events) <==> NeverOvertakes(fifo, events)
  {
    if NeverOvertakes(fifo, events) {
      EveryRunInOrder(fifo, events);
      forall more: seq<Event> | MayGoOn(After(fifo, events), more) ensures LeavesInOrder(Onward(After(fifo, events), more)) {
        OrderKept(After(fifo, events), more);
      }
    }
    if events != [] {
      var before, e := events[..|events| - 1], events[|events| - 1];
      OrderSafeExactlyWithoutOvertaking(fifo, before);
      if Overtakes(After(fifo, before), e) {
        EveryRun(fifo, before);
        OvertakingBreaksOrder(After(fifo, before), e);
      }
    }
  }

  // ---------- The 32-bit counter ----------

  /** In a run of fewer than 2^32 steps no copy overtakes another, whatever the delays. */
  lemma {:induction false} ShortRunsNeverOvertake(fifo: bool, events: seq<Event>)
    requires |events| < UINT_RANGE
    ensures NeverOvertakes(fifo, events) && After(fifo, events).keys.counter <= |events|
  {
    if events != [] {
      ShortRunsNeverOvertake(fifo, events[..|events| - 1]);
    }
  }
}
