/**
 Which runs overtake: the 32-bit counter can only fall back to 0 past a waiting FIFO copy if about
 2^32 copies wait at once, which the 32-bit `size` of the source does not allow either, or if a
 delay is negative, which is what `return DROP` in a rate handler amounts to.
 */
module ShortQueues {
  import opened Packets
  import opened Queue
  import opened Delivery
  import opened DeliveryRuns
  import opened Overtaking

  // ---------- What the counter counts ----------

  /** How many FIFO copies wait under time t. */
  function WaitingUnder(ws: seq<Waiting>, t: nat): (n: nat)
    ensures n <= |ws|
  {
    if ws == [] then 0
    else
      var last := ws[|ws| - 1];
      WaitingUnder(ws[..|ws| - 1], t) + (if last.ticket.fifo && last.node.forwardTime == t then 1 else 0)
  }

  /** Until the clock passes the greatest time given out, the counter is at most the number of FIFO copies waiting under it. */
  ghost predicate CounterCovered(s: State) {
    s.clock <= s.keys.maxForwardTime ==> s.keys.counter <= WaitingUnder(s.waiting, s.keys.maxForwardTime)
  }

  lemma {:induction false} RemovalKeepsOthers(ws: seq<Waiting>, i: nat, t: nat)
    requires i < |ws| && ws[i].node.forwardTime != t
    ensures WaitingUnder(ws[..i] + ws[i + 1..], t) == WaitingUnder(ws, t)
  {
    var kept, n := ws[..i] + ws[i + 1..], |ws| - 1;
    if i == n {
      assert kept == ws[..n];
    } else {
      assert kept[..n - 1] == ws[..n][..i] + ws[..n][i + 1..];
      RemovalKeepsOthers(ws[..n], i, t);
    }
  }

  lemma OneMoreUnder(ws: seq<Waiting>, w: Waiting, t: nat)
    ensures WaitingUnder(ws + [w], t) == WaitingUnder(ws, t) + if w.ticket.fifo && w.node.forwardTime == t then 1 else 0
  {
    assert (ws + [w])[..|ws|] == ws;
  }

  lemma CounterCoveredStep(s: State, e: Event)
    requires CounterCovered(s) && Enabled(s, e)
    ensures CounterCovered(Step(s, e))
  {
    if e.Offer? && !Refused(s, e) && Queues(s, e) {
      var t := TicketFor(s, e);
      OneMoreUnder(s.waiting, Waiting(t, NodeFor(s.keys, t.packet, t.requested)), NextKeying(s.keys, t.requested).maxForwardTime);
    } else if e.Release? && e.now <= s.keys.maxForwardTime {
      RemovalKeepsOthers(s.waiting, e.i, s.keys.maxForwardTime);
    }
  }

  lemma {:induction false} CounterIsCovered(fifo: bool, events: seq<Event>)
    requires Legal(fifo, events)
    ensures CounterCovered(After(fifo, events))
  {
    if events != [] {
      CounterIsCovered(fifo, events[..|events| - 1]);
      CounterCoveredStep(After(fifo, events[..|events| - 1]), events[|events| - 1]);
    }
  }

  /** A step that overtakes finds 2^32 - 1 copies waiting, or asks for a negative delay. */
  lemma OvertakingNeedsCrowd(fifo: bool, events: seq<Event>, e: Event)
    requires Legal(fifo, events) && Enabled(After(fifo, events), e) && Overtakes(After(fifo, events), e)
    ensures |After(fifo, events).waiting| >= UINT_RANGE - 1 || e.delayMs < 0.0
  {
    CounterIsCovered(fifo, events);
    assert e.delayMs >= 0.0 ==> RequestedTime(e.now, e.delayMs) >= e.now;
  }

  // ---------- FIFO order without a condition on the counter ----------

  ghost predicate NoNegativeDelay(events: seq<Event>) {
    forall i :: 0 <= i < |events| && events[i].Offer? ==> events[i].delayMs >= 0.0
  }

  /** At no point of the run more than `most` copies wait. */
  ghost predicate NeverMore(fifo: bool, events: seq<Event>, most: nat) {
    |After(fifo, events).waiting| <= most && (events == [] || NeverMore(fifo, events[..|events| - 1], most))
  }

  const CROWD: nat := UINT_RANGE - 2

  lemma {:induction false} ShortQueuesNeverOvertake(fifo: bool, events: seq<Event>)
    requires Legal(fifo, events) && NoNegativeDelay(events) && NeverMore(fifo, events, CROWD)
    ensures NeverOvertakes(fifo, events)
  {
    if events != [] {
      var before, e := events[..|events| - 1], events[|events| - 1];
      ShortQueuesNeverOvertake(fifo, before);
      if Overtakes(After(fifo, before), e) {
        OvertakingNeedsCrowd(fifo, before, e);
      }
    }
  }

  /** However long the run: with FIFO on throughout the queue is a plain list. */
  lemma ShortQueueRefinesList(events: seq<Event>)
    requires Legal(true, events) && NoNegativeDelay(events) && NeverMore(true, events, CROWD) && NoModeChange(events)
    ensures InKeyOrder(After(true, events).waiting)
    ensures Departed(After(true, events).sent) + Tickets(After(true, events).waiting) == After(true, events).accepted
    ensures forall i: nat, now: nat :: Enabled(After(true, events), Release(i, now)) ==> i == 0
  {
    ShortQueuesNeverOvertake(true, events);
    FifoRefinesList(events);
  }

  /** However long the run, and however often the mode is changed: FIFO copies leave in the order of acceptance. */
  lemma ShortQueueKeepsFifoOrder(fifo: bool, events: seq<Event>)
    requires Legal(fifo, events) && NoNegativeDelay(events) && NeverMore(fifo, events, CROWD)
    ensures LeavesInOrder(After(fifo, events)) && FifoDepartIncreasing(After(fifo, events).sent)
  {
    ShortQueuesNeverOvertake(fifo, events);
    TogglingKeepsFifoOrder(fifo, events);
  }

  // ---------- Negative delays ----------

  /** A copy of one byte that wants to leave at 1 ms, and later ones that want to leave 1 ms before they came. */
  const FIRST := Offer(1, LeftToRight, None, 1.0, 0, 0)
  const EARLY := Offer(1, LeftToRight, None, -1.0, LATE, LATE)
  /** A copy that stays: it wants to leave after 1 s. */
  const KEEPER := Offer(1, RightToLeft, None, 1000.0, 0, 0)
  const LATE: nat := 1_000_001

  ghost predicate Keeps(ws: seq<Waiting>) {
    ws != [] && !ws[0].ticket.fifo && ws[0].node.forwardTime == 1_000_000_000
  }

  /** Only the keeper waits; n FIFO copies have been stored under 1 ms after the first one. */
  ghost predicate Idle(s: State, n: nat) {
    && Keeps(s.waiting) && |s.waiting| == 1 && !s.draining && s.clock == LATE
    && n < UINT_RANGE && s.keys == Keying(true, 1_000_000, n)
  }

  /** The run may happen, never has more than three copies waiting, and leads to s. */
  ghost predicate Reaches(events: seq<Event>, s: State) {
    Legal(false, events) && NeverMore(false, events, 3) && After(false, events) == s
  }

  lemma ReachesOn(events: seq<Event>, s: State, e: Event) returns (longer: seq<Event>)
    requires Reaches(events, s) && Enabled(s, e) && |Step(s, e).waiting| <= 3
    ensures Reaches(longer, Step(s, e))
  {
    longer := events + [e];
    assert longer[..|longer| - 1] == events;
    OneMoreEvent(false, events, e);
  }

  lemma KeeperIsNotHead(s: State, i: nat)
    requires Keeps(s.waiting) && 1 <= i < |s.waiting|
    requires forall j :: 1 <= j < |s.waiting| ==> s.waiting[j].node.forwardTime == 1_000_000 && s.waiting[i].node.counter <= s.waiting[j].node.counter
    ensures IsHead(Nodes(s.waiting), s.waiting[i].node)
  {
    var ns := Nodes(s.waiting);
    assert ns[i] == s.waiting[i].node;
    forall m | m in ns ensures AtMost(ns[i], m) {
      var j :| 0 <= j < |ns| && ns[j] == m;
      assert m == s.waiting[j].node;
    }
  }

  /** Only the keeper and one copy that is due wait. */
  ghost predicate Pair(s: State) {
    && Keeps(s.waiting) && |s.waiting| == 2 && !s.draining && s.clock <= LATE
    && s.waiting[1].node.forwardTime == 1_000_000
  }

  function Flushed(s: State): State {
    Step(Step(Step(s, TimerFires), Release(1, LATE)), EndDrain(LATE, LATE))
  }

  lemma FlushSteps(s: State)
    requires Pair(s)
    ensures var f := Step(s, TimerFires); var r := Step(f, Release(1, LATE));
            && Enabled(s, TimerFires) && Enabled(f, Release(1, LATE)) && Enabled(r, EndDrain(LATE, LATE))
            && f.waiting == s.waiting && r.waiting == s.waiting[..1]
    ensures var t := Flushed(s); !t.draining && t.clock == LATE && t.waiting == s.waiting[..1] && t.keys == s.keys
  {
    var f := Step(s, TimerFires);
    KeeperIsNotHead(f, 1);
    assert Step(f, Release(1, LATE)).waiting == s.waiting[..1];
  }

  /** The queue timer fires and releases the copy that waits beside the keeper. */
  lemma Flush(events: seq<Event>, s: State) returns (longer: seq<Event>)
    requires Reaches(events, s) && Pair(s)
    ensures Reaches(longer, Flushed(s))
  {
    FlushSteps(s);
    var fired := ReachesOn(events, s, TimerFires);
    var released := ReachesOn(fired, Step(s, TimerFires), Release(1, LATE));
    longer := ReachesOn(released, Step(Step(s, TimerFires), Release(1, LATE)), EndDrain(LATE, LATE));
  }

  lemma StartIdle() returns (events: seq<Event>, s: State)
    ensures Reaches(events, s) && Idle(s, 0)
  {
    assert RequestedTime(0, 1000.0) == 1_000_000_000 && RequestedTime(0, 1.0) == 1_000_000;
    var s0 := Initial(false);
    var s1 := Step(s0, KEEPER);
    var s2 := Step(s1, SetFifo(true));
    var s3 := Step(s2, FIRST);
    events := ReachesOn([], s0, KEEPER);
    events := ReachesOn(events, s1, SetFifo(true));
    events := ReachesOn(events, s2, FIRST);
    events := Flush(events, s3);
    s := Flushed(s3);
    FlushSteps(s3);
  }

  lemma StoreEarly(s: State, n: nat)
    requires n < UINT_RANGE && s.keys == Keying(true, 1_000_000, n) && s.waiting != [] && !s.draining && s.clock == LATE
    ensures var r := Step(s, EARLY);
            && Enabled(s, EARLY) && |r.waiting| == |s.waiting| + 1 && r.waiting[..|s.waiting|] == s.waiting
            && !r.draining && r.clock == LATE && r.keys == Keying(true, 1_000_000, Incremented(n))
            && r.waiting[|s.waiting|].ticket.fifo && r.waiting[|s.waiting|].ticket.packet.copy == |s.accepted|
            && r.waiting[|s.waiting|].node.forwardTime == 1_000_000 && r.waiting[|s.waiting|].node.counter == Incremented(n)
            && |r.accepted| == |s.accepted| + 1
  {
    assert RequestedTime(LATE, -1.0) == 1;
  }

  /** Storing an early copy and letting it go leaves the counter one higher. */
  lemma Turn(events: seq<Event>, s: State, n: nat) returns (longer: seq<Event>, t: State)
    requires Reaches(events, s) && Idle(s, n) && n + 1 < UINT_RANGE
    ensures Reaches(longer, t) && Idle(t, n + 1)
  {
    StoreEarly(s, n);
    longer := ReachesOn(events, s, EARLY);
    longer := Flush(longer, Step(s, EARLY));
    t := Flushed(Step(s, EARLY));
    FlushSteps(Step(s, EARLY));
  }

  lemma {:induction false} ManyTurns(n: nat) returns (events: seq<Event>, s: State)
    requires n < UINT_RANGE
    ensures Reaches(events, s) && Idle(s, n)
  {
    if n == 0 {
      events, s := StartIdle();
    } else {
      events, s := ManyTurns(n - 1);
      events, s := Turn(events, s, n - 1);
    }
  }

  /**
   With negative delays the counter wraps in a queue of three: 2^32 copies that ask to leave 1 ms
   before they came, all within the millisecond after the first copy was due, and one that waits.
   */
  lemma NegativeDelaysBreakFifo() returns (events: seq<Event>)
    ensures Legal(false, events) && NeverMore(false, events, 3) && !LeavesInOrder(After(false, events))
  {
    var turns, s := ManyTurns(UINT_RANGE - 2);
    StoreEarly(s, UINT_RANGE - 2);
    var one := ReachesOn(turns, s, EARLY);
    var s1 := Step(s, EARLY);
    StoreEarly(s1, UINT_RANGE - 1);
    var two := ReachesOn(one, s1, EARLY);
    var s2 := Step(s1, EARLY);
    events := SendNewer(two, s2);
  }

  lemma SendNewer(events: seq<Event>, s: State) returns (longer: seq<Event>)
    requires Reaches(events, s) && Keeps(s.waiting) && |s.waiting| == 3 && !s.draining && s.clock == LATE
    requires forall j :: 1 <= j < 3 ==> s.waiting[j].ticket.fifo && s.waiting[j].node.forwardTime == 1_000_000
    requires s.waiting[2].node.counter == 0
    requires s.waiting[1].ticket.packet.copy < s.waiting[2].ticket.packet.copy
    ensures Legal(false, longer) && NeverMore(false, longer, 3) && !LeavesInOrder(After(false, longer))
  {
    var fired := ReachesOn(events, s, TimerFires);
    var f := Step(s, TimerFires);
    KeeperIsNotHead(f, 2);
    longer := ReachesOn(fired, f, Release(2, LATE));
    var r := Step(f, Release(2, LATE));
    EveryRun(false, longer);
    assert Departed(r.sent)[|s.sent|] == s.waiting[2].ticket;
    assert Tickets(r.waiting)[1] == s.waiting[1].ticket;
    if LeavesInOrder(r) {
      SentBeforeWaiting(r, s.waiting[2].ticket, s.waiting[1].ticket);
    }
  }
}
