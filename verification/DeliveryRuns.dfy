/** What holds in every run of the packet handler, whatever the delays, capacities, clock readings and mode changes. */
module DeliveryRuns {
  import opened Packets
  import opened Queue
  import opened Delivery

  lemma {:induction false} EveryRun(fifo: bool, events: seq<Event>)
    requires Legal(fifo, events)
    ensures var s := After(fifo, events); Conserved(s) && OnTime(s) && TimerInOrder(s) && StoredAtPeak(s)
  {
    if events != [] {
      var before, e := events[..|events| - 1], events[|events| - 1];
      EveryRun(fifo, before);
      var s := After(fifo, before);
      ConservedStep(s, e);
      OnTimeStep(s, e);
      TimerStep(s, e);
      StoredAtPeakStep(s, e);
    }
  }

  lemma {:induction false} EveryRunInOrder(fifo: bool, events: seq<Event>)
    requires Legal(fifo, events) && NeverOvertakes(fifo, events)
    ensures KeysGrow(After(fifo, events)) && LeavesInOrder(After(fifo, events))
  {
    if events != [] {
      var before, e := events[..|events| - 1], events[|events| - 1];
      EveryRunInOrder(fifo, before);
      KeysGrowStep(After(fifo, before), e);
      LeavesInOrderStep(After(fifo, before), e);
    }
  }

  // ---------- FIFO throughout ----------

  ghost predicate NoModeChange(events: seq<Event>) {
    forall i :: 0 <= i < |events| ==> !events[i].SetFifo?
  }

  lemma {:induction false} FifoStaysOn(events: seq<Event>)
    requires NoModeChange(events)
    ensures After(true, events).keys.fifo && forall t <- After(true, events).accepted :: t.fifo
  {
    if events != [] {
      FifoStaysOn(events[..|events| - 1]);
    }
  }

  lemma PartsAreAccepted(s: State)
    requires Conserved(s)
    ensures forall t <- Tickets(s.waiting) :: t in s.accepted
    ensures forall t <- Departed(s.sent) :: t in s.accepted
  {
    forall t | t in Tickets(s.waiting) || t in Departed(s.sent) ensures t in s.accepted {
      assert t in multiset(Tickets(s.waiting)) || t in multiset(Departed(s.sent));
      assert t in multiset(s.accepted);
    }
  }

  ghost predicate InKeyOrder(ws: seq<Waiting>) {
    forall i, j :: 0 <= i < j < |ws| ==> Before(ws[i].node, ws[j].node)
  }

  lemma AllInKeyOrder(ws: seq<Waiting>, k: Keying)
    requires Grows(ws, k) && forall t <- Tickets(ws) :: t.fifo
    ensures InKeyOrder(ws)
  {
    assert forall i :: 0 <= i < |ws| ==> Tickets(ws)[i] == ws[i].ticket;
  }

  lemma PlainListView(s: State)
    requires Conserved(s) && KeysGrow(s) && LeavesInOrder(s) && forall t <- s.accepted :: t.fifo
    ensures InKeyOrder(s.waiting) && Departed(s.sent) + Tickets(s.waiting) == s.accepted
  {
    PartsAreAccepted(s);
    AllFifo(s.accepted);
    AllFifo(Tickets(s.waiting));
    AllFifo(Departed(s.sent));
    AllInKeyOrder(s.waiting, s.keys);
  }

  lemma OldestIsHead(s: State, i: nat, now: nat)
    requires InKeyOrder(s.waiting) && Enabled(s, Release(i, now))
    ensures i == 0
  {
    var first := Nodes(s.waiting)[0];
    assert first in Nodes(s.waiting) && AtMost(s.waiting[i].node, first);
  }

  /**
   With FIFO on throughout, heap, counters and bypass are a plain list queue: the copies sent,
   followed by the heap in key order, are the accepted copies; the next copy to leave is the oldest.
   */
  lemma FifoRefinesList(events: seq<Event>)
    requires Legal(true, events) && NeverOvertakes(true, events) && NoModeChange(events)
    ensures InKeyOrder(After(true, events).waiting)
    ensures Departed(After(true, events).sent) + Tickets(After(true, events).waiting) == After(true, events).accepted
    ensures forall i: nat, now: nat :: Enabled(After(true, events), Release(i, now)) ==> i == 0
  {
    EveryRun(true, events);
    EveryRunInOrder(true, events);
    FifoStaysOn(events);
    PlainListView(After(true, events));
    forall i: nat, now: nat | Enabled(After(true, events), Release(i, now)) ensures i == 0 {
      OldestIsHead(After(true, events), i, now);
    }
  }

  // ---------- FIFO toggled at run time ----------

  ghost predicate CopiesIncrease(ts: seq<Ticket>) {
    forall i, j :: 0 <= i < j < |ts| ==> ts[i].packet.copy < ts[j].packet.copy
  }

  lemma {:induction false} FifoMembers(ts: seq<Ticket>)
    ensures forall t <- Fifo(ts) :: t in ts && t.fifo
    ensures forall t <- ts :: t.fifo ==> t in Fifo(ts)
  {
    if ts != [] {
      FifoMembers(ts[1..]);
      assert ts == [ts[0]] + ts[1..];
    }
  }

  lemma {:induction false} FifoKeepsIncrease(ts: seq<Ticket>)
    requires CopiesIncrease(ts)
    ensures CopiesIncrease(Fifo(ts))
  {
    if ts != [] {
      FifoKeepsIncrease(ts[1..]);
      FifoMembers(ts[1..]);
    }
  }

  lemma HeadIsLeast(first: Ticket, rest: seq<Ticket>, t: Ticket)
    requires CopiesIncrease([first] + rest) && t in rest
    ensures first.packet.copy < t.packet.copy
  {
    var k :| 0 <= k < |rest| && rest[k] == t;
    assert ([first] + rest)[k + 1] == t && ([first] + rest)[0] == first;
  }

  lemma FirstIsLeast(ts: seq<Ticket>, y: nat)
    requires CopiesIncrease(Fifo(ts)) && 0 < y < |ts| && ts[0].fifo && ts[y].fifo
    ensures ts[0].packet.copy < ts[y].packet.copy
  {
    FifoMembers(ts[1..]);
    assert ts[y] == ts[1..][y - 1];
    HeadIsLeast(ts[0], Fifo(ts[1..]), ts[y]);
  }

  lemma RestIncreases(ts: seq<Ticket>)
    requires CopiesIncrease(Fifo(ts)) && ts != []
    ensures CopiesIncrease(Fifo(ts[1..]))
  {
    var all, rest := Fifo(ts), Fifo(ts[1..]);
    assert rest == all[|all| - |rest|..];
  }

  /** If the FIFO tickets of a list are in increasing order, any two of them are, wherever they stand in the list. */
  lemma {:induction false} FifoOrderIsPairwise(ts: seq<Ticket>, x: nat, y: nat)
    requires CopiesIncrease(Fifo(ts)) && x < y < |ts| && ts[x].fifo && ts[y].fifo
    ensures ts[x].packet.copy < ts[y].packet.copy
  {
    if x == 0 {
      FirstIsLeast(ts, y);
    } else {
      RestIncreases(ts);
      FifoOrderIsPairwise(ts[1..], x - 1, y - 1);
    }
  }

  /** `sent` lists the FIFO copies in increasing order. */
  ghost predicate FifoDepartIncreasing(sent: seq<Departure>) {
    forall x, y :: 0 <= x < y < |sent| && sent[x].ticket.fifo && sent[y].ticket.fifo ==>
      sent[x].ticket.packet.copy < sent[y].ticket.packet.copy
  }

  lemma DepartIncreasing(s: State)
    requires Conserved(s) && LeavesInOrder(s)
    ensures FifoDepartIncreasing(s.sent)
  {
    FifoKeepsIncrease(s.accepted);
    var left := Fifo(Departed(s.sent));
    assert forall i :: 0 <= i < |left| ==> left[i] == Fifo(s.accepted)[i];
    forall x, y | 0 <= x < y < |s.sent| && s.sent[x].ticket.fifo && s.sent[y].ticket.fifo
      ensures s.sent[x].ticket.packet.copy < s.sent[y].ticket.packet.copy
    {
      FifoOrderIsPairwise(Departed(s.sent), x, y);
    }
  }

  /**
   However often the mode is changed, the copies accepted while FIFO was on leave in the order
   of acceptance: those sent so far are the first ones accepted, and the rest wait in key order.
   */
  lemma TogglingKeepsFifoOrder(fifo: bool, events: seq<Event>)
    requires Legal(fifo, events) && NeverOvertakes(fifo, events)
    ensures var s := After(fifo, events); Fifo(Departed(s.sent)) + Fifo(Tickets(s.waiting)) == Fifo(s.accepted)
    ensures KeysGrow(After(fifo, events))
    ensures FifoDepartIncreasing(After(fifo, events).sent)
  {
    EveryRun(fifo, events);
    EveryRunInOrder(fifo, events);
    DepartIncreasing(After(fifo, events));
  }

  // ---------- Conservation ----------

  lemma OncePerCopy(s: State, copy: nat)
    requires Conserved(s) && copy < |s.accepted|
    ensures s.accepted[copy].packet.copy == copy
    ensures multiset(Tickets(s.waiting))[s.accepted[copy]] + multiset(Departed(s.sent))[s.accepted[copy]] == 1
  {
    var t := s.accepted[copy];
    assert s.accepted == s.accepted[..copy] + [t] + s.accepted[copy + 1..];
    assert t !in s.accepted[..copy] && t !in s.accepted[copy + 1..];
    assert multiset(s.accepted)[t] == 1;
  }

  /** At every moment every accepted copy is in the heap once or has been sent once, never both. */
  lemma EachCopyOnce(fifo: bool, events: seq<Event>, copy: nat)
    requires Legal(fifo, events) && copy < |After(fifo, events).accepted|
    ensures var s := After(fifo, events);
            multiset(Tickets(s.waiting))[s.accepted[copy]] + multiset(Departed(s.sent))[s.accepted[copy]] == 1
  {
    EveryRun(fifo, events);
    OncePerCopy(After(fifo, events), copy);
  }

  // ---------- Release times ----------

  lemma RunningMaximum(log: seq<Waiting>, n: nat)
    requires n < |log| && log[n].ticket.fifo && StoredRight(log, n)
    ensures forall j :: 0 <= j <= n && log[j].ticket.fifo ==> log[j].ticket.requested <= log[n].node.forwardTime
    ensures exists j :: 0 <= j <= n && log[j].ticket.fifo && log[j].ticket.requested == log[n].node.forwardTime
  {
    var upTo := log[..n + 1];
    assert forall j :: 0 <= j <= n ==> log[j] == upTo[j] && log[j] in upTo;
    if log[n].node.forwardTime == 0 {
      assert log[n].ticket.requested == 0;
    } else {
      var w :| w in upTo && w.ticket.fifo && w.ticket.requested == log[n].node.forwardTime;
      var j :| 0 <= j < |upTo| && upTo[j] == w;
      assert log[j] == w;
    }
  }

  /** A FIFO copy is stored under the running maximum of the times requested by FIFO copies up to it. */
  lemma StoredUnderRunningMaximum(fifo: bool, events: seq<Event>, n: nat)
    requires Legal(fifo, events) && n < |After(fifo, events).queued|
    requires After(fifo, events).queued[n].ticket.fifo
    ensures var log := After(fifo, events).queued;
            && (forall j :: 0 <= j <= n && log[j].ticket.fifo ==> log[j].ticket.requested <= log[n].node.forwardTime)
            && (exists j :: 0 <= j <= n && log[j].ticket.fifo && log[j].ticket.requested == log[n].node.forwardTime)
  {
    EveryRun(fifo, events);
    RunningMaximum(After(fifo, events).queued, n);
  }

  /** No copy leaves before the time it asked for, in either mode. */
  lemma NothingLeavesEarly(fifo: bool, events: seq<Event>)
    requires Legal(fifo, events)
    ensures forall d <- After(fifo, events).sent :: d.ticket.requested <= d.at
  {
    EveryRun(fifo, events);
  }

  /** The log of queued copies: each once, under its number, and what waits is in it. */
  ghost predicate LogInOrder(s: State) {
    && (forall i :: 0 <= i < |s.queued| ==> s.queued[i].ticket.packet.copy < |s.accepted|)
    && (forall i, j :: 0 <= i < j < |s.queued| ==> s.queued[i].ticket.packet.copy < s.queued[j].ticket.packet.copy)
    && (forall i :: 0 <= i < |s.waiting| ==> s.waiting[i] in s.queued)
    && (forall i :: 0 <= i < |s.sent| ==> s.sent[i].ticket.packet.copy < |s.accepted|)
  }

  /** A copy that was queued has left after the time it was stored under. */
  ghost predicate LeftAfterStored(s: State) {
    forall i, q :: 0 <= i < |s.sent| && 0 <= q < |s.queued| && s.queued[q].ticket == s.sent[i].ticket ==>
      s.queued[q].node.forwardTime < s.sent[i].at
  }

  lemma LoggedTogether(waiting: seq<Waiting>, queued: seq<Waiting>, w: Waiting)
    requires forall i :: 0 <= i < |waiting| ==> waiting[i] in queued
    ensures forall i :: 0 <= i < |waiting + [w]| ==> (waiting + [w])[i] in queued + [w]
  {
    assert (queued + [w])[|queued|] == w;
    assert forall v <- queued :: v in queued + [w];
  }

  lemma LogQueued(s: State, e: Event)
    requires LogInOrder(s) && LeftAfterStored(s) && e.Offer? && Queues(s, e)
    ensures LogInOrder(Accept(s, e)) && LeftAfterStored(Accept(s, e))
  {
    var r := Accept(s, e);
    LoggedTogether(s.waiting, s.queued, r.queued[|s.queued|]);
  }

  lemma LogDirect(s: State, e: Event)
    requires LogInOrder(s) && LeftAfterStored(s) && e.Offer? && !Queues(s, e)
    ensures LogInOrder(Accept(s, e)) && LeftAfterStored(Accept(s, e))
  {
  }

  lemma LogRelease(s: State, e: Event)
    requires LogInOrder(s) && LeftAfterStored(s) && e.Release? && Enabled(s, e)
    ensures LogInOrder(Step(s, e)) && LeftAfterStored(Step(s, e))
  {
    var r, w := Step(s, e), s.waiting[e.i];
    assert w in s.queued;
    forall i | 0 <= i < |r.waiting| ensures r.waiting[i] in r.queued {
      assert r.waiting[i] == s.waiting[if i < e.i then i else i + 1];
    }
  }

  lemma {:induction false} LogOfRun(fifo: bool, events: seq<Event>)
    requires Legal(fifo, events)
    ensures LogInOrder(After(fifo, events)) && LeftAfterStored(After(fifo, events))
  {
    if events != [] {
      var s, e := After(fifo, events[..|events| - 1]), events[|events| - 1];
      LogOfRun(fifo, events[..|events| - 1]);
      if e.Offer? && !Refused(s, e) {
        if Queues(s, e) {
          LogQueued(s, e);
        } else {
          LogDirect(s, e);
        }
      } else if e.Release? {
        LogRelease(s, e);
      }
    }
  }

  /** Every copy that went through the queue has left strictly after the time it was stored under, in either mode. */
  lemma QueuedLeaveAfterStoredTime(fifo: bool, events: seq<Event>, x: nat, q: nat)
    requires Legal(fifo, events) && x < |After(fifo, events).sent| && q < |After(fifo, events).queued|
    requires After(fifo, events).queued[q].ticket == After(fifo, events).sent[x].ticket
    ensures After(fifo, events).queued[q].node.forwardTime < After(fifo, events).sent[x].at
  {
    LogOfRun(fifo, events);
  }

  // ---------- The queue timer ----------

  /** Between two steps of the event loop the timer is armed exactly when a copy waits, and for the earliest of them. */
  lemma NoLostWakeup(fifo: bool, events: seq<Event>)
    requires Legal(fifo, events) && !After(fifo, events).draining
    ensures After(fifo, events).timer == Disarmed <==> After(fifo, events).waiting == []
    ensures After(fifo, events).waiting != [] ==>
              After(fifo, events).timer.deadline == Max(HeadTime(After(fifo, events).waiting), After(fifo, events).timer.at + 1)
  {
    EveryRun(fifo, events);
  }

  /** What is not due at `now`. */
  function NotDue(ws: seq<Waiting>, now: nat): seq<Waiting> {
    if ws == [] then []
    else (if ws[0].node.forwardTime < now then [] else [ws[0]]) + NotDue(ws[1..], now)
  }

  lemma {:induction false} NotDueAppend(a: seq<Waiting>, b: seq<Waiting>, now: nat)
    ensures NotDue(a + b, now) == NotDue(a, now) + NotDue(b, now)
  {
    if a == [] {
      assert a + b == b;
    } else {
      var first := if a[0].node.forwardTime < now then [] else [a[0]];
      assert (a + b)[0] == a[0] && (a + b)[1..] == a[1..] + b;
      NotDueAppend(a[1..], b, now);
      assert NotDue(a, now) == first + NotDue(a[1..], now);
      assert NotDue(a + b, now) == first + NotDue(a[1..] + b, now);
    }
  }

  lemma {:induction false} NothingDue(ws: seq<Waiting>, now: nat)
    requires forall w <- ws :: now <= w.node.forwardTime
    ensures NotDue(ws, now) == ws
  {
    if ws != [] {
      NothingDue(ws[1..], now);
    }
  }

  lemma NotDueRemoval(ws: seq<Waiting>, i: nat, now: nat)
    requires i < |ws| && ws[i].node.forwardTime < now
    ensures NotDue(ws[..i] + ws[i + 1..], now) == NotDue(ws, now)
  {
    var a, b := ws[..i], ws[i + 1..];
    assert ws == a + ([ws[i]] + b);
    NotDueAppend(a, [ws[i]] + b, now);
    NotDueAppend([ws[i]], b, now);
    NotDueAppend(a, b, now);
  }

  lemma ReleaseKeepsNotDue(s: State, e: Event, now: nat)
    requires e.Release? && Enabled(s, e) && Step(s, e).clock <= now
    ensures NotDue(Step(s, e).waiting, now) == NotDue(s.waiting, now) && s.clock <= now
  {
    NotDueRemoval(s.waiting, e.i, now);
  }

  /** A run that enters the queue-timer branch and goes on with `drain`. */
  function Fired(before: seq<Event>, drain: seq<Event>): (r: seq<Event>)
    ensures |r| == |before| + 1 + |drain|
  {
    before + [TimerFires] + drain
  }

  lemma FiredLast(before: seq<Event>, drain: seq<Event>)
    ensures var run := Fired(before, drain);
            if drain == [] then run[..|run| - 1] == before && run[|run| - 1] == TimerFires
            else run[..|run| - 1] == Fired(before, drain[..|drain| - 1]) && run[|run| - 1] == drain[|drain| - 1]
  {
    if drain == [] {
      assert Fired(before, drain) == before + [TimerFires];
    }
  }

  /** The releases of a drain that ends with a reading `now` do not touch what is not due then. */
  lemma {:induction false} DrainKeepsNotDue(fifo: bool, before: seq<Event>, drain: seq<Event>, now: nat)
    requires Legal(fifo, Fired(before, drain))
    requires forall i :: 0 <= i < |drain| ==> drain[i].Release?
    requires After(fifo, Fired(before, drain)).clock <= now
    ensures NotDue(After(fifo, Fired(before, drain)).waiting, now) == NotDue(After(fifo, before).waiting, now)
  {
    FiredLast(before, drain);
    if drain != [] {
      var n := |drain| - 1;
      ReleaseKeepsNotDue(After(fifo, Fired(before, drain[..n])), drain[n], now);
      DrainKeepsNotDue(fifo, before, drain[..n], now);
    }
  }

  /**
   A complete run of the queue-timer branch releases exactly the copies due at its last clock
   reading; one that ends strictly after the head time releases at least one.
   */
  lemma DrainReleasesWhatIsDue(fifo: bool, before: seq<Event>, drain: seq<Event>, now: nat, armNow: nat)
    requires Legal(fifo, before + [TimerFires] + drain + [EndDrain(now, armNow)])
    requires forall i :: 0 <= i < |drain| ==> drain[i].Release?
    ensures After(fifo, before + [TimerFires] + drain + [EndDrain(now, armNow)]).waiting
         == NotDue(After(fifo, before).waiting, now)
    ensures After(fifo, before).waiting != [] && HeadTime(After(fifo, before).waiting) < now ==> drain != []
  {
    var inner := Fired(before, drain);
    var run := inner + [EndDrain(now, armNow)];
    assert run[..|run| - 1] == inner;
    DrainKeepsNotDue(fifo, before, drain, now);
    NothingDue(After(fifo, inner).waiting, now);
    FiredLast(before, drain);
  }

  // ---------- The buffer limit ----------

  /** Every copy was checked against a computed buffer size of at most `limit`. */
  ghost predicate CheckedAgainst(events: seq<Event>, limit: real) {
    forall i :: 0 <= i < |events| && events[i].Offer? ==> events[i].capacity.Some? && events[i].capacity.value <= limit
  }

  lemma BufferAdd(ns: seq<QueueNode>, node: QueueNode, limit: real, d: Direction)
    requires 0.0 <= limit < UINT_RANGE as real && Bytes(ns, d) as real <= limit
    requires node.packet.direction == d ==> (Wrap(Bytes(ns, d)) + node.packet.len) as real <= limit
    ensures Bytes(ns + [node], d) as real <= limit
  {
    BytesAppend(ns, node, d);
    assert Bytes(ns, d) < UINT_RANGE;
  }

  lemma BufferAccept(s: State, e: Event, limit: real, d: Direction)
    requires 0.0 <= limit < UINT_RANGE as real && Bytes(Nodes(s.waiting), d) as real <= limit
    requires e.Offer? && !Refused(s, e) && e.capacity.Some? && e.capacity.value <= limit
    ensures Bytes(Nodes(Accept(s, e).waiting), d) as real <= limit
  {
    if Queues(s, e) {
      var t := TicketFor(s, e);
      var node := NodeFor(s.keys, t.packet, t.requested);
      BufferAdd(Nodes(s.waiting), node, limit, d);
      assert Nodes(Accept(s, e).waiting) == Nodes(s.waiting) + [node];
    }
  }

  lemma BufferStep(s: State, e: Event, limit: real, d: Direction)
    requires 0.0 <= limit < UINT_RANGE as real
    requires e.Offer? ==> e.capacity.Some? && e.capacity.value <= limit
    requires Bytes(Nodes(s.waiting), d) as real <= limit
    ensures Bytes(Nodes(Step(s, e).waiting), d) as real <= limit
  {
    if e.Offer? && !Refused(s, e) {
      BufferAccept(s, e, limit, d);
    } else if e.Release? && e.i < |s.waiting| {
      var ns := Nodes(s.waiting);
      assert Nodes(Step(s, e).waiting) == ns[..e.i] + ns[e.i + 1..];
      BytesRemoval(ns, e.i, d);
    }
  }

  lemma {:induction false} BytesRemoval(ns: seq<QueueNode>, i: nat, d: Direction)
    requires i < |ns|
    ensures Bytes(ns[..i] + ns[i + 1..], d) <= Bytes(ns, d)
  {
    var left := ns[..i] + ns[i + 1..];
    if i == 0 {
      assert left == ns[1..];
    } else {
      assert left[1..] == ns[1..][..i - 1] + ns[1..][i..];
      BytesRemoval(ns[1..], i - 1, d);
    }
  }

  /**
   If every copy is checked against a buffer size of at most `limit`, and `limit` fits the 32-bit
   byte counter, no direction ever has more than `limit` bytes queued.
   */
  lemma {:induction false} BufferNeverOverfull(fifo: bool, events: seq<Event>, limit: real, d: Direction)
    requires CheckedAgainst(events, limit) && 0.0 <= limit < UINT_RANGE as real
    ensures Bytes(Nodes(After(fifo, events).waiting), d) as real <= limit
  {
    if events != [] {
      BufferNeverOverfull(fifo, events[..|events| - 1], limit, d);
      BufferStep(After(fifo, events[..|events| - 1]), events[|events| - 1], limit, d);
    }
  }

  /** Copies checked against at most `limit` never fill the queue beyond it, in any run. */
  ghost predicate KeepsLimit(limit: real) {
    forall fifo: bool, events: seq<Event>, d: Direction :: Legal(fifo, events) && CheckedAgainst(events, limit) ==>
      Bytes(Nodes(After(fifo, events).waiting), d) as real <= limit
  }

  const KILOBYTE: nat := 1024

  /** A delayed copy of a kilobyte, checked against `limit`. */
  function FloodOffer(limit: real): Event {
    Offer(KILOBYTE, LeftToRight, Some(limit), 1.0, 0, 0)
  }

  /** A whole number of kilobytes wraps to one, so another kilobyte stays within 2^32. */
  lemma KilobyteFits(n: nat)
    ensures Wrap(n * KILOBYTE) + KILOBYTE <= UINT_RANGE
  {
    var q, r := n * KILOBYTE / UINT_RANGE, n * KILOBYTE % UINT_RANGE;
    assert r == (n - q * 0x40_0000) * KILOBYTE;
    assert UINT_RANGE - r == (0x40_0000 - (n - q * 0x40_0000)) * KILOBYTE;
  }

  ghost predicate Flooded(s: State, n: nat) {
    !s.draining && s.clock == 0 && |s.waiting| == n && Bytes(Nodes(s.waiting), LeftToRight) == n * KILOBYTE
  }

  lemma FloodStep(s: State, n: nat, limit: real)
    requires limit >= UINT_RANGE as real && Flooded(s, n)
    ensures Enabled(s, FloodOffer(limit)) && Flooded(Step(s, FloodOffer(limit)), n + 1)
  {
    var e := FloodOffer(limit);
    var t := TicketFor(s, e);
    KilobyteFits(n);
    assert !Refused(s, e);
    BytesAppend(Nodes(s.waiting), NodeFor(s.keys, t.packet, t.requested), LeftToRight);
    assert Nodes(Step(s, e).waiting) == Nodes(s.waiting) + [NodeFor(s.keys, t.packet, t.requested)];
  }

  lemma OneMoreEvent(fifo: bool, events: seq<Event>, e: Event)
    requires Legal(fifo, events) && Enabled(After(fifo, events), e)
    ensures Legal(fifo, events + [e]) && After(fifo, events + [e]) == Step(After(fifo, events), e)
  {
    assert (events + [e])[..|events|] == events;
  }

  lemma {:induction false} FloodRun(n: nat, limit: real) returns (events: seq<Event>)
    requires limit >= UINT_RANGE as real
    ensures Legal(true, events) && CheckedAgainst(events, limit) && Flooded(After(true, events), n)
  {
    if n == 0 {
      events := [];
    } else {
      var before := FloodRun(n - 1, limit);
      FloodStep(After(true, before), n - 1, limit);
      OneMoreEvent(true, before, FloodOffer(limit));
      events := before + [FloodOffer(limit)];
    }
  }

  /** Above 2^32 a run that beats the limit, with no more packets queued than kilobytes in the limit, plus one. */
  lemma FloodBeatsLimit(limit: real) returns (events: seq<Event>)
    requires limit >= UINT_RANGE as real
    ensures Legal(true, events) && CheckedAgainst(events, limit)
    ensures |After(true, events).waiting| == limit.Floor / KILOBYTE + 1
    ensures Bytes(Nodes(After(true, events).waiting), LeftToRight) as real > limit
  {
    var n: nat := limit.Floor / KILOBYTE + 1;
    events := FloodRun(n, limit);
    assert n * KILOBYTE >= limit.Floor + 1;
  }

  /** Buffer sizes bound the queue exactly when they fit the 32-bit byte counter. */
  lemma LimitHoldsExactlyBelowCounterRange(limit: real)
    requires 0.0 <= limit
    ensures KeepsLimit(limit) <==> limit < UINT_RANGE as real
  {
    if limit < UINT_RANGE as real {
      forall fifo: bool, events: seq<Event>, d: Direction | Legal(fifo, events) && CheckedAgainst(events, limit)
        ensures Bytes(Nodes(After(fifo, events).waiting), d) as real <= limit
      {
        BufferNeverOverfull(fifo, events, limit, d);
      }
    } else {
      var events := FloodBeatsLimit(limit);
    }
  }
}
