/**
 The packet handler as a state machine over its queue: `handlePacket` from the buffer check on,
 the queue-timer branch of the event loop, and the run-time change of `fifoness`
 (libvdeplug_wirefilter.c:362-376, 431-458; includes/wf_management.c:203-207).

 Every delay, capacity and clock reading is a label of a step, so a theorem about all runs is a
 theorem about every link configuration, random draw and nondecreasing clock. The machine has a
 program counter (`draining`): the drain loop is one step per released packet.
 */
module Delivery {
  import opened Packets
  import opened Queue

  /** A copy the handler did not refuse. `fifo`: the queue mode at that moment. `requested`: the time asked for. */
  datatype Ticket = Ticket(packet: Packet, fifo: bool, requested: nat)

  datatype Waiting = Waiting(ticket: Ticket, node: QueueNode)

  datatype Departure = Departure(ticket: Ticket, at: nat)

  datatype State = State(
    keys: Keying,
    waiting: seq<Waiting>,     // what the heap holds, in the order of arrival
    timer: Timer,
    draining: bool,            // inside the queue-timer branch
    clock: nat,                // last clock reading
    accepted: seq<Ticket>,     // log of all copies not refused
    queued: seq<Waiting>,      // log of all copies that entered the heap
    sent: seq<Departure>)      // log of all copies handed to `sendPacket`

  datatype Event =
    | Offer(len: nat, direction: Direction, capacity: Option<real>, delayMs: real, now: nat, armNow: nat)
    | TimerFires
    | Release(i: nat, now: nat)
    | EndDrain(now: nat, armNow: nat)
    | SetFifo(fifo: bool)

  function Initial(fifo: bool): State {
    State(Keying(fifo, 0, 0), [], Disarmed, false, 0, [], [], [])
  }

  // ---------- Views ----------

  function Nodes(ws: seq<Waiting>): seq<QueueNode> {
    seq(|ws|, i requires 0 <= i < |ws| => ws[i].node)
  }

  function Tickets(ws: seq<Waiting>): seq<Ticket> {
    seq(|ws|, i requires 0 <= i < |ws| => ws[i].ticket)
  }

  function Departed(ds: seq<Departure>): seq<Ticket> {
    seq(|ds|, i requires 0 <= i < |ds| => ds[i].ticket)
  }

  /** The copies accepted while FIFO was on. */
  function Fifo(ts: seq<Ticket>): seq<Ticket> {
    if ts == [] then []
    else (if ts[0].fifo then [ts[0]] else []) + Fifo(ts[1..])
  }

  function ByteSize(s: State, d: Direction): nat {
    Wrap(Bytes(Nodes(s.waiting), d))
  }

  /** The least stored time: `nextQueueTime`. */
  function HeadTime(ws: seq<Waiting>): (t: nat)
    requires ws != []
    ensures forall w <- ws :: t <= w.node.forwardTime
    ensures exists w <- ws :: t == w.node.forwardTime
  {
    var last := ws[|ws| - 1].node.forwardTime;
    if |ws| == 1 then last
    else
      var rest := HeadTime(ws[..|ws| - 1]);
      if last < rest then last else rest
  }

  // ---------- Steps ----------

  /** now_ns() + MS_TO_NS(delay_ms), converted to an integer. */
  function RequestedTime(now: nat, delayMs: real): nat {
    var t := (now as real + delayMs * 1000000.0).Floor;
    if t < 0 then 0 else t
  }

  /** It is the time that lies the delay ahead, to the nanosecond: not earlier by 1 ns or more, and never later. */
  lemma RequestedTimeIsExact(now: nat, delayMs: real)
    ensures now as real + delayMs * 1000000.0 >= 0.0 ==>
              RequestedTime(now, delayMs) as real <= now as real + delayMs * 1000000.0 < RequestedTime(now, delayMs) as real + 1.0
    ensures now as real + delayMs * 1000000.0 < 0.0 ==> RequestedTime(now, delayMs) == 0
  {
  }

  function ArmFor(ws: seq<Waiting>, now: nat): Timer
    requires ws != []
  {
    Armed(now, Max(HeadTime(ws), now + 1))
  }

  predicate Refused(s: State, e: Event)
    requires e.Offer?
  {
    e.capacity.Some? && (ByteSize(s, e.direction) + e.len) as real > e.capacity.value
  }

  predicate Queues(s: State, e: Event)
    requires e.Offer?
  {
    e.delayMs > 0.0 || (s.keys.fifo && s.waiting != [])
  }

  /** The ticket an accepted copy gets: its number is the number of copies accepted before it. */
  function TicketFor(s: State, e: Event): Ticket
    requires e.Offer?
  {
    Ticket(Packet(|s.accepted|, e.len, e.direction), s.keys.fifo,
           if Queues(s, e) then RequestedTime(e.now, e.delayMs) else e.now)
  }

  function Accept(s: State, e: Event): State
    requires e.Offer?
  {
    var t := TicketFor(s, e);
    if Queues(s, e) then
      var w := Waiting(t, NodeFor(s.keys, t.packet, t.requested));
      s.(keys := NextKeying(s.keys, t.requested),
         waiting := s.waiting + [w],
         timer := ArmFor(s.waiting + [w], e.armNow),
         clock := e.armNow,
         accepted := s.accepted + [t],
         queued := s.queued + [w])
    else
      s.(clock := e.now, accepted := s.accepted + [t], sent := s.sent + [Departure(t, e.now)])
  }

  /** The copy, numbered by its turn, goes out at the reading `now`, and the queue stays as it is. */
  ghost predicate LeavesAtOnce(s: State, e: Event)
    requires e.Offer?
  {
    var r := Step(s, e);
    && r.waiting == s.waiting && r.timer == s.timer
    && r.sent == s.sent + [Departure(Ticket(Packet(|s.accepted|, e.len, e.direction), s.keys.fifo, e.now), e.now)]
  }

  /** The copy waits, under the time it asks for or, in FIFO mode, a later one, and the timer is armed for the earliest copy. */
  ghost predicate Waits(s: State, e: Event)
    requires e.Offer?
  {
    var r, t := Step(s, e), Ticket(Packet(|s.accepted|, e.len, e.direction), s.keys.fifo, RequestedTime(e.now, e.delayMs));
    && r.sent == s.sent && |r.waiting| == |s.waiting| + 1 && r.waiting[..|s.waiting|] == s.waiting
    && r.waiting[|s.waiting|].ticket == t && t.requested <= r.waiting[|s.waiting|].node.forwardTime
    && (!s.keys.fifo ==> t.requested == r.waiting[|s.waiting|].node.forwardTime)
    && r.timer == Armed(e.armNow, Max(HeadTime(r.waiting), e.armNow + 1))
  }

  /** A copy that is not refused leaves at once exactly if it is not delayed and need not stay behind others; or it waits. */
  lemma AcceptedLeavesOrWaits(s: State, e: Event)
    requires e.Offer? && !Refused(s, e)
    ensures LeavesAtOnce(s, e) <==> e.delayMs <= 0.0 && (!s.keys.fifo || s.waiting == [])
    ensures Waits(s, e) <==> e.delayMs > 0.0 || (s.keys.fifo && s.waiting != [])
  {
  }

  /** A copy is refused if it has a limit that the bytes queued for its direction, as far as 32 bits go, and its own exceed. */
  lemma RefusedExactlyBeyondLimit(s: State, e: Event)
    requires e.Offer?
    ensures Refused(s, e) <==>
              e.capacity.Some? && (Bytes(Nodes(s.waiting), e.direction) % 0x1_0000_0000 + e.len) as real > e.capacity.value
    ensures Refused(s, e) ==> Step(s, e) == s
  {
  }

  ghost predicate Enabled(s: State, e: Event) {
    match e
    case Offer(_, _, _, _, now, armNow) => !s.draining && s.clock <= now <= armNow
    case TimerFires => !s.draining
    case Release(i, now) =>
      && s.draining && s.clock <= now
      && i < |s.waiting| && IsHead(Nodes(s.waiting), s.waiting[i].node)
      && s.waiting[i].node.forwardTime < now
    case EndDrain(now, armNow) =>
      && s.draining && s.clock <= now <= armNow
      && forall w <- s.waiting :: now <= w.node.forwardTime
    case SetFifo(_) => !s.draining
  }

  function Step(s: State, e: Event): State {
    match e
    case Offer(_, _, _, _, _, _) => if Refused(s, e) then s else Accept(s, e)
    case TimerFires => s.(timer := Disarmed, draining := true)
    case Release(i, now) =>
      if i >= |s.waiting| then s
      else s.(waiting := s.waiting[..i] + s.waiting[i + 1..],
              clock := now,
              sent := s.sent + [Departure(s.waiting[i].ticket, now)])
    case EndDrain(_, armNow) =>
      s.(draining := false, clock := armNow, timer := if s.waiting == [] then Disarmed else ArmFor(s.waiting, armNow))
    case SetFifo(fifo) => s.(keys := s.keys.(fifo := fifo))
  }

  // ---------- Runs ----------

  function After(fifo: bool, events: seq<Event>): State {
    if events == [] then Initial(fifo)
    else Step(After(fifo, events[..|events| - 1]), events[|events| - 1])
  }

  ghost predicate Legal(fifo: bool, events: seq<Event>) {
    events == [] ||
    (Legal(fifo, events[..|events| - 1]) && Enabled(After(fifo, events[..|events| - 1]), events[|events| - 1]))
  }

  /** A FIFO copy waits under the greatest time given out so far. */
  ghost predicate LastTimeWaits(ws: seq<Waiting>, k: Keying) {
    exists i :: 0 <= i < |ws| && ws[i].ticket.fifo && ws[i].node.forwardTime == k.maxForwardTime
  }

  /** The 32-bit counter falls back to 0 while an earlier FIFO copy waits under the same time. */
  ghost predicate Overtakes(s: State, e: Event) {
    e.Offer? && !Refused(s, e) && Queues(s, e) && Wraps(s.keys, RequestedTime(e.now, e.delayMs)) && LastTimeWaits(s.waiting, s.keys)
  }

  ghost predicate NeverOvertakes(fifo: bool, events: seq<Event>) {
    events == [] ||
    (NeverOvertakes(fifo, events[..|events| - 1]) && !Overtakes(After(fifo, events[..|events| - 1]), events[|events| - 1]))
  }

  // ---------- What every step keeps ----------

  /** Every accepted copy is numbered by its position, and is either in the heap once or sent once. */
  ghost predicate Conserved(s: State) {
    && (forall i :: 0 <= i < |s.accepted| ==> s.accepted[i].packet.copy == i)
    && multiset(s.accepted) == multiset(Tickets(s.waiting)) + multiset(Departed(s.sent))
  }

  /** Nothing is stored under, or left before, the time asked for. */
  ghost predicate OnTime(s: State) {
    && (forall w <- s.waiting :: w.node.packet == w.ticket.packet && w.ticket.requested <= w.node.forwardTime)
    && (forall d <- s.sent :: d.ticket.requested <= d.at <= s.clock)
  }

  /** The queue timer is armed exactly when something waits, at the head time or right after arming. */
  ghost predicate TimerInOrder(s: State) {
    if s.draining || s.waiting == [] then s.timer == Disarmed
    else s.timer.Armed? && s.timer.at <= s.clock && s.timer.deadline == Max(HeadTime(s.waiting), s.timer.at + 1)
  }

  lemma RemovalSplits<T>(s: seq<T>, i: nat)
    requires i < |s|
    ensures s == s[..i] + [s[i]] + s[i + 1..]
    ensures multiset(s) == multiset(s[..i] + s[i + 1..]) + multiset{s[i]}
  {
    assert s == s[..i] + [s[i]] + s[i + 1..];
  }

  lemma OneMore(accepted: seq<Ticket>, waiting: seq<Ticket>, sent: seq<Ticket>, t: Ticket)
    requires multiset(accepted) == multiset(waiting) + multiset(sent)
    ensures multiset(accepted + [t]) == multiset(waiting + [t]) + multiset(sent)
    ensures multiset(accepted + [t]) == multiset(waiting) + multiset(sent + [t])
  {
  }

  lemma AcceptViews(s: State, e: Event)
    requires e.Offer?
    ensures var r, t := Accept(s, e), TicketFor(s, e);
            && r.accepted == s.accepted + [t]
            && Tickets(r.waiting) == Tickets(s.waiting) + (if Queues(s, e) then [t] else [])
            && Departed(r.sent) == Departed(s.sent) + (if Queues(s, e) then [] else [t])
  {
  }

  lemma ReleaseViews(s: State, i: nat, now: nat)
    requires i < |s.waiting|
    ensures var r, ts := Step(s, Release(i, now)), Tickets(s.waiting);
            && r.accepted == s.accepted
            && Tickets(r.waiting) == ts[..i] + ts[i + 1..]
            && Departed(r.sent) == Departed(s.sent) + [ts[i]]
  {
  }

  lemma ConservedAccept(s: State, e: Event)
    requires Conserved(s) && e.Offer?
    ensures Conserved(Accept(s, e))
  {
    AcceptViews(s, e);
    OneMore(s.accepted, Tickets(s.waiting), Departed(s.sent), TicketFor(s, e));
  }

  lemma ConservedRelease(s: State, i: nat, now: nat)
    requires Conserved(s) && i < |s.waiting|
    ensures Conserved(Step(s, Release(i, now)))
  {
    ReleaseViews(s, i, now);
    RemovalSplits(Tickets(s.waiting), i);
  }

  lemma ConservedStep(s: State, e: Event)
    requires Conserved(s)
    ensures Conserved(Step(s, e))
  {
    match e
    case Offer(_, _, _, _, _, _) => ConservedAccept(s, e);
    case Release(i, now) => if i < |s.waiting| { ConservedRelease(s, i, now); }
    case _ =>
  }

  lemma OnTimeStep(s: State, e: Event)
    requires OnTime(s) && Enabled(s, e)
    ensures OnTime(Step(s, e))
  {
  }

  lemma TimerAccept(s: State, e: Event)
    requires TimerInOrder(s) && Enabled(s, e) && e.Offer?
    ensures TimerInOrder(Accept(s, e))
  {
  }

  lemma TimerStep(s: State, e: Event)
    requires TimerInOrder(s) && Enabled(s, e)
    ensures TimerInOrder(Step(s, e))
  {
    match e
    case Offer(_, _, _, _, _, _) => if !Refused(s, e) { TimerAccept(s, e); }
    case _ =>
  }

  // ---------- FIFO order ----------

  lemma {:induction false} FifoAppend(a: seq<Ticket>, b: seq<Ticket>)
    ensures Fifo(a + b) == Fifo(a) + Fifo(b)
  {
    if a == [] {
      assert a + b == b;
    } else {
      var first := if a[0].fifo then [a[0]] else [];
      assert (a + b)[0] == a[0] && (a + b)[1..] == a[1..] + b;
      FifoAppend(a[1..], b);
      assert first + Fifo(a[1..] + b) == (first + Fifo(a[1..])) + Fifo(b);
    }
  }

  lemma {:induction false} NoFifo(a: seq<Ticket>)
    requires forall t <- a :: !t.fifo
    ensures Fifo(a) == []
  {
    if a != [] {
      NoFifo(a[1..]);
    }
  }

  lemma {:induction false} AllFifo(a: seq<Ticket>)
    requires forall t <- a :: t.fifo
    ensures Fifo(a) == a
  {
    if a != [] {
      AllFifo(a[1..]);
    }
  }

  /** The FIFO nodes of the heap: strictly increasing keys in the order of arrival, none beyond the last key given out. */
  ghost predicate KeysGrow(s: State) {
    Grows(s.waiting, s.keys)
  }

  ghost predicate Grows(ws: seq<Waiting>, k: Keying) {
    && (forall i :: 0 <= i < |ws| && ws[i].ticket.fifo ==> AtMost(ws[i].node, LastFifoKey(k)))
    && (forall i, j :: 0 <= i < j < |ws| && ws[i].ticket.fifo && ws[j].ticket.fifo ==> Before(ws[i].node, ws[j].node))
  }

  /** The copies accepted in FIFO mode: those sent, then those waiting, in the order of acceptance. */
  ghost predicate LeavesInOrder(s: State) {
    Fifo(Departed(s.sent)) + Fifo(Tickets(s.waiting)) == Fifo(s.accepted)
  }

  lemma GrowsAppend(ws: seq<Waiting>, k: Keying, t: Ticket)
    requires Grows(ws, k) && t.fifo == k.fifo
    ensures Grows(ws + [Waiting(t, NodeFor(k, t.packet, t.requested))], NextKeying(k, t.requested))
       <==> !(Wraps(k, t.requested) && LastTimeWaits(ws, k))
  {
    var longer := ws + [Waiting(t, NodeFor(k, t.packet, t.requested))];
    if k.fifo {
      FifoKeyGrows(k, t.packet, t.requested);
    }
    if Wraps(k, t.requested) && LastTimeWaits(ws, k) {
      var i :| 0 <= i < |ws| && ws[i].ticket.fifo && ws[i].node.forwardTime == k.maxForwardTime;
      assert longer[i] == ws[i] && !Before(longer[i].node, longer[|ws|].node);
    }
  }

  lemma KeysGrowRelease(s: State, i: nat, now: nat)
    requires KeysGrow(s) && i < |s.waiting|
    ensures KeysGrow(Step(s, Release(i, now)))
  {
    var kept := s.waiting[..i] + s.waiting[i + 1..];
    assert forall k :: 0 <= k < |kept| ==> kept[k] == s.waiting[if k < i then k else k + 1];
  }

  lemma KeysGrowStep(s: State, e: Event)
    requires KeysGrow(s)
    ensures KeysGrow(Step(s, e)) <==> !Overtakes(s, e)
  {
    match e
    case Offer(_, _, _, _, _, _) => if !Refused(s, e) && Queues(s, e) { GrowsAppend(s.waiting, s.keys, TicketFor(s, e)); }
    case Release(i, now) => if i < |s.waiting| { KeysGrowRelease(s, i, now); }
    case _ =>
  }

  lemma OneMoreWaits(accepted: seq<Ticket>, waiting: seq<Ticket>, sent: seq<Ticket>, t: Ticket)
    requires Fifo(sent) + Fifo(waiting) == Fifo(accepted)
    ensures Fifo(sent) + Fifo(waiting + [t]) == Fifo(accepted + [t])
  {
    FifoAppend(accepted, [t]);
    FifoAppend(waiting, [t]);
    var f := Fifo([t]);
    assert Fifo(sent) + (Fifo(waiting) + f) == (Fifo(sent) + Fifo(waiting)) + f;
  }

  lemma OneMoreSent(accepted: seq<Ticket>, waiting: seq<Ticket>, sent: seq<Ticket>, t: Ticket)
    requires Fifo(sent) + Fifo(waiting) == Fifo(accepted) && (!t.fifo || waiting == [])
    ensures Fifo(sent + [t]) + Fifo(waiting) == Fifo(accepted + [t])
  {
    FifoAppend(accepted, [t]);
    FifoAppend(sent, [t]);
    if t.fifo {
      assert Fifo(waiting) == [];
    } else {
      NoFifo([t]);
    }
  }

  lemma LeavesInOrderAccept(s: State, e: Event)
    requires LeavesInOrder(s) && e.Offer?
    ensures LeavesInOrder(Accept(s, e))
  {
    var t, waiting, sent := TicketFor(s, e), Tickets(s.waiting), Departed(s.sent);
    AcceptViews(s, e);
    if Queues(s, e) {
      OneMoreWaits(s.accepted, waiting, sent, t);
      assert sent + [] == sent;
    } else {
      OneMoreSent(s.accepted, waiting, sent, t);
      assert waiting + [] == waiting;
    }
  }

  /** A head of the heap that was accepted in FIFO mode is the first such copy. */
  lemma HeadIsFirstFifo(s: State, i: nat)
    requires KeysGrow(s) && i < |s.waiting| && IsHead(Nodes(s.waiting), s.waiting[i].node)
    requires s.waiting[i].ticket.fifo
    ensures Fifo(Tickets(s.waiting)[..i]) == []
  {
    forall t | t in Tickets(s.waiting)[..i] ensures !t.fifo {
      var j :| 0 <= j < i && s.waiting[j].ticket == t;
      assert s.waiting[j].node == Nodes(s.waiting)[j];
      assert s.waiting[j].node in Nodes(s.waiting);
      assert !Before(s.waiting[j].node, s.waiting[i].node);
    }
    NoFifo(Tickets(s.waiting)[..i]);
  }

  lemma FifoOne(t: Ticket)
    ensures Fifo([t]) == if t.fifo then [t] else []
  {
    assert [t][1..] == [];
  }

  /** Taking out a ticket that no FIFO ticket precedes, unless it is none itself. */
  lemma FifoRemoval(a: seq<Ticket>, t: Ticket, b: seq<Ticket>)
    requires t.fifo ==> Fifo(a) == []
    ensures Fifo(a + [t] + b) == Fifo([t]) + Fifo(a + b)
  {
    FifoAppend(a + [t], b);
    FifoAppend(a, [t]);
    FifoAppend(a, b);
    FifoOne(t);
    if t.fifo {
      assert Fifo(a) + Fifo([t]) == Fifo([t]) && Fifo(a + b) == Fifo(b);
    } else {
      assert Fifo(a) + Fifo([t]) == Fifo(a) && Fifo([t]) + Fifo(a + b) == Fifo(a + b);
    }
  }

  lemma FifoMoves(sent: seq<Ticket>, a: seq<Ticket>, t: Ticket, b: seq<Ticket>)
    requires t.fifo ==> Fifo(a) == []
    ensures Fifo(sent + [t]) + Fifo(a + b) == Fifo(sent) + Fifo(a + [t] + b)
  {
    FifoRemoval(a, t, b);
    FifoAppend(sent, [t]);
    assert Fifo(sent) + Fifo([t]) + Fifo(a + b) == Fifo(sent) + (Fifo([t]) + Fifo(a + b));
  }

  lemma LeavesInOrderRelease(s: State, i: nat, now: nat)
    requires KeysGrow(s) && LeavesInOrder(s) && Enabled(s, Release(i, now))
    ensures LeavesInOrder(Step(s, Release(i, now)))
  {
    var ts := Tickets(s.waiting);
    if ts[i].fifo {
      HeadIsFirstFifo(s, i);
    }
    ReleaseViews(s, i, now);
    FifoMoves(Departed(s.sent), ts[..i], ts[i], ts[i + 1..]);
    assert ts == ts[..i] + [ts[i]] + ts[i + 1..];
  }

  lemma LeavesInOrderStep(s: State, e: Event)
    requires KeysGrow(s) && LeavesInOrder(s) && Enabled(s, e)
    ensures LeavesInOrder(Step(s, e))
  {
    match e
    case Offer(_, _, _, _, _, _) => if !Refused(s, e) { LeavesInOrderAccept(s, e); }
    case Release(i, now) => LeavesInOrderRelease(s, i, now);
    case _ =>
  }

  // ---------- Release times in FIFO mode ----------

  /** `peak` is the greatest time requested by the FIFO copies of the log; 0 when there is none. */
  ghost predicate IsPeak(log: seq<Waiting>, peak: nat) {
    && (forall w <- log :: w.ticket.fifo ==> w.ticket.requested <= peak)
    && (peak == 0 || exists w <- log :: w.ticket.fifo && w.ticket.requested == peak)
  }

  /** Every FIFO copy was stored under the running maximum of the times requested up to it, any other under its own. */
  ghost predicate StoredAtPeak(s: State) {
    && IsPeak(s.queued, s.keys.maxForwardTime)
    && forall n :: 0 <= n < |s.queued| ==> StoredRight(s.queued, n)
  }

  ghost predicate StoredRight(log: seq<Waiting>, n: nat)
    requires n < |log|
  {
    if log[n].ticket.fifo then IsPeak(log[..n + 1], log[n].node.forwardTime)
    else log[n].node.forwardTime == log[n].ticket.requested
  }

  lemma PeakAppend(log: seq<Waiting>, peak: nat, w: Waiting)
    requires IsPeak(log, peak)
    ensures IsPeak(log + [w], if w.ticket.fifo && w.ticket.requested > peak then w.ticket.requested else peak)
  {
    assert w == (log + [w])[|log|];
    if peak > 0 {
      var v :| v in log && v.ticket.fifo && v.ticket.requested == peak;
      assert v in log + [w];
    }
  }

  lemma StoredRightAppend(log: seq<Waiting>, k: Keying, t: Ticket)
    requires IsPeak(log, k.maxForwardTime) && t.fifo == k.fifo
    requires forall n :: 0 <= n < |log| ==> StoredRight(log, n)
    ensures var longer := log + [Waiting(t, NodeFor(k, t.packet, t.requested))];
            && IsPeak(longer, NextKeying(k, t.requested).maxForwardTime)
            && forall n :: 0 <= n < |longer| ==> StoredRight(longer, n)
  {
    var w := Waiting(t, NodeFor(k, t.packet, t.requested));
    var longer := log + [w];
    PeakAppend(log, k.maxForwardTime, w);
    forall n | 0 <= n < |longer| ensures StoredRight(longer, n) {
      if n < |log| {
        assert StoredRight(log, n);
        assert longer[..n + 1] == log[..n + 1];
      } else {
        assert longer[..n + 1] == longer;
      }
    }
  }

  lemma StoredAtPeakStep(s: State, e: Event)
    requires StoredAtPeak(s)
    ensures StoredAtPeak(Step(s, e))
  {
    if e.Offer? && !Refused(s, e) && Queues(s, e) {
      StoredRightAppend(s.queued, s.keys, TicketFor(s, e));
    }
  }
}
