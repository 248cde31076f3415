/**
 The packet handler itself: `handlePacket` with its handlers, and the queue-timer branch of the
 event loop (libvdeplug_wirefilter.c:362-376, 431-616), on the heap of `Queue`. Every call extends
 a ghost run of the handler thread, so what holds in every run holds of the object.
 */
module EventLoop {
  import opened Packets
  import opened WireValues
  import opened Queue
  import opened Delivery
  import opened Handlers
  import opened LinkRuns
  import DeliveryRuns
  import ShortQueues
  import GilbertLoss
  import Rates

  // ---------- The object ----------

  function PacketsOf(ts: seq<Ticket>): seq<Packet> {
    seq(|ts|, i requires 0 <= i < |ts| => ts[i].packet)
  }

  /** The head of the heap has the least stored time. */
  lemma HeadHasHeadTime(ws: seq<Waiting>, head: QueueNode)
    requires IsHead(Nodes(ws), head)
    ensures ws != [] && head.forwardTime == HeadTime(ws)
  {
    var ns := Nodes(ws);
    var i :| 0 <= i < |ns| && ns[i] == head;
    assert ws[i] in ws;
    var w :| w in ws && HeadTime(ws) == w.node.forwardTime;
    var j :| 0 <= j < |ws| && ws[j] == w;
    assert ns[j] == w.node && ns[j] in ns;
  }

  /** `after` is `before` and the offers of some first copies of a frame. */
  ghost predicate AddsTurns(before: seq<Turn>, after: seq<Turn>, node: MarkovNode, frame: Frame, copies: seq<CopyInput>) {
    && |before| <= |after| <= |before| + |copies| && after[..|before|] == before
    && forall i :: |before| <= i < |after| ==> after[i] == Copy(node, frame, copies[i - |before|])
  }

  /** Handling `copies` from here leads to `target`, with `run` as the run of the machine. */
  ghost predicate Heading(events: seq<Event>, v: View, node: MarkovNode, frame: Frame, copies: seq<CopyInput>,
                          target: View, run: seq<Event>) {
    && Ordered(v.delivery.clock, copies) && AfterCopies(v, node, frame, copies) == target
    && events + Offers(v, node, frame, copies) == run
  }

  lemma FirstCopy(events: seq<Event>, v: View, node: MarkovNode, frame: Frame, copies: seq<CopyInput>)
    requires Ordered(v.delivery.clock, copies)
    ensures Heading(events, v, node, frame, copies[0..], AfterCopies(v, node, frame, copies), events + Offers(v, node, frame, copies))
  {
    assert copies[0..] == copies;
  }

  lemma NoCopyLeft(events: seq<Event>, v: View, node: MarkovNode, frame: Frame, copies: seq<CopyInput>, target: View, run: seq<Event>)
    requires Heading(events, v, node, frame, copies[|copies|..], target, run)
    ensures v == target && events == run
  {
    assert events + [] == events;
  }

  lemma NextCopy(events: seq<Event>, v: View, node: MarkovNode, frame: Frame, c: CopyInput, rest: seq<CopyInput>,
                 target: View, run: seq<Event>)
    requires Heading(events, v, node, frame, [c] + rest, target, run)
    ensures v.delivery.clock <= c.now <= c.armNow
    ensures var e, w := OfferOf(v, node, frame, c), AfterCopy(v, node, frame, c);
            if Refused(v.delivery, e) then w == target && events + [e] == run
            else Heading(events + [e], w, node, frame, rest, target, run)
  {
    var e, w, all := OfferOf(v, node, frame, c), AfterCopy(v, node, frame, c), [c] + rest;
    assert all[0] == c && all[1..] == rest;
    OrderedLater(v.delivery.clock, all, w.delivery.clock);
    assert events + ([e] + Offers(w, node, frame, rest)) == events + [e] + Offers(w, node, frame, rest);
  }

  lemma AddsTurn(before: seq<Turn>, turns: seq<Turn>, node: MarkovNode, frame: Frame, copies: seq<CopyInput>, i: nat)
    requires i < |copies| && |turns| == |before| + i && AddsTurns(before, turns, node, frame, copies)
    ensures AddsTurns(before, turns + [Copy(node, frame, copies[i])], node, frame, copies)
  {
  }

  lemma OrderedLater(clock: nat, copies: seq<CopyInput>, later: nat)
    requires Ordered(clock, copies) && copies != [] && later <= copies[0].armNow
    ensures Ordered(later, copies[1..])
  {
  }

  lemma {:induction false} OrderedPrefix(clock: nat, copies: seq<CopyInput>, n: nat)
    requires Ordered(clock, copies) && n <= |copies|
    ensures Ordered(clock, copies[..n])
    decreases n
  {
    if n > 0 {
      OrderedPrefix(copies[0].armNow, copies[1..], n - 1);
      assert copies[..n][1..] == copies[1..][..n - 1];
    }
  }

  lemma AcceptQueued(s: State, e: Event, t: Ticket, w: Waiting)
    requires e.Offer? && Queues(s, e) && t == TicketFor(s, e) && w == Waiting(t, NodeFor(s.keys, t.packet, t.requested))
    ensures var r := Accept(s, e);
            r.keys == NextKeying(s.keys, t.requested) && r.waiting == s.waiting + [w]
            && r.timer == ArmFor(s.waiting + [w], e.armNow) && r.sent == s.sent
  {
  }

  lemma AcceptDirect(s: State, e: Event, t: Ticket)
    requires e.Offer? && !Queues(s, e) && t == TicketFor(s, e)
    ensures var r := Accept(s, e);
            r.keys == s.keys && r.waiting == s.waiting && r.timer == s.timer
            && PacketsOf(Departed(r.sent)) == PacketsOf(Departed(s.sent)) + [t.packet]
  {
  }

  /** Clock readings that never go back, from `clock` to `end`. */
  ghost predicate NonDecreasing(clock: nat, readings: seq<nat>, end: nat)
    decreases |readings|
  {
    if readings == [] then clock <= end else clock <= readings[0] && NonDecreasing(readings[0], readings[1..], end)
  }

  lemma {:induction false} LastReading(clock: nat, readings: seq<nat>, end: nat)
    requires NonDecreasing(clock, readings, end)
    ensures clock <= end
    decreases |readings|
  {
    if readings != [] {
      LastReading(readings[0], readings[1..], end);
    }
  }

  lemma NextReading(clock: nat, readings: seq<nat>, end: nat, k: nat)
    requires k < |readings| && NonDecreasing(clock, readings[k..], end)
    ensures clock <= readings[k] <= end && NonDecreasing(readings[k], readings[k + 1..], end)
  {
    assert readings[k..][0] == readings[k] && readings[k..][1..] == readings[k + 1..];
    LastReading(readings[k], readings[k + 1..], end);
  }

  /** An integer stored into a signed C `char`. */
  function StoredInChar(x: int): (c: int)
    ensures -128 <= c < 128 && (c - x) % 256 == 0
  {
    var low := x % 256;
    if low < 128 then low else low - 256
  }

  lemma SmallWrap(x: nat)
    requires x < UINT_RANGE
    ensures Wrap(x) == x
  {
  }

  /** `after` is `before` and releases. */
  ghost predicate AddsReleases(before: seq<Event>, after: seq<Event>) {
    && |before| <= |after| && after[..|before|] == before
    && forall i :: |before| <= i < |after| ==> after[i].Release?
  }

  /** `after` is `before` and steps that are no offers. */
  ghost predicate AddsOthers(before: seq<Turn>, after: seq<Turn>) {
    && |before| <= |after| && after[..|before|] == before
    && forall i :: |before| <= i < |after| ==> after[i].Other?
  }

  lemma DrainSince(before: seq<Event>, after: seq<Event>) returns (drain: seq<Event>)
    requires AddsReleases(before, after)
    ensures AllReleases(drain) && after == before + drain
  {
    drain := after[|before|..];
  }

  lemma JoinReleases(a: seq<Event>, b: seq<Event>, c: seq<Event>)
    requires AddsReleases(a, b) && AddsReleases(b, c)
    ensures AddsReleases(a, c)
  {
    assert c[..|a|] == b[..|a|];
    assert forall i :: 0 <= i < |b| ==> c[i] == b[i];
  }

  lemma JoinOthers(a: seq<Turn>, b: seq<Turn>, c: seq<Turn>)
    requires AddsOthers(a, b) && AddsOthers(b, c)
    ensures AddsOthers(a, c)
  {
    assert c[..|a|] == b[..|a|];
    assert forall i :: 0 <= i < |b| ==> c[i] == b[i];
  }

  lemma OneMoreOther(a: seq<Turn>, b: seq<Turn>, e: Event)
    requires AddsOthers(a, b)
    ensures AddsOthers(a, b + [Other(e)])
  {
    JoinOthers(a, b, b + [Other(e)]);
  }

  ghost predicate AllReleases(drain: seq<Event>) {
    forall i :: 0 <= i < |drain| ==> drain[i].Release?
  }

  lemma {:induction false} FirstOccurrence(ns: seq<QueueNode>, n: QueueNode) returns (i: nat)
    requires n in ns
    ensures i < |ns| && ns[i] == n && Queue.Without(ns, n) == ns[..i] + ns[i + 1..]
  {
    if ns[0] == n {
      i := 0;
    } else {
      var j := FirstOccurrence(ns[1..], n);
      i := j + 1;
      assert ns[..i] + ns[i + 1..] == [ns[0]] + (ns[1..][..j] + ns[1..][j + 1..]);
    }
  }

  lemma ReleaseStep(s: State, i: nat, now: nat, node: QueueNode)
    requires OnTime(s) && s.draining && s.clock <= now && i < |s.waiting|
    requires IsHead(Nodes(s.waiting), node) && Nodes(s.waiting)[i] == node && s.waiting != [] && HeadTime(s.waiting) < now
    ensures Enabled(s, Release(i, now))
    ensures var r := Step(s, Release(i, now));
            && r.keys == s.keys && r.timer == s.timer
            && Nodes(r.waiting) == Nodes(s.waiting)[..i] + Nodes(s.waiting)[i + 1..]
            && PacketsOf(Departed(r.sent)) == PacketsOf(Departed(s.sent)) + [node.packet]
  {
    HeadHasHeadTime(s.waiting, node);
  }

  class Wirefilter {
    const queue: DelayQueue
    var timer: Timer                                   // queue.timerfd
    var current: MarkovNode                            // MARKOV_CURRENT(vde_conn)
    var speedNext: PerDirection<nat>
    var bandwidthNext: PerDirection<nat>
    var burstStatus: PerDirection<GilbertLoss.Burst>
    var sent: seq<Packet>                              // what sendPacket has handed on
    var nextCopy: nat                                  // the address of the next packetCopy
    ghost const initialFifo: bool
    ghost var turns: seq<Turn>                         // the run so far
    ghost var events: seq<Event>                       // the same, as a run of the machine
    ghost var delivery: State                          // where it has led

    ghost predicate Recorded()
      reads this`turns, this`events, this`delivery, this`speedNext, this`bandwidthNext
    {
      Leads(initialFifo, turns, events, Seen())
    }

    lemma RecordedLegally()
      requires Recorded()
      ensures Legal(initialFifo, events) && delivery == After(initialFifo, events)
    {
      LeadsLegally(initialFifo, turns, events, Seen());
    }

    ghost predicate Matches(s: State)
      reads this`timer, this`sent, this`nextCopy, queue`fifo, queue`maxForwardTime, queue`counter, queue`arrived
    {
      && queue.Keys() == s.keys && queue.arrived == Nodes(s.waiting)
      && timer == s.timer && sent == PacketsOf(Departed(s.sent)) && nextCopy == |s.accepted|
    }

    ghost predicate Valid()
      reads this`turns, this`events, this`delivery, this`speedNext, this`bandwidthNext, this`timer, this`sent, this`nextCopy, queue, queue.slots
    {
      queue.Valid() && Recorded() && !delivery.draining && Matches(delivery)
    }

    ghost function Seen(): View
      reads this`delivery, this`speedNext, this`bandwidthNext
    {
      View(delivery, RateState(speedNext, bandwidthNext))
    }

    constructor (fifo: bool, node: MarkovNode)
      ensures Valid() && fresh(queue) && turns == [] && events == [] && current == node
      ensures speedNext == bandwidthNext == PerDirection(0, 0)
      ensures burstStatus == PerDirection(GilbertLoss.Ok, GilbertLoss.Ok)
    {
      queue := new DelayQueue(fifo);
      timer, current := Disarmed, node;
      speedNext, bandwidthNext := PerDirection(0, 0), PerDirection(0, 0);
      burstStatus := PerDirection(GilbertLoss.Ok, GilbertLoss.Ok);
      sent, nextCopy := [], 0;
      initialFifo, turns, events, delivery := fifo, [], [], Initial(fifo);
    }

    /** Takes a step of the machine that is no offer. */
    ghost method Record(e: Event)
      requires Recorded() && Enabled(delivery, e) && !e.Offer?
      modifies this`turns, this`events, this`delivery
      ensures Recorded() && events == old(events) + [e] && turns == old(turns) + [Other(e)]
      ensures delivery == Step(old(delivery), e)
    {
      OneMoreTurn(initialFifo, turns, events, Seen(), Other(e));
      turns, events, delivery := turns + [Other(e)], events + [e], Step(delivery, e);
    }

    /** Offers a copy, from the view `v` before its handlers ran. */
    ghost method RecordCopy(v: View, frame: Frame, c: CopyInput)
      requires Leads(initialFifo, turns, events, v) && v.delivery == delivery
      requires Enabled(delivery, OfferOf(v, current, frame, c)) && !TooLong(current, frame)
      requires RateState(speedNext, bandwidthNext) == AfterCopy(v, current, frame, c).rates
      modifies this`turns, this`events, this`delivery
      ensures Recorded() && events == old(events) + [OfferOf(v, current, frame, c)]
      ensures turns == old(turns) + [Copy(current, frame, c)]
      ensures Seen() == AfterCopy(v, current, frame, c)
    {
      var e := OfferOf(v, current, frame, c);
      OneMoreTurn(initialFifo, turns, events, v, Copy(current, frame, c));
      turns, events, delivery := turns + [Copy(current, frame, c)], events + [e], AfterCopy(v, current, frame, c).delivery;
    }

    /** `fifo`: the argument is stored in a `char`, and only the value 1 is FIFO. */
    method SetFifo(arg: int)
      requires Valid()
      modifies this`turns, this`events, this`delivery, queue`fifo
      ensures Valid() && events == old(events) + [Delivery.SetFifo(StoredInChar(arg) == 1)]
      ensures turns == old(turns) + [Other(Delivery.SetFifo(StoredInChar(arg) == 1))]
    {
      queue.SetFifo(StoredInChar(arg) == 1);
      Record(Delivery.SetFifo(StoredInChar(arg) == 1));
    }

    /** setQueueTimer: for the head of the queue, or 1 ns from now if that has passed. */
    method SetQueueTimer(now: nat, ghost ws: seq<Waiting>)
      requires queue.Valid() && queue.size > 0 && queue.arrived == Nodes(ws)
      modifies this`timer
      ensures ws != [] && timer == ArmFor(ws, now)
    {
      var headTime := queue.NextQueueTime();
      ghost var head :| IsHead(queue.arrived, head) && headTime == head.forwardTime;
      HeadHasHeadTime(ws, head);
      var step := headTime - now;
      if step <= 0 {
        step := 1;
      }
      timer := Armed(now, now + step);
    }

    // ---------- What the runs say about the object ----------

    /** With FIFO on throughout, packets have left, and will leave, in the order in which their copies were made. */
    lemma SentInOrder()
      requires Valid() && initialFifo && DeliveryRuns.NoModeChange(events) && NeverOvertakes(true, events)
      ensures forall i :: 0 <= i < |sent| ==> sent[i].copy == i
      ensures forall i :: 0 <= i < queue.size ==> queue.arrived[i].packet.copy == |sent| + i
      ensures forall i, j :: 0 <= i < j < queue.size ==> Queue.Before(queue.arrived[i], queue.arrived[j])
    {
      RecordedLegally();
      DeliveryRuns.FifoRefinesList(events);
      DeliveryRuns.EveryRun(true, events);
      ghost var s := delivery;
      assert forall i :: 0 <= i < |sent| ==> s.accepted[i] == Departed(s.sent)[i];
      forall i | 0 <= i < queue.size ensures queue.arrived[i].packet.copy == |sent| + i {
        assert s.accepted[|sent| + i] == Tickets(s.waiting)[i] && s.waiting[i] in s.waiting;
      }
    }

    /** The byte counters are exact and within any limit that every copy was checked against. */
    lemma CountersStayBounded(limit: real, d: Direction)
      requires Valid() && DeliveryRuns.CheckedAgainst(events, limit) && 0.0 <= limit < UINT_RANGE as real
      ensures queue.byteSize.Get(d) == Bytes(queue.arrived, d) && queue.byteSize.Get(d) as real <= limit
    {
      RecordedLegally();
      DeliveryRuns.BufferNeverOverfull(initialFifo, events, limit, d);
      assert CounterIs(d, Bytes(queue.arrived, d));
      SmallWrap(Bytes(queue.arrived, d));
    }

    ghost predicate CounterIs(d: Direction, bytes: nat)
      reads queue`byteSize
    {
      queue.byteSize.Get(d) == Wrap(bytes)
    }

    /** The same without a word about the counter, while no delay is negative and fewer than 2^32 - 1 copies wait. */
    lemma ShortQueueSentInOrder()
      requires Valid() && initialFifo && DeliveryRuns.NoModeChange(events)
      requires ShortQueues.NoNegativeDelay(events) && ShortQueues.NeverMore(true, events, ShortQueues.CROWD)
      ensures forall i :: 0 <= i < |sent| ==> sent[i].copy == i
      ensures forall i :: 0 <= i < queue.size ==> queue.arrived[i].packet.copy == |sent| + i
    {
      RecordedLegally();
      ShortQueues.ShortQueuesNeverOvertake(true, events);
      SentInOrder();
    }

    /** While every node in force limits the buffer, the byte counters are exact and within the largest size. */
    lemma CountersStayWithinSizes(limit: real, d: Direction)
      requires Valid() && AllSized(turns, limit) && 0.0 <= limit < UINT_RANGE as real
      ensures queue.byteSize.Get(d) == Bytes(queue.arrived, d) && queue.byteSize.Get(d) as real <= limit
    {
      SizedTurnsAreChecked(initialFifo, turns, limit);
      CountersStayBounded(limit, d);
    }

    /** The rate fields are the finish times of single servers for the accepted copies of their direction. */
    lemma FieldsFinishLines(d: Direction)
      requires Valid()
      ensures bandwidthNext.Get(d) == Rates.Finish(Arrivals(Line(initialFifo, turns, d)))
      ensures speedNext.Get(d) == Rates.Finish(Entries(Line(initialFifo, turns, d)))
    {
      FieldsAreFinishTimes(initialFifo, turns, d);
    }

    // ---------- Handlers ----------

    method BufferSizeHandler(packet: Packet, draw: Draw) returns (drop: bool)
      ensures drop <==> var c := Capacity(current, packet.direction, draw);
                        c.Some? && (queue.byteSize.Get(packet.direction) + packet.len) as real > c.value
    {
      drop := false;
      if MaxWireValue(current, CHANBUFSIZE, packet.direction) != 0.0 {
        var bufferMaxSize := ComputeWireValue(current, CHANBUFSIZE, packet.direction, draw);
        drop := (queue.byteSize.Get(packet.direction) + packet.len) as real > bufferMaxSize;
      }
    }

    method SpeedHandler(frame: Frame, c: CopyInput) returns (delayMs: real)
      modifies this`speedNext
      ensures var (next, delay) := SpeedFor(current, old(speedNext).Get(frame.direction), frame, c);
              delayMs == delay && speedNext == old(speedNext).Set(frame.direction, next)
    {
      var d := frame.direction;
      delayMs := 0.0;
      if MaxWireValue(current, SPEED, d) > 0.0 {
        var speed := ComputeWireValue(current, SPEED, d, c.speed);
        if speed <= 0.0 {
          return Rates.DROP_DELAY;
        }
        delayMs := Rates.TransmissionMs(frame.len, speed);
        if c.speedNow > speedNext.Get(d) {
          speedNext := speedNext.Set(d, c.speedNow);
        }
        speedNext := speedNext.Set(d, speedNext.Get(d) + Rates.Charge(frame.len, speed));
      }
    }

    method BandwidthHandler(frame: Frame, c: CopyInput) returns (delayMs: real)
      modifies this`bandwidthNext
      ensures var (next, delay) := BandwidthFor(current, old(bandwidthNext).Get(frame.direction), frame, c);
              delayMs == delay && bandwidthNext == old(bandwidthNext).Set(frame.direction, next)
    {
      var d := frame.direction;
      delayMs := 0.0;
      if MaxWireValue(current, BANDWIDTH, d) > 0.0 {
        var bandwidth := ComputeWireValue(current, BANDWIDTH, d, c.bandwidth);
        if bandwidth <= 0.0 {
          return Rates.DROP_DELAY;
        }
        var sendTimeMs := Rates.TransmissionMs(frame.len, bandwidth);
        if c.bandwidthNow > bandwidthNext.Get(d) {
          bandwidthNext := bandwidthNext.Set(d, c.bandwidthNow);
          delayMs := sendTimeMs;
        } else {
          var diff := (bandwidthNext.Get(d) - c.bandwidthNow) / Rates.NS_PER_MS;
          delayMs := diff as real + sendTimeMs;
        }
        bandwidthNext := bandwidthNext.Set(d, bandwidthNext.Get(d) + Rates.Charge(frame.len, bandwidth));
      }
    }

    method DelayHandler(frame: Frame, draw: Draw) returns (delayMs: real)
      ensures delayMs == DelayFor(current, frame.direction, draw)
    {
      delayMs := 0.0;
      if MaxWireValue(current, DELAY, frame.direction) > 0.0 {
        var delayValue := ComputeWireValue(current, DELAY, frame.direction, draw);
        if delayValue > 0.0 {
          delayMs := delayValue;
        }
      }
    }

    method LossHandler(frame: Frame, input: LossInput) returns (verdict: GilbertLoss.Verdict)
      modifies this`burstStatus
      ensures var (status, v) := Loss(current, frame.direction, old(burstStatus).Get(frame.direction), input);
              verdict == v && burstStatus == old(burstStatus).Set(frame.direction, status)
    {
      var d := frame.direction;
      if MinWireValue(current, LOSS, d) >= 100.0 {
        return GilbertLoss.Drop;
      }
      var lossVal := ComputeWireValue(current, LOSS, d, input.loss) / 100.0;
      if MaxWireValue(current, BURSTYLOSS, d) > 0.0 {
        var burstLen := ComputeWireValue(current, BURSTYLOSS, d, input.burst);
        verdict := BurstyLossHandler(d, input.draw, lossVal, burstLen);
        return;
      }
      burstStatus := burstStatus.Set(d, GilbertLoss.Ok);
      return if input.draw < lossVal then GilbertLoss.Drop else GilbertLoss.Forward;
    }

    /** The Gilbert branch: the draw may change the state, and the new state decides. */
    method BurstyLossHandler(d: Direction, draw: real, lossVal: real, burstLen: real) returns (verdict: GilbertLoss.Verdict)
      modifies this`burstStatus
      ensures var (status, v) := GilbertLoss.BurstyLoss(old(burstStatus).Get(d), draw, lossVal, burstLen);
              verdict == v && burstStatus == old(burstStatus).Set(d, status)
    {
      match burstStatus.Get(d) {
        case Ok =>
          if GilbertLoss.BelowQuotient(draw, lossVal, burstLen, 1.0 - lossVal) {
            burstStatus := burstStatus.Set(d, GilbertLoss.Faulty);
          }
        case Faulty =>
          if GilbertLoss.BelowQuotient(draw, 1.0, burstLen, 1.0) {
            burstStatus := burstStatus.Set(d, GilbertLoss.Ok);
          }
      }
      return if burstStatus.Get(d) != GilbertLoss.Ok then GilbertLoss.Drop else GilbertLoss.Forward;
    }

    /** The source loops until a draw does not duplicate; the inputs must contain such a draw. */
    method DuplicatesHandler(frame: Frame, inputs: seq<DupInput>) returns (times: nat)
      requires MaxWireValue(current, DUP, frame.direction) > 0.0 ==>
                 exists i :: 0 <= i < |inputs| && !Duplicates(current, frame.direction, inputs[i])
      ensures times == DuplicateTimes(current, frame.direction, inputs)
    {
      times := 0;
      if MaxWireValue(current, DUP, frame.direction) > 0.0 {
        while Duplicates(current, frame.direction, inputs[times])
          invariant times < |inputs|
          invariant forall i :: 0 <= i < times ==> Duplicates(current, frame.direction, inputs[i])
          invariant DuplicateTimes(current, frame.direction, inputs) == times + DuplicateTimes(current, frame.direction, inputs[times..])
          decreases |inputs| - times
        {
          times := times + 1;
        }
      }
    }

    method SendPacket(packet: Packet)
      modifies this`sent
      ensures sent == old(sent) + [packet]
    {
      sent := sent + [packet];
    }

    // ---------- handlePacket ----------

    method DelayCopy(frame: Frame, c: CopyInput) returns (delayMs: real)
      modifies this`speedNext, this`bandwidthNext
      ensures (RateState(speedNext, bandwidthNext), delayMs) == Delayed(old(RateState(speedNext, bandwidthNext)), current, frame, c)
    {
      var speedDelay := SpeedHandler(frame, c);
      var bandwidthDelay := BandwidthHandler(frame, c);
      var delay := DelayHandler(frame, c.delay);
      delayMs := speedDelay + bandwidthDelay + delay;
    }

    /** What of `Matches` the queue sees. */
    ghost predicate QueueMatches(s: State)
      reads this`timer, queue`fifo, queue`maxForwardTime, queue`counter, queue`arrived
    {
      queue.Keys() == s.keys && queue.arrived == Nodes(s.waiting) && timer == s.timer
    }

    /** The copy goes into the queue, or out at once. */
    method Route(packet: Packet, delayMs: real, now: nat, armNow: nat, ghost s: State, ghost e: Event)
      requires queue.Valid() && QueueMatches(s) && sent == PacketsOf(Departed(s.sent))
      requires e.Offer? && e.delayMs == delayMs && e.now == now && e.armNow == armNow
      requires packet == Packet(|s.accepted|, e.len, e.direction)
      modifies this`timer, this`sent, queue, queue.slots
      ensures queue.Valid() && (queue.slots == old(queue.slots) || fresh(queue.slots))
      ensures QueueMatches(Accept(s, e)) && sent == PacketsOf(Departed(Accept(s, e).sent))
    {
      assert queue.size == |Nodes(s.waiting)|;
      ghost var t := TicketFor(s, e);
      if delayMs > 0.0 || (queue.fifo && queue.size > 0) {
        ghost var w := Waiting(t, NodeFor(s.keys, t.packet, t.requested));
        AcceptQueued(s, e, t, w);
        EnqueueCopy(packet, RequestedTime(now, delayMs), armNow, s.waiting, w);
      } else {
        AcceptDirect(s, e, t);
        SendPacket(packet);
      }
    }

    method EnqueueCopy(packet: Packet, requested: nat, armNow: nat, ghost ws: seq<Waiting>, ghost w: Waiting)
      requires queue.Valid() && queue.arrived == Nodes(ws) && w.node == NodeFor(queue.Keys(), packet, requested)
      modifies this`timer, queue, queue.slots
      ensures queue.Valid() && (queue.slots == old(queue.slots) || fresh(queue.slots))
      ensures queue.Keys() == NextKeying(old(queue.Keys()), requested)
      ensures queue.arrived == Nodes(ws + [w]) && timer == ArmFor(ws + [w], armNow)
    {
      queue.Enqueue(packet, requested);
      assert Nodes(ws + [w]) == Nodes(ws) + [w.node];
      SetQueueTimer(armNow, ws + [w]);
    }

    lemma RefusalSeen(s: State, e: Event, refused: bool)
      requires queue.Valid() && queue.arrived == Nodes(s.waiting) && e.Offer?
      requires refused <==> e.capacity.Some? && (queue.byteSize.Get(e.direction) + e.len) as real > e.capacity.value
      ensures refused <==> Refused(s, e)
    {
      assert queue.byteSize.Get(e.direction) == ByteSize(s, e.direction);
    }

    /** One turn of the copy loop; `false` when the copy was refused, which ends the packet. */
    method HandleCopy(frame: Frame, c: CopyInput) returns (accepted: bool)
      requires Valid() && delivery.clock <= c.now <= c.armNow && !TooLong(current, frame)
      modifies this`turns, this`events, this`delivery, this`timer, this`sent, this`nextCopy, this`speedNext, this`bandwidthNext, queue, queue.slots
      ensures Valid() && (queue.slots == old(queue.slots) || fresh(queue.slots))
      ensures events == old(events) + [OfferOf(old(Seen()), current, frame, c)]
      ensures turns == old(turns) + [Copy(current, frame, c)]
      ensures Seen() == AfterCopy(old(Seen()), current, frame, c)
      ensures accepted <==> !Refused(old(delivery), OfferOf(old(Seen()), current, frame, c))
    {
      ghost var e := OfferOf(Seen(), current, frame, c);
      var packet := Packet(nextCopy, frame.len, frame.direction);
      var refused := BufferSizeHandler(packet, c.buffer);
      RefusalSeen(delivery, e, refused);
      if refused {
        RefuseCopy(frame, c);
      } else {
        AcceptCopy(packet, frame, c, e);
      }
      accepted := !refused;
    }

    ghost method RefuseCopy(frame: Frame, c: CopyInput)
      requires Valid() && Refused(delivery, OfferOf(Seen(), current, frame, c)) && delivery.clock <= c.now <= c.armNow
      requires !TooLong(current, frame)
      modifies this`turns, this`events, this`delivery
      ensures Valid() && events == old(events) + [OfferOf(old(Seen()), current, frame, c)] && delivery == old(delivery)
      ensures turns == old(turns) + [Copy(current, frame, c)]
    {
      RecordCopy(Seen(), frame, c);
    }

    method AcceptCopy(packet: Packet, frame: Frame, c: CopyInput, ghost e: Event)
      requires Valid() && delivery.clock <= c.now <= c.armNow && !TooLong(current, frame)
      requires packet == Packet(nextCopy, frame.len, frame.direction)
      requires e == OfferOf(Seen(), current, frame, c) && !Refused(delivery, e)
      modifies this`turns, this`events, this`delivery, this`timer, this`sent, this`nextCopy, this`speedNext, this`bandwidthNext, queue, queue.slots
      ensures Valid() && (queue.slots == old(queue.slots) || fresh(queue.slots))
      ensures events == old(events) + [e] && turns == old(turns) + [Copy(current, frame, c)]
      ensures Seen() == AfterCopy(old(Seen()), current, frame, c)
    {
      ghost var v := Seen();
      PlaceCopy(packet, frame, c, v, e);
      RecordCopy(v, frame, c);
    }

    method PlaceCopy(packet: Packet, frame: Frame, c: CopyInput, ghost v: View, ghost e: Event)
      requires queue.Valid() && Matches(v.delivery) && v.rates == RateState(speedNext, bandwidthNext)
      requires packet == Packet(nextCopy, frame.len, frame.direction) && e == OfferOf(v, current, frame, c)
      modifies this`timer, this`sent, this`nextCopy, this`speedNext, this`bandwidthNext, queue, queue.slots
      ensures queue.Valid() && (queue.slots == old(queue.slots) || fresh(queue.slots))
      ensures Matches(Accept(v.delivery, e)) && RateState(speedNext, bandwidthNext) == Delayed(v.rates, current, frame, c).0
    {
      var delayMs := DelayCopy(frame, c);
      Route(packet, delayMs, c.now, c.armNow, v.delivery, e);
      nextCopy := nextCopy + 1;
    }

    method MtuHandler(frame: Frame) returns (verdict: GilbertLoss.Verdict)
      ensures verdict == GilbertLoss.Drop <==> TooLong(current, frame)
    {
      if MinWireValue(current, MTU, frame.direction) > 0.0 && frame.len as real > MinWireValue(current, MTU, frame.direction) {
        return GilbertLoss.Drop;
      }
      return GilbertLoss.Forward;
    }

    /** The copies of a packet that passed the MTU and the loss check: 1 + duplicates, or up to the first one refused. */
    method HandleCopies(frame: Frame, copies: seq<CopyInput>)
      requires Valid() && Ordered(delivery.clock, copies) && (copies != [] ==> !TooLong(current, frame))
      modifies this`turns, this`events, this`delivery, this`timer, this`sent, this`nextCopy, this`speedNext, this`bandwidthNext, queue, queue.slots
      ensures Valid() && (queue.slots == old(queue.slots) || fresh(queue.slots))
      ensures Seen() == AfterCopies(old(Seen()), current, frame, copies)
      ensures events == old(events) + Offers(old(Seen()), current, frame, copies)
      ensures AddsTurns(old(turns), turns, current, frame, copies)
    {
      ghost var before, target := turns, AfterCopies(Seen(), current, frame, copies);
      ghost var run := events + Offers(Seen(), current, frame, copies);
      FirstCopy(events, Seen(), current, frame, copies);
      for i := 0 to |copies|
        invariant queue.slots == old(queue.slots) || fresh(queue.slots)
        invariant Underway(before, frame, copies, i, target, run)
      {
        var accepted := HandleNext(frame, copies, i, before, target, run);
        if !accepted {
          return;
        }
      }
      NoCopyLeft(events, Seen(), current, frame, copies, target, run);
    }

    /** The first i copies are handled; the others lead to `target`, with `run` as the run of the machine. */
    ghost predicate Underway(before: seq<Turn>, frame: Frame, copies: seq<CopyInput>, i: nat, target: View, run: seq<Event>)
      reads this`turns, this`events, this`delivery, this`speedNext, this`bandwidthNext, this`timer, this`sent, this`nextCopy
      reads this`current, queue, queue.slots
    {
      && Valid() && i <= |copies| && |turns| == |before| + i && AddsTurns(before, turns, current, frame, copies)
      && Heading(events, Seen(), current, frame, copies[i..], target, run)
    }

    method HandleNext(frame: Frame, copies: seq<CopyInput>, i: nat, ghost before: seq<Turn>, ghost target: View, ghost run: seq<Event>)
      returns (accepted: bool)
      requires Underway(before, frame, copies, i, target, run) && i < |copies| && !TooLong(current, frame)
      modifies this`turns, this`events, this`delivery, this`timer, this`sent, this`nextCopy, this`speedNext, this`bandwidthNext, queue, queue.slots
      ensures queue.slots == old(queue.slots) || fresh(queue.slots)
      ensures if accepted then Underway(before, frame, copies, i + 1, target, run)
              else Valid() && Seen() == target && events == run && AddsTurns(before, turns, current, frame, copies)
    {
      assert copies[i..] == [copies[i]] + copies[i + 1..];
      NextCopy(events, Seen(), current, frame, copies[i], copies[i + 1..], target, run);
      AddsTurn(before, turns, current, frame, copies, i);
      accepted := HandleCopy(frame, copies[i]);
    }

    /** The queue, the rate fields and the loss status. */
    ghost function State(): Link
      reads this`delivery, this`speedNext, this`bandwidthNext, this`burstStatus
    {
      Link(Seen(), burstStatus)
    }

    /** Handles one packet; returns 1 + duplicates, or 0 for a packet dropped by MTU or loss. */
    method HandlePacket(frame: Frame, input: PacketInput) returns (sendTimes: nat)
      requires Valid() && Ordered(delivery.clock, input.copies)
      requires MaxWireValue(current, DUP, frame.direction) > 0.0 ==>
                 exists i :: 0 <= i < |input.dups| && !Duplicates(current, frame.direction, input.dups[i])
      requires SendTimes(current, frame, burstStatus.Get(frame.direction), input) <= |input.copies|
      modifies this`turns, this`events, this`delivery, this`timer, this`sent, this`nextCopy, this`speedNext, this`bandwidthNext, this`burstStatus
      modifies queue, queue.slots
      ensures Valid() && (queue.slots == old(queue.slots) || fresh(queue.slots))
      ensures sendTimes == SendTimes(current, frame, old(burstStatus).Get(frame.direction), input)
      ensures State() == AfterPacket(old(State()), current, frame, input)
      ensures events == old(events) + Offers(old(Seen()), current, frame, input.copies[..sendTimes])
      ensures AddsTurns(old(turns), turns, current, frame, input.copies[..sendTimes])
    {
      sendTimes := CountCopies(frame, input);
      HandleFirst(frame, input.copies, sendTimes);
    }

    method HandleFirst(frame: Frame, copies: seq<CopyInput>, n: nat)
      requires Valid() && Ordered(delivery.clock, copies) && n <= |copies| && (n > 0 ==> !TooLong(current, frame))
      modifies this`turns, this`events, this`delivery, this`timer, this`sent, this`nextCopy, this`speedNext, this`bandwidthNext, queue, queue.slots
      ensures Valid() && (queue.slots == old(queue.slots) || fresh(queue.slots))
      ensures Seen() == AfterCopies(old(Seen()), current, frame, copies[..n])
      ensures events == old(events) + Offers(old(Seen()), current, frame, copies[..n])
      ensures AddsTurns(old(turns), turns, current, frame, copies[..n])
    {
      OrderedPrefix(delivery.clock, copies, n);
      HandleCopies(frame, copies[..n]);
    }

    /** How many copies of a packet are to be sent. */
    method CountCopies(frame: Frame, input: PacketInput) returns (sendTimes: nat)
      requires MaxWireValue(current, DUP, frame.direction) > 0.0 ==>
                 exists i :: 0 <= i < |input.dups| && !Duplicates(current, frame.direction, input.dups[i])
      modifies this`burstStatus
      ensures sendTimes == SendTimes(current, frame, old(burstStatus).Get(frame.direction), input)
      ensures sendTimes > 0 ==> !TooLong(current, frame)
      ensures burstStatus == StatusAfter(current, frame, old(burstStatus), input.loss)
    {
      var dropped := DropPacket(frame, input.loss);
      if dropped {
        return 0;
      }
      var duplicates := DuplicatesHandler(frame, input.dups);
      return 1 + duplicates;
    }

    /** The first two checks of handlePacket. */
    method DropPacket(frame: Frame, loss: LossInput) returns (dropped: bool)
      modifies this`burstStatus
      ensures dropped <==> Dropped(current, frame, old(burstStatus).Get(frame.direction), loss)
      ensures burstStatus == StatusAfter(current, frame, old(burstStatus), loss)
    {
      var mtu := MtuHandler(frame);
      if mtu == GilbertLoss.Drop {
        return true;
      }
      var lost := LossHandler(frame, loss);
      return lost == GilbertLoss.Drop;
    }

    // ---------- The queue-timer branch ----------

    ghost predicate Draining()
      reads this`turns, this`events, this`delivery, this`speedNext, this`bandwidthNext, this`timer, this`sent, this`nextCopy, queue, queue.slots
    {
      queue.Valid() && Recorded() && delivery.draining && Matches(delivery)
    }

    /**
     The queue timer is readable. `readings` are the clock readings of the loop test, which reads the
     clock at most once per queued packet; `last` is the last of them, if there was one.
     */
    method QueueTimerFires(readings: seq<nat>, armNow: nat) returns (ghost drain: seq<Event>, ghost last: nat)
      requires Valid() && NonDecreasing(delivery.clock, readings, armNow) && queue.size <= |readings|
      modifies this`turns, this`events, this`delivery, this`timer, this`sent, queue, queue.slots
      ensures Valid() && (queue.slots == old(queue.slots) || fresh(queue.slots))
      ensures AllReleases(drain) && AddsOthers(old(turns), turns)
      ensures events == old(events) + [TimerFires] + drain + [EndDrain(last, armNow)]
      ensures delivery.waiting == DeliveryRuns.NotDue(old(delivery.waiting), last)
      ensures old(delivery.waiting) != [] && HeadTime(old(delivery.waiting)) < last ==> drain != []
    {
      ghost var before := events;
      RecordedLegally();
      drain, last := TimerBranch(readings, armNow);
      RecordedLegally();
      DeliveryRuns.DrainReleasesWhatIsDue(initialFifo, before, drain, last, armNow);
    }

    method TimerBranch(readings: seq<nat>, armNow: nat) returns (ghost drain: seq<Event>, ghost last: nat)
      requires Valid() && NonDecreasing(delivery.clock, readings, armNow) && queue.size <= |readings|
      modifies this`turns, this`events, this`delivery, this`timer, this`sent, queue, queue.slots
      ensures Valid() && (queue.slots == old(queue.slots) || fresh(queue.slots))
      ensures AllReleases(drain) && AddsOthers(old(turns), turns)
      ensures events == old(events) + [TimerFires] + drain + [EndDrain(last, armNow)]
    {
      timer := Disarmed;
      Record(TimerFires);
      ghost var fired, t0, t1 := events, old(turns), turns;
      last := ReleaseDue(readings, armNow);
      drain := DrainSince(fired, events);
      OneMoreOther(t0, t0, TimerFires);
      JoinOthers(t0, t1, turns);
      OneMoreOther(t0, turns, EndDrain(last, armNow));
      EndBranch(last, armNow);
    }

    /** Since the run was at `s0` and `t0`, copies have been released and nothing else has happened. */
    ghost predicate OnlyReleased(s0: seq<Event>, t0: seq<Turn>)
      reads this`turns, this`events
    {
      AddsReleases(s0, events) && AddsOthers(t0, turns)
    }

    /** The drain loop has used k readings. */
    ghost predicate Releasing(s0: seq<Event>, t0: seq<Turn>, readings: seq<nat>, k: nat, armNow: nat)
      reads this`turns, this`events, this`delivery, this`speedNext, this`bandwidthNext, this`timer, this`sent, this`nextCopy, queue, queue.slots
    {
      && Draining() && k + queue.size <= |readings| && NonDecreasing(delivery.clock, readings[k..], armNow)
      && OnlyReleased(s0, t0)
    }

    /** At the reading `last` no waiting copy is due. */
    ghost predicate NoneDue(last: nat)
      reads this`delivery
    {
      delivery.clock <= last && forall w <- delivery.waiting :: last <= w.node.forwardTime
    }

    method ReleaseDue(readings: seq<nat>, armNow: nat) returns (ghost last: nat)
      requires Draining() && NonDecreasing(delivery.clock, readings, armNow) && queue.size <= |readings|
      modifies this`turns, this`events, this`delivery, this`sent, queue, queue.slots
      ensures Draining() && queue.slots == old(queue.slots)
      ensures OnlyReleased(old(events), old(turns)) && NoneDue(last) && last <= armNow
    {
      last := delivery.clock;
      ghost var s0, t0 := events, turns;
      var k := 0;
      while queue.size > 0
        invariant queue.slots == old(queue.slots)
        invariant Releasing(s0, t0, readings, k, armNow) && last == delivery.clock
        decreases queue.size
      {
        var due;
        due, last := DrainOnce(readings, k, armNow, s0, t0);
        if !due {
          return;
        }
        k := k + 1;
      }
      LastReading(delivery.clock, readings[k..], armNow);
      assert |Nodes(delivery.waiting)| == 0;
    }

    method DrainOnce(readings: seq<nat>, k: nat, armNow: nat, ghost s0: seq<Event>, ghost t0: seq<Turn>)
      returns (due: bool, ghost last: nat)
      requires Releasing(s0, t0, readings, k, armNow) && queue.size > 0
      modifies this`turns, this`events, this`delivery, this`sent, queue, queue.slots
      ensures queue.slots == old(queue.slots)
      ensures due ==> Releasing(s0, t0, readings, k + 1, armNow) && queue.size < old(queue.size) && last == delivery.clock
      ensures !due ==> Draining() && OnlyReleased(s0, t0) && NoneDue(last) && last <= armNow
    {
      var now := readings[k];
      NextReading(delivery.clock, readings, armNow, k);
      ghost var s1, t1 := events, turns;
      due := ReleaseIfDue(now);
      JoinReleases(s0, s1, events);
      JoinOthers(t0, t1, turns);
      last := now;
    }

    /** One test of the drain loop, and its body. */
    method ReleaseIfDue(now: nat) returns (due: bool)
      requires Draining() && queue.size > 0 && delivery.clock <= now
      modifies this`turns, this`events, this`delivery, this`sent, queue, queue.slots
      ensures Draining() && queue.slots == old(queue.slots) && OnlyReleased(old(events), old(turns))
      ensures !due ==> unchanged(this`turns, this`events, this`delivery) && NoneDue(now)
      ensures due ==> queue.size == old(queue.size) - 1 && delivery.clock == now
    {
      due := HeadIsDue(now);
      if due {
        ghost var e := ReleaseHead(now);
      }
    }

    /** nextQueueTime(vde_conn) < now */
    method HeadIsDue(now: nat) returns (due: bool)
      requires Draining() && queue.size > 0
      ensures delivery.waiting != [] && (due <==> HeadTime(delivery.waiting) < now)
    {
      var headTime := queue.NextQueueTime();
      ghost var head :| IsHead(queue.arrived, head) && headTime == head.forwardTime;
      HeadHasHeadTime(delivery.waiting, head);
      due := headTime < now;
    }

    method ReleaseHead(now: nat) returns (ghost e: Event)
      requires Draining() && queue.size > 0 && delivery.clock <= now
      requires delivery.waiting != [] && HeadTime(delivery.waiting) < now
      modifies this`turns, this`events, this`delivery, this`sent, queue, queue.slots
      ensures Draining() && queue.slots == old(queue.slots)
      ensures e.Release? && events == old(events) + [e] && turns == old(turns) + [Other(e)]
      ensures queue.size == old(queue.size) - 1 && delivery.clock == now
    {
      RecordedLegally();
      DeliveryRuns.EveryRun(initialFifo, events);
      var i := SendHead(now, delivery);
      e := Release(i, now);
      Record(e);
    }

    method SendHead(now: nat, ghost s: State) returns (ghost i: nat)
      requires queue.Valid() && queue.size > 0 && QueueMatches(s) && sent == PacketsOf(Departed(s.sent))
      requires OnTime(s) && s.draining && s.clock <= now && s.waiting != [] && HeadTime(s.waiting) < now
      modifies this`sent, queue, queue.slots
      ensures queue.Valid() && queue.slots == old(queue.slots) && queue.size == old(queue.size) - 1
      ensures Enabled(s, Release(i, now)) && QueueMatches(Step(s, Release(i, now)))
      ensures sent == PacketsOf(Departed(Step(s, Release(i, now)).sent))
    {
      ghost var ns := Nodes(s.waiting);
      var out, node := queue.Dequeue();
      i := FirstOccurrence(ns, node);
      ReleaseStep(s, i, now, node);
      SendPacket(out.value);
    }

    method EndBranch(ghost last: nat, armNow: nat)
      requires Draining() && NoneDue(last) && last <= armNow
      modifies this`turns, this`events, this`delivery, this`timer
      ensures Valid() && events == old(events) + [EndDrain(last, armNow)] && turns == old(turns) + [Other(EndDrain(last, armNow))]
    {
      assert queue.size == |Nodes(delivery.waiting)|;
      if queue.size > 0 {
        SetQueueTimer(armNow, delivery.waiting);
      }
      RecordedLegally();
      DeliveryRuns.EveryRun(initialFifo, events);
      Record(EndDrain(last, armNow));
    }
  }
}
