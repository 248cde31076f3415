/**
 The handlers of `handlePacket` (libvdeplug_wirefilter.c:431-616) as functions of the current node,
 the randomness and the clock readings, and what handling the copies of a packet does to the machine
 of `Delivery`.
 */
module Handlers {
  import opened Packets
  import opened WireValues
  import opened Queue
  import opened Delivery
  import DeliveryRuns
  import GilbertLoss
  import Rates

  datatype Frame = Frame(len: nat, direction: Direction)

  /** The randomness and clock readings spent on one copy of a packet. */
  datatype CopyInput = CopyInput(buffer: Draw, speed: Draw, bandwidth: Draw, delay: Draw,
                                 speedNow: nat, bandwidthNow: nat, now: nat, armNow: nat)

  datatype RateState = RateState(speedNext: PerDirection<nat>, bandwidthNext: PerDirection<nat>)

  /** What the handlers change, apart from the loss status. */
  datatype View = View(delivery: State, rates: RateState)

  ghost predicate Ordered(clock: nat, copies: seq<CopyInput>)
    decreases |copies|
  {
    copies == [] ||
    (clock <= copies[0].speedNow <= copies[0].bandwidthNow <= copies[0].now <= copies[0].armNow
     && Ordered(copies[0].armNow, copies[1..]))
  }

  // ---------- The handlers, as functions of the current node ----------

  /** The computed buffer size, if there is a limit. */
  function Capacity(node: MarkovNode, d: Direction, draw: Draw): Option<real> {
    if MaxWireValue(node, CHANBUFSIZE, d) != 0.0 then Some(ComputeWireValue(node, CHANBUFSIZE, d, draw)) else None
  }

  function SpeedFor(node: MarkovNode, next: nat, frame: Frame, c: CopyInput): (nat, real) {
    if MaxWireValue(node, SPEED, frame.direction) > 0.0
    then Rates.Speed(next, Rates.Arrival(c.speedNow, frame.len, ComputeWireValue(node, SPEED, frame.direction, c.speed)))
    else (next, 0.0)
  }

  function BandwidthFor(node: MarkovNode, next: nat, frame: Frame, c: CopyInput): (nat, real) {
    if MaxWireValue(node, BANDWIDTH, frame.direction) > 0.0
    then Rates.Bandwidth(next, Rates.Arrival(c.bandwidthNow, frame.len, ComputeWireValue(node, BANDWIDTH, frame.direction, c.bandwidth)))
    else (next, 0.0)
  }

  function DelayFor(node: MarkovNode, d: Direction, draw: Draw): real {
    if MaxWireValue(node, DELAY, d) > 0.0 && ComputeWireValue(node, DELAY, d, draw) > 0.0
    then ComputeWireValue(node, DELAY, d, draw) else 0.0
  }

  /** `speed_next` and `bandwidth_next`, and the delay in force, after the three delay handlers. */
  function Delayed(r: RateState, node: MarkovNode, frame: Frame, c: CopyInput): (RateState, real) {
    var d := frame.direction;
    var (speedNext, speedDelay) := SpeedFor(node, r.speedNext.Get(d), frame, c);
    var (bandwidthNext, bandwidthDelay) := BandwidthFor(node, r.bandwidthNext.Get(d), frame, c);
    (RateState(r.speedNext.Set(d, speedNext), r.bandwidthNext.Set(d, bandwidthNext)),
     speedDelay + bandwidthDelay + DelayFor(node, d, c.delay))
  }

  /** The offer one copy makes to the queue. */
  function OfferOf(v: View, node: MarkovNode, frame: Frame, c: CopyInput): (e: Event)
    ensures e.Offer?
  {
    Offer(frame.len, frame.direction, Capacity(node, frame.direction, c.buffer), Delayed(v.rates, node, frame, c).1, c.now, c.armNow)
  }

  function AfterCopy(v: View, node: MarkovNode, frame: Frame, c: CopyInput): View {
    var e := OfferOf(v, node, frame, c);
    if Refused(v.delivery, e) then v
    else View(Accept(v.delivery, e), Delayed(v.rates, node, frame, c).0)
  }

  /** The copies are made in turn; the first refused one ends the packet. */
  function AfterCopies(v: View, node: MarkovNode, frame: Frame, copies: seq<CopyInput>): View
    decreases |copies|
  {
    if copies == [] || Refused(v.delivery, OfferOf(v, node, frame, copies[0])) then v
    else AfterCopies(AfterCopy(v, node, frame, copies[0]), node, frame, copies[1..])
  }

  /** The offers a packet makes: up to the first one refused. */
  function Offers(v: View, node: MarkovNode, frame: Frame, copies: seq<CopyInput>): seq<Event>
    decreases |copies|
  {
    if copies == [] then []
    else
      var e := OfferOf(v, node, frame, copies[0]);
      [e] + if Refused(v.delivery, e) then [] else Offers(AfterCopy(v, node, frame, copies[0]), node, frame, copies[1..])
  }

  /** A packet longer than the limit is dropped; 0 is no limit. */
  predicate TooLong(node: MarkovNode, frame: Frame) {
    var mtu := MinWireValue(node, MTU, frame.direction);
    mtu > 0.0 && frame.len as real > mtu
  }

  ghost predicate ExceedsSomeMtu(node: MarkovNode, frame: Frame) {
    exists draw: Draw :: Drawn(draw) && ComputeWireValue(node, MTU, frame.direction, draw) < frame.len as real
  }

  /** `mtuHandler` draws nothing: it drops the packets longer than some MTU the variation allows, and no others. */
  lemma MtuIsStrictest(node: MarkovNode, frame: Frame)
    requires VariesUniformly(node, MTU, frame.direction) && MinWireValue(node, MTU, frame.direction) > 0.0
    ensures TooLong(node, frame) <==> ExceedsSomeMtu(node, frame)
  {
    var least := Draw(0.0, 0.0);
    assert ComputeWireValue(node, MTU, frame.direction, least) == MinWireValue(node, MTU, frame.direction);
    forall draw: Draw | Drawn(draw)
      ensures MinWireValue(node, MTU, frame.direction) <= ComputeWireValue(node, MTU, frame.direction, draw)
    {
      UniformStaysInRange(node, MTU, frame.direction, draw);
    }
  }

  /** The added delay is never negative, and lies between the least and the greatest one configured. */
  lemma DelayStaysInRange(node: MarkovNode, d: Direction, draw: Draw)
    requires Drawn(draw) && VariesUniformly(node, DELAY, d)
    ensures 0.0 <= DelayFor(node, d, draw)
    ensures MinWireValue(node, DELAY, d) <= DelayFor(node, d, draw)
    ensures DelayFor(node, d, draw) <= MaxWireValue(node, DELAY, d) || DelayFor(node, d, draw) == 0.0
  {
    UniformStaysInRange(node, DELAY, d, draw);
  }

  /** The randomness of `lossHandler`: two computed values and one drand48. */
  datatype LossInput = LossInput(loss: Draw, burst: Draw, draw: real)

  function Loss(node: MarkovNode, d: Direction, status: GilbertLoss.Burst, input: LossInput): (GilbertLoss.Burst, GilbertLoss.Verdict) {
    var l := ComputeWireValue(node, LOSS, d, input.loss) / 100.0;
    if MinWireValue(node, LOSS, d) >= 100.0 then (status, GilbertLoss.Drop)
    else if MaxWireValue(node, BURSTYLOSS, d) > 0.0
    then GilbertLoss.BurstyLoss(status, input.draw, l, ComputeWireValue(node, BURSTYLOSS, d, input.burst))
    else (GilbertLoss.Ok, if input.draw < l then GilbertLoss.Drop else GilbertLoss.Forward)
  }

  /** One round of the duplication loop: the computed percentage and the drand48. */
  datatype DupInput = DupInput(dup: Draw, draw: real)

  predicate Duplicates(node: MarkovNode, d: Direction, input: DupInput) {
    input.draw < ComputeWireValue(node, DUP, d, input.dup) / 100.0
  }

  /** How many rounds duplicate before the first that does not. */
  function DuplicateTimes(node: MarkovNode, d: Direction, inputs: seq<DupInput>): nat {
    if MaxWireValue(node, DUP, d) <= 0.0 || inputs == [] || !Duplicates(node, d, inputs[0]) then 0
    else 1 + DuplicateTimes(node, d, inputs[1..])
  }

  // ---------- What one packet does ----------

  datatype PacketInput = PacketInput(loss: LossInput, dups: seq<DupInput>, copies: seq<CopyInput>)

  /** The state of the handler thread. */
  datatype Link = Link(view: View, status: PerDirection<GilbertLoss.Burst>)

  predicate Dropped(node: MarkovNode, frame: Frame, status: GilbertLoss.Burst, loss: LossInput) {
    TooLong(node, frame) || Loss(node, frame.direction, status, loss).1 == GilbertLoss.Drop
  }

  /** How many copies `handlePacket` sets out to send. */
  function SendTimes(node: MarkovNode, frame: Frame, status: GilbertLoss.Burst, input: PacketInput): nat {
    if Dropped(node, frame, status, input.loss) then 0 else 1 + DuplicateTimes(node, frame.direction, input.dups)
  }

  /** A packet that is too long does not reach the loss handler. */
  function StatusAfter(node: MarkovNode, frame: Frame, status: PerDirection<GilbertLoss.Burst>, loss: LossInput): PerDirection<GilbertLoss.Burst> {
    if TooLong(node, frame) then status
    else status.Set(frame.direction, Loss(node, frame.direction, status.Get(frame.direction), loss).0)
  }

  function AfterPacket(l: Link, node: MarkovNode, frame: Frame, input: PacketInput): Link
    requires SendTimes(node, frame, l.status.Get(frame.direction), input) <= |input.copies|
  {
    var n := SendTimes(node, frame, l.status.Get(frame.direction), input);
    Link(AfterCopies(l.view, node, frame, input.copies[..n]), StatusAfter(node, frame, l.status, input.loss))
  }

  // ---------- The handlers in terms of the cells of the node ----------

  /** The rate a cell gives a packet; a cell that is not set gives none. */
  function RateOf(cell: WireValue, draw: Draw): real {
    if cell.value + cell.plus > 0.0 then CellValue(cell, draw) else 0.0
  }

  lemma SpeedFromCell(node: MarkovNode, next: nat, frame: Frame, c: CopyInput)
    ensures var cell := node[SPEED].Get(frame.direction);
            var a := Rates.Arrival(c.speedNow, frame.len, RateOf(cell, c.speed));
            && SpeedFor(node, next, frame, c).0 == Rates.Advance(next, a)
            && SpeedFor(node, next, frame, c).1 == if cell.value + cell.plus > 0.0 then Rates.Speed(next, a).1 else 0.0
  {
    ComputedFromCell(node, SPEED, frame.direction, c.speed);
  }

  lemma BandwidthFromCell(node: MarkovNode, next: nat, frame: Frame, c: CopyInput)
    ensures var cell := node[BANDWIDTH].Get(frame.direction);
            var a := Rates.Arrival(c.bandwidthNow, frame.len, RateOf(cell, c.bandwidth));
            && BandwidthFor(node, next, frame, c).0 == Rates.Advance(next, a)
            && BandwidthFor(node, next, frame, c).1 == if cell.value + cell.plus > 0.0 then Rates.Bandwidth(next, a).1 else 0.0
  {
    ComputedFromCell(node, BANDWIDTH, frame.direction, c.bandwidth);
  }

  /** The configured delay of a copy: what its cell says, if that is positive. */
  function CellDelay(cell: WireValue, draw: Draw): real {
    if cell.value + cell.plus > 0.0 && CellValue(cell, draw) > 0.0 then CellValue(cell, draw) else 0.0
  }

  lemma DelayFromCell(node: MarkovNode, d: Direction, draw: Draw)
    ensures DelayFor(node, d, draw) == CellDelay(node[DELAY].Get(d), draw)
  {
    ComputedFromCell(node, DELAY, d, draw);
  }

  /** The delay of a copy is what the three handlers ask for, and each rate handler keeps to its own field and direction. */
  lemma DelaysAreSummed(r: RateState, node: MarkovNode, frame: Frame, c: CopyInput, e: Direction)
    ensures var d := frame.direction; var (after, delayMs) := Delayed(r, node, frame, c);
            && delayMs - SpeedFor(node, r.speedNext.Get(d), frame, c).1 - BandwidthFor(node, r.bandwidthNext.Get(d), frame, c).1
               == CellDelay(node[DELAY].Get(d), c.delay)
            && after.speedNext.Get(d) == SpeedFor(node, r.speedNext.Get(d), frame, c).0
            && after.bandwidthNext.Get(d) == BandwidthFor(node, r.bandwidthNext.Get(d), frame, c).0
            && (e != d ==> after.speedNext.Get(e) == r.speedNext.Get(e) && after.bandwidthNext.Get(e) == r.bandwidthNext.Get(e))
  {
    DelayFromCell(node, frame.direction, c.delay);
  }

  /** Refused exactly if there is a buffer size and the bytes queued, as far as 32 bits go, and the copy's exceed it. */
  lemma RefusedFromCell(v: View, node: MarkovNode, frame: Frame, c: CopyInput)
    ensures var cell, d := node[CHANBUFSIZE].Get(frame.direction), frame.direction;
            Refused(v.delivery, OfferOf(v, node, frame, c)) <==>
              && cell.value + cell.plus != 0.0
              && (Bytes(Nodes(v.delivery.waiting), d) % 0x1_0000_0000 + frame.len) as real > CellValue(cell, c.buffer)
  {
    ComputedFromCell(node, CHANBUFSIZE, frame.direction, c.buffer);
  }

  /** A copy that waits sets the timer at its last clock reading, for the earliest copy in the queue or 1 ns later. */
  lemma CopyArmsTimer(v: View, node: MarkovNode, frame: Frame, c: CopyInput)
    requires !Refused(v.delivery, OfferOf(v, node, frame, c))
    ensures var s, r := v.delivery, AfterCopy(v, node, frame, c).delivery;
            var delayMs := Delayed(v.rates, node, frame, c).1;
            if delayMs > 0.0 || (s.keys.fifo && s.waiting != [])
            then r.waiting != [] && r.timer == Armed(c.armNow, Max(HeadTime(r.waiting), c.armNow + 1)) && r.sent == s.sent
            else r.timer == s.timer && r.waiting == s.waiting && |r.sent| == |s.sent| + 1 && r.sent[|s.sent|].at == c.now
  {
    AcceptedLeavesOrWaits(v.delivery, OfferOf(v, node, frame, c));
  }

  /** Too long exactly if the least value of the cell is a limit and the packet is longer; none is set, none is dropped. */
  lemma TooLongFromCell(node: MarkovNode, frame: Frame)
    ensures var cell := node[MTU].Get(frame.direction);
            TooLong(node, frame) <==> 0.0 < cell.value - cell.plus < frame.len as real
  {
  }

  /** What of [0, 1) lies below x. */
  function Share(x: real): real {
    if x < 0.0 then 0.0 else if x > 1.0 then 1.0 else x
  }

  /**
   Without bursts the draws that lose a packet are the interval [0, loss / 100), as far as it lies in
   [0, 1): none for 0 and all for 100, whatever the status was; and no burst is under way afterwards,
   unless the loss is total.
   */
  lemma PlainLossInterval(node: MarkovNode, d: Direction, status: GilbertLoss.Burst, input: LossInput)
    requires node[BURSTYLOSS].Get(d).value + node[BURSTYLOSS].Get(d).plus <= 0.0 && 0.0 <= input.draw < 1.0
    requires node[LOSS].Get(d).plus == 0.0
    ensures Loss(node, d, status, input).1 == GilbertLoss.Drop <==> input.draw < Share(node[LOSS].Get(d).value / 100.0)
    ensures Loss(node, d, status, input).0 == if node[LOSS].Get(d).value >= 100.0 then status else GilbertLoss.Ok
  {
  }

  /** The same for a loss that varies: total only if its least value is, and otherwise as computed for the packet. */
  lemma LossFromCells(node: MarkovNode, d: Direction, status: GilbertLoss.Burst, input: LossInput)
    requires 0.0 <= input.draw < 1.0
    ensures var loss, burst := node[LOSS].Get(d), node[BURSTYLOSS].Get(d);
            var (after, verdict) := Loss(node, d, status, input);
            if loss.value - loss.plus >= 100.0 then verdict == GilbertLoss.Drop && after == status
            else if burst.value + burst.plus <= 0.0
            then (verdict == GilbertLoss.Drop <==> input.draw * 100.0 < CellValue(loss, input.loss)) && after == GilbertLoss.Ok
            else (after, verdict) == GilbertLoss.BurstyLoss(status, input.draw, CellValue(loss, input.loss) / 100.0, CellValue(burst, input.burst))
  {
    ComputedFromCell(node, LOSS, d, input.loss);
    ComputedFromCell(node, BURSTYLOSS, d, input.burst);
  }

  /** With bursts, a loss below 100 and a positive burst length, the dropping draws are those of the two-state chain. */
  lemma BurstLossInterval(node: MarkovNode, d: Direction, status: GilbertLoss.Burst, input: LossInput)
    requires 0.0 <= input.draw < 1.0
    requires node[LOSS].Get(d).plus == 0.0 && 0.0 <= node[LOSS].Get(d).value < 100.0
    requires node[BURSTYLOSS].Get(d).plus == 0.0 && node[BURSTYLOSS].Get(d).value > 0.0
    ensures var l, b := node[LOSS].Get(d).value / 100.0, node[BURSTYLOSS].Get(d).value;
            && (Loss(node, d, status, input).1 == GilbertLoss.Drop <==>
                  if status == GilbertLoss.Ok then input.draw < GilbertLoss.DropProbability(status, l, b)
                  else 1.0 - GilbertLoss.DropProbability(status, l, b) <= input.draw)
            && (Loss(node, d, status, input).1 == GilbertLoss.Drop <==> Loss(node, d, status, input).0 == GilbertLoss.Faulty)
  {
    GilbertLoss.DropInterval(status, input.draw, node[LOSS].Get(d).value / 100.0, node[BURSTYLOSS].Get(d).value);
  }

  /** The draws that duplicate once more are the interval [0, dup / 100). */
  lemma DuplicatesFromCell(node: MarkovNode, d: Direction, input: DupInput)
    ensures Duplicates(node, d, input) <==> input.draw * 100.0 < CellValue(node[DUP].Get(d), input.dup)
  {
    ComputedFromCell(node, DUP, d, input.dup);
  }

  /** A packet is duplicated n times exactly if n draws in a row duplicate, and then one does not; never if no `dup` is set. */
  lemma {:induction false} DuplicatesAreCounted(node: MarkovNode, d: Direction, inputs: seq<DupInput>, n: nat)
    requires n < |inputs|
    ensures var cell := node[DUP].Get(d);
            cell.value + cell.plus > 0.0 ==>
              (DuplicateTimes(node, d, inputs) == n <==>
                 && (forall i :: 0 <= i < n ==> inputs[i].draw * 100.0 < CellValue(cell, inputs[i].dup))
                 && inputs[n].draw * 100.0 >= CellValue(cell, inputs[n].dup))
    ensures node[DUP].Get(d).value + node[DUP].Get(d).plus <= 0.0 ==> DuplicateTimes(node, d, inputs) == 0
    decreases n
  {
    DuplicatesFromCell(node, d, inputs[0]);
    if n > 0 {
      DuplicatesAreCounted(node, d, inputs[1..], n - 1);
      assert forall i :: 0 < i <= n ==> inputs[i] == inputs[1..][i - 1];
    }
  }

  /** A packet that is neither too long nor lost is sent once, and once more for every draw that duplicates; any other not at all. */
  lemma SendTimesExactly(node: MarkovNode, frame: Frame, status: GilbertLoss.Burst, input: PacketInput, n: nat)
    requires n < |input.dups|
    requires var cell := node[DUP].Get(frame.direction);
             if cell.value + cell.plus <= 0.0 then n == 0
             else (forall i :: 0 <= i < n ==> input.dups[i].draw * 100.0 < CellValue(cell, input.dups[i].dup))
                  && input.dups[n].draw * 100.0 >= CellValue(cell, input.dups[n].dup)
    ensures var mtu := node[MTU].Get(frame.direction);
            var lost := Loss(node, frame.direction, status, input.loss).1 == GilbertLoss.Drop;
            SendTimes(node, frame, status, input) == if 0.0 < mtu.value - mtu.plus < frame.len as real || lost then 0 else n + 1
  {
    TooLongFromCell(node, frame);
    DuplicatesAreCounted(node, frame.direction, input.dups, n);
  }

  /** The status of a direction changes only with its own packets, and only with those that are not too long. */
  lemma StatusIsKept(node: MarkovNode, frame: Frame, status: PerDirection<GilbertLoss.Burst>, loss: LossInput, e: Direction)
    ensures var mtu, after := node[MTU].Get(frame.direction), StatusAfter(node, frame, status, loss);
            after.Get(e) ==
              if e != frame.direction || 0.0 < mtu.value - mtu.plus < frame.len as real then status.Get(e)
              else Loss(node, e, status.Get(e), loss).0
  {
    TooLongFromCell(node, frame);
  }

  // ---------- The buffer limit of a node ----------

  /** A positive buffer size of at most `limit`, with a uniform variation or none. */
  predicate Sized(node: MarkovNode, d: Direction, limit: real) {
    0.0 < MaxWireValue(node, CHANBUFSIZE, d) <= limit && VariesUniformly(node, CHANBUFSIZE, d)
  }

  /** A packet handled on such a node only adds offers that are checked against at most `limit`. */
  lemma {:induction false} SizedNodesCheck(events: seq<Event>, v: View, node: MarkovNode, frame: Frame, copies: seq<CopyInput>, limit: real)
    requires DeliveryRuns.CheckedAgainst(events, limit) && Sized(node, frame.direction, limit)
    requires forall i :: 0 <= i < |copies| ==> Drawn(copies[i].buffer)
    ensures DeliveryRuns.CheckedAgainst(events + Offers(v, node, frame, copies), limit)
    decreases |copies|
  {
    if copies != [] {
      var e := OfferOf(v, node, frame, copies[0]);
      UniformStaysInRange(node, CHANBUFSIZE, frame.direction, copies[0].buffer);
      var rest := Offers(AfterCopy(v, node, frame, copies[0]), node, frame, copies[1..]);
      SizedNodesCheck(events + [e], AfterCopy(v, node, frame, copies[0]), node, frame, copies[1..], limit);
      assert events + ([e] + rest) == events + [e] + rest;
    }
  }

  // ---------- What a packet adds ----------

  /** `after` is `before` and k more tickets, all for copies of the frame. */
  ghost predicate AddsCopies(before: seq<Ticket>, after: seq<Ticket>, frame: Frame, k: nat) {
    && |after| == |before| + k && before <= after
    && forall i :: |before| <= i < |after| ==> after[i].packet == Packet(i, frame.len, frame.direction)
  }

  lemma OneCopyAdds(v: View, node: MarkovNode, frame: Frame, c: CopyInput)
    requires !Refused(v.delivery, OfferOf(v, node, frame, c))
    ensures AddsCopies(v.delivery.accepted, AfterCopy(v, node, frame, c).delivery.accepted, frame, 1)
  {
  }

  lemma AddsOneMore(a: seq<Ticket>, b: seq<Ticket>, c: seq<Ticket>, frame: Frame, k: nat)
    requires AddsCopies(a, b, frame, 1) && AddsCopies(b, c, frame, k)
    ensures AddsCopies(a, c, frame, k + 1)
  {
    assert forall i :: 0 <= i < |b| ==> c[i] == b[i];
  }

  /** The state in which copy k is offered, if all before it were accepted. */
  function Offering(v: View, node: MarkovNode, frame: Frame, copies: seq<CopyInput>, k: nat): View
    requires k <= |copies|
    decreases k
  {
    if k == 0 then v else Offering(AfterCopy(v, node, frame, copies[0]), node, frame, copies[1..], k - 1)
  }

  /**
   The accepted copies of a packet are a prefix of its 1 + duplicates copies: all of them, or all
   before the first one refused. Nothing else is accepted.
   */
  lemma {:induction false} AcceptedCopiesArePrefix(v: View, node: MarkovNode, frame: Frame, copies: seq<CopyInput>) returns (k: nat)
    ensures k <= |copies|
    ensures AddsCopies(v.delivery.accepted, AfterCopies(v, node, frame, copies).delivery.accepted, frame, k)
    ensures AfterCopies(v, node, frame, copies) == Offering(v, node, frame, copies, k)
    ensures k < |copies| ==>
              var w := Offering(v, node, frame, copies, k); Refused(w.delivery, OfferOf(w, node, frame, copies[k]))
    decreases |copies|
  {
    k := 0;
    if copies != [] && !Refused(v.delivery, OfferOf(v, node, frame, copies[0])) {
      var w := AfterCopy(v, node, frame, copies[0]);
      var rest := AcceptedCopiesArePrefix(w, node, frame, copies[1..]);
      OneCopyAdds(v, node, frame, copies[0]);
      AddsOneMore(v.delivery.accepted, w.delivery.accepted, AfterCopies(w, node, frame, copies[1..]).delivery.accepted, frame, rest);
      k := rest + 1;
    }
  }
}
