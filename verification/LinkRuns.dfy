/**
 Runs of the handler thread with its parameters: every copy that is offered, with the node in force,
 the randomness and the clock readings, between the other steps of the machine of `Delivery`. The
 node may be another one for each copy, so Markov steps and new values are covered.
 */
module LinkRuns {
  import opened Packets
  import opened WireValues
  import opened Queue
  import opened Delivery
  import opened Handlers
  import DeliveryRuns
  import Rates

  datatype Turn = Copy(node: MarkovNode, frame: Frame, input: CopyInput) | Other(step: Event)

  const START := RateState(PerDirection(0, 0), PerDirection(0, 0))

  function Turned(v: View, t: Turn): View {
    match t
    case Copy(node, frame, input) => AfterCopy(v, node, frame, input)
    case Other(step) => v.(delivery := Step(v.delivery, step))
  }

  function StepOf(v: View, t: Turn): Event {
    match t
    case Copy(node, frame, input) => OfferOf(v, node, frame, input)
    case Other(step) => step
  }

  function AfterTurns(fifo: bool, turns: seq<Turn>): View {
    if turns == [] then View(Initial(fifo), START)
    else Turned(AfterTurns(fifo, turns[..|turns| - 1]), turns[|turns| - 1])
  }

  /** The run of the machine. */
  function Steps(fifo: bool, turns: seq<Turn>): seq<Event> {
    if turns == [] then []
    else
      var before := turns[..|turns| - 1];
      Steps(fifo, before) + [StepOf(AfterTurns(fifo, before), turns[|turns| - 1])]
  }

  lemma {:induction false} StepsLead(fifo: bool, turns: seq<Turn>)
    ensures After(fifo, Steps(fifo, turns)) == AfterTurns(fifo, turns).delivery
  {
    if turns != [] {
      var before := turns[..|turns| - 1];
      StepsLead(fifo, before);
      assert Steps(fifo, turns)[..|Steps(fifo, turns)| - 1] == Steps(fifo, before);
    }
  }

  /** The machine allows the run; copies are offered only as copies of packets that are not too long. */
  ghost predicate Proper(fifo: bool, turns: seq<Turn>) {
    && Legal(fifo, Steps(fifo, turns))
    && forall i :: 0 <= i < |turns| ==> if turns[i].Copy? then !TooLong(turns[i].node, turns[i].frame) else !turns[i].step.Offer?
  }

  /** The turns are a proper run, with these steps, that leads to v. */
  ghost predicate Leads(fifo: bool, turns: seq<Turn>, steps: seq<Event>, v: View) {
    Proper(fifo, turns) && steps == Steps(fifo, turns) && v == AfterTurns(fifo, turns)
  }

  lemma LeadsLegally(fifo: bool, turns: seq<Turn>, steps: seq<Event>, v: View)
    requires Leads(fifo, turns, steps, v)
    ensures Legal(fifo, steps) && v.delivery == After(fifo, steps)
  {
    StepsLead(fifo, turns);
  }

  lemma ProperPrefix(fifo: bool, turns: seq<Turn>)
    requires Proper(fifo, turns) && turns != []
    ensures Proper(fifo, turns[..|turns| - 1])
  {
    var before := turns[..|turns| - 1];
    assert Steps(fifo, turns)[..|Steps(fifo, turns)| - 1] == Steps(fifo, before);
  }

  lemma OneMoreTurn(fifo: bool, turns: seq<Turn>, steps: seq<Event>, v: View, t: Turn)
    requires Leads(fifo, turns, steps, v) && Enabled(v.delivery, StepOf(v, t))
    requires if t.Copy? then !TooLong(t.node, t.frame) else !t.step.Offer?
    ensures Leads(fifo, turns + [t], steps + [StepOf(v, t)], Turned(v, t))
  {
    var longer := turns + [t];
    assert longer[..|longer| - 1] == turns;
    StepsLead(fifo, turns);
    var more := Steps(fifo, longer);
    assert more[..|more| - 1] == steps;
  }

  // ---------- Bookings ----------

  /**
   An accepted copy: its number; when it came to the speed and the bandwidth handler, how long it is, and
   the rates its node gives it; when it was queued; and the time it asked for.
   */
  datatype Booking = Booking(copy: nat, entry: Rates.Arrival, arrival: Rates.Arrival, now: nat, requested: nat)

  function Booked(v: View, t: Turn, d: Direction): seq<Booking> {
    if t.Copy? && t.frame.direction == d && !Refused(v.delivery, StepOf(v, t))
    then [Booking(|v.delivery.accepted|,
                  Rates.Arrival(t.input.speedNow, t.frame.len, RateOf(t.node[SPEED].Get(d), t.input.speed)),
                  Rates.Arrival(t.input.bandwidthNow, t.frame.len, RateOf(t.node[BANDWIDTH].Get(d), t.input.bandwidth)),
                  t.input.now, TicketFor(v.delivery, StepOf(v, t)).requested)]
    else []
  }

  /** The accepted copies of a direction. */
  function Line(fifo: bool, turns: seq<Turn>, d: Direction): seq<Booking> {
    if turns == [] then []
    else
      var before := turns[..|turns| - 1];
      Line(fifo, before, d) + Booked(AfterTurns(fifo, before), turns[|turns| - 1], d)
  }

  function Arrivals(line: seq<Booking>): (r: seq<Rates.Arrival>)
    ensures |r| == |line|
  {
    seq(|line|, i requires 0 <= i < |line| => line[i].arrival)
  }

  function Entries(line: seq<Booking>): (r: seq<Rates.Arrival>)
    ensures |r| == |line|
  {
    seq(|line|, i requires 0 <= i < |line| => line[i].entry)
  }

  /** The bookings of a direction are its accepted copies, with the times they asked for. */
  ghost predicate BookingsMatch(line: seq<Booking>, accepted: seq<Ticket>, d: Direction) {
    && (forall k :: 0 <= k < |line| ==>
          line[k].copy < |accepted| && accepted[line[k].copy].requested == line[k].requested
          && accepted[line[k].copy].packet == Packet(line[k].copy, line[k].arrival.len, d))
    && (forall i :: 0 <= i < |accepted| && accepted[i].packet.direction == d ==> exists k :: 0 <= k < |line| && line[k].copy == i)
  }

  lemma BookingAppended(line: seq<Booking>, accepted: seq<Ticket>, b: Booking, t: Ticket, d: Direction)
    requires BookingsMatch(line, accepted, d) && b.copy == |accepted|
    requires t.requested == b.requested && t.packet == Packet(b.copy, b.arrival.len, d)
    ensures BookingsMatch(line + [b], accepted + [t], d)
  {
    var longer := line + [b];
    assert longer[|line|].copy == |accepted|;
    forall i | 0 <= i < |accepted| && accepted[i].packet.direction == d ensures exists k :: 0 <= k < |longer| && longer[k].copy == i {
      var k :| 0 <= k < |line| && line[k].copy == i;
      assert longer[k].copy == i;
    }
  }

  lemma OtherAppended(line: seq<Booking>, accepted: seq<Ticket>, t: Ticket, d: Direction)
    requires BookingsMatch(line, accepted, d) && t.packet.direction != d
    ensures BookingsMatch(line, accepted + [t], d)
  {
  }

  lemma BookingsMatchTurn(line: seq<Booking>, v: View, t: Turn, d: Direction)
    requires BookingsMatch(line, v.delivery.accepted, d) && (t.Other? ==> !t.step.Offer?)
    ensures BookingsMatch(line + Booked(v, t, d), Turned(v, t).delivery.accepted, d)
  {
    var s := v.delivery;
    if Booked(v, t, d) != [] {
      BookingAppended(line, s.accepted, Booked(v, t, d)[0], TicketFor(s, StepOf(v, t)), d);
    } else {
      assert line + Booked(v, t, d) == line;
      if t.Copy? && !Refused(s, StepOf(v, t)) {
        OtherAppended(line, s.accepted, TicketFor(s, StepOf(v, t)), d);
      }
    }
  }

  lemma {:induction false} BookingsAreAccepted(fifo: bool, turns: seq<Turn>, d: Direction)
    requires Proper(fifo, turns)
    ensures BookingsMatch(Line(fifo, turns, d), AfterTurns(fifo, turns).delivery.accepted, d)
  {
    if turns != [] {
      var before := turns[..|turns| - 1];
      ProperPrefix(fifo, turns);
      BookingsAreAccepted(fifo, before, d);
      BookingsMatchTurn(Line(fifo, before, d), AfterTurns(fifo, before), turns[|turns| - 1], d);
    }
  }

  /** Every copy that has left is booked in its direction, and has left no sooner than it asked to. */
  lemma DeparturesAreBooked(fifo: bool, turns: seq<Turn>, x: nat) returns (k: nat)
    requires Proper(fifo, turns) && x < |AfterTurns(fifo, turns).delivery.sent|
    ensures var dep := AfterTurns(fifo, turns).delivery.sent[x]; var line := Line(fifo, turns, dep.ticket.packet.direction);
            && k < |line| && dep.ticket.packet == Packet(line[k].copy, line[k].arrival.len, dep.ticket.packet.direction)
            && line[k].requested <= dep.at
  {
    var s := AfterTurns(fifo, turns).delivery;
    StepsLead(fifo, turns);
    DeliveryRuns.EveryRun(fifo, Steps(fifo, turns));
    var dep := s.sent[x];
    var d := dep.ticket.packet.direction;
    BookingsAreAccepted(fifo, turns, d);
    assert Departed(s.sent)[x] == dep.ticket;
    assert dep.ticket in multiset(Departed(s.sent)) && dep.ticket in multiset(s.accepted);
    var i :| 0 <= i < |s.accepted| && s.accepted[i] == dep.ticket;
    k :| 0 <= k < |Line(fifo, turns, d)| && Line(fifo, turns, d)[k].copy == i;
    assert dep in s.sent;
  }

  // ---------- The finish times of the line ----------

  lemma OneMoreBooking(line: seq<Booking>, b: Booking)
    ensures Arrivals(line + [b]) == Arrivals(line) + [b.arrival] && Entries(line + [b]) == Entries(line) + [b.entry]
    ensures Rates.Finish(Arrivals(line + [b])) == Rates.Advance(Rates.Finish(Arrivals(line)), b.arrival)
    ensures Rates.Finish(Entries(line + [b])) == Rates.Advance(Rates.Finish(Entries(line)), b.entry)
  {
    var arrivals, entries := Arrivals(line + [b]), Entries(line + [b]);
    assert arrivals == Arrivals(line) + [b.arrival] && entries == Entries(line) + [b.entry];
    assert arrivals[..|arrivals| - 1] == Arrivals(line) && entries[..|entries| - 1] == Entries(line);
  }

  ghost predicate FieldsFinish(r: RateState, line: seq<Booking>, d: Direction) {
    r.bandwidthNext.Get(d) == Rates.Finish(Arrivals(line)) && r.speedNext.Get(d) == Rates.Finish(Entries(line))
  }

  lemma FinishTurn(line: seq<Booking>, v: View, t: Turn, d: Direction)
    requires FieldsFinish(v.rates, line, d)
    ensures FieldsFinish(Turned(v, t).rates, line + Booked(v, t, d), d)
  {
    if t.Copy? {
      DelaysAreSummed(v.rates, t.node, t.frame, t.input, d);
      SpeedFromCell(t.node, v.rates.speedNext.Get(t.frame.direction), t.frame, t.input);
      BandwidthFromCell(t.node, v.rates.bandwidthNext.Get(t.frame.direction), t.frame, t.input);
    }
    if Booked(v, t, d) == [] {
      assert line + Booked(v, t, d) == line;
    } else {
      OneMoreBooking(line, Booked(v, t, d)[0]);
    }
  }

  /**
   In every run, whatever the rates and however they vary, `bandwidth_next` and `speed_next` of a direction
   are the finish times of single servers for its accepted copies, each at the rate its cell gives it.
   */
  lemma {:induction false} FieldsAreFinishTimes(fifo: bool, turns: seq<Turn>, d: Direction)
    ensures FieldsFinish(AfterTurns(fifo, turns).rates, Line(fifo, turns, d), d)
  {
    if turns != [] {
      var before := turns[..|turns| - 1];
      FieldsAreFinishTimes(fifo, before, d);
      FinishTurn(Line(fifo, before, d), AfterTurns(fifo, before), turns[|turns| - 1], d);
    }
  }

  // ---------- What copies ask for ----------

  /** The clock does not go back, and no rate handler returns DROP, that is a delay of -1 ms, for the copy. */
  predicate Undropped(t: Turn)
    requires t.Copy?
  {
    var speed, bandwidth := t.node[SPEED].Get(t.frame.direction), t.node[BANDWIDTH].Get(t.frame.direction);
    && (speed.value + speed.plus > 0.0 ==> CellValue(speed, t.input.speed) > 0.0)
    && (bandwidth.value + bandwidth.plus > 0.0 ==> CellValue(bandwidth, t.input.bandwidth) > 0.0)
    && t.input.bandwidthNow <= t.input.now
  }

  ghost predicate AllUndropped(turns: seq<Turn>, d: Direction) {
    forall i :: 0 <= i < |turns| && turns[i].Copy? && turns[i].frame.direction == d ==> Undropped(turns[i])
  }

  lemma TransmissionNotNegative(len: nat, rate: real)
    requires rate > 0.0
    ensures Rates.TransmissionMs(len, rate) >= 0.0
  {
  }

  /** Without a DROP the delay of a copy is the sum of three delays that are not negative. */
  lemma DelaysAdd(r: RateState, t: Turn)
    requires t.Copy? && Undropped(t)
    ensures var d := t.frame.direction;
            var speed := SpeedFor(t.node, r.speedNext.Get(d), t.frame, t.input).1;
            var bandwidth := BandwidthFor(t.node, r.bandwidthNext.Get(d), t.frame, t.input).1;
            var delay := CellDelay(t.node[DELAY].Get(d), t.input.delay);
            && Delayed(r, t.node, t.frame, t.input).1 == speed + bandwidth + delay
            && 0.0 <= speed && 0.0 <= bandwidth && 0.0 <= delay
            && (t.node[SPEED].Get(d).value + t.node[SPEED].Get(d).plus <= 0.0 ==> speed == 0.0)
            && (t.node[BANDWIDTH].Get(d).value + t.node[BANDWIDTH].Get(d).plus <= 0.0 ==> bandwidth == 0.0)
  {
    var d := t.frame.direction;
    DelaysAreSummed(r, t.node, t.frame, t.input, d);
    SpeedFromCell(t.node, r.speedNext.Get(d), t.frame, t.input);
    BandwidthFromCell(t.node, r.bandwidthNext.Get(d), t.frame, t.input);
    var speed, bandwidth := CellValue(t.node[SPEED].Get(d), t.input.speed), CellValue(t.node[BANDWIDTH].Get(d), t.input.bandwidth);
    if speed > 0.0 {
      TransmissionNotNegative(t.frame.len, speed);
    }
    if bandwidth > 0.0 {
      TransmissionNotNegative(t.frame.len, bandwidth);
    }
  }

  /** `requested` is the time `delayMs` after `now`, rounded down to nanoseconds. */
  predicate LiesAhead(now: nat, delayMs: real, requested: nat) {
    requested as real <= now as real + delayMs * 1000000.0 < requested as real + 1.0
  }

  /** The time a booked copy asks for is its delay after its clock reading, to the nanosecond. */
  lemma BookingLiesAhead(v: View, t: Turn, d: Direction)
    requires t.Copy? && Undropped(t) && Booked(v, t, d) != []
    ensures LiesAhead(t.input.now, Delayed(v.rates, t.node, t.frame, t.input).1, Booked(v, t, d)[0].requested)
  {
    DelaysAdd(v.rates, t);
    RequestedTimeIsExact(t.input.now, Delayed(v.rates, t.node, t.frame, t.input).1);
  }

  lemma RequestMeetsFinish(arrivals: seq<Rates.Arrival>, a: Rates.Arrival, now: nat, delayMs: real, requested: nat)
    requires a.rate > 0.0 && a.now <= now && LiesAhead(now, delayMs, requested)
    requires Rates.Bandwidth(Rates.Finish(arrivals), a).1 <= delayMs
    ensures Rates.Finish(arrivals + [a]) <= requested + Rates.NS_PER_MS
    ensures delayMs == Rates.Bandwidth(Rates.Finish(arrivals), a).1 ==> requested <= Rates.Finish(arrivals + [a]) + (now - a.now)
  {
    Rates.DelayMeetsFinish(arrivals, a);
  }

  /** A copy with a bandwidth asks to leave no more than 1 ms before the line has finished it. */
  ghost predicate AsksForFinish(line: seq<Booking>, k: nat)
    requires k < |line|
  {
    line[k].arrival.rate > 0.0 ==> Rates.Finish(Arrivals(line)[..k + 1]) <= line[k].requested + Rates.NS_PER_MS
  }

  /** A copy asks to leave no later than the line has finished it, but for the time between the clock readings. */
  ghost predicate AsksForNoMore(line: seq<Booking>, k: nat)
    requires k < |line|
  {
    line[k].arrival.rate > 0.0 ==>
      line[k].requested <= Rates.Finish(Arrivals(line)[..k + 1]) + (line[k].now - line[k].arrival.now)
  }

  lemma EarlierAsks(line: seq<Booking>, more: seq<Booking>, k: nat)
    requires k < |line|
    ensures AsksForFinish(line + more, k) <==> AsksForFinish(line, k)
    ensures AsksForNoMore(line + more, k) <==> AsksForNoMore(line, k)
  {
    assert Arrivals(line + more)[..k + 1] == Arrivals(line)[..k + 1];
  }

  lemma LatestAsks(line: seq<Booking>, v: View, t: Turn, d: Direction)
    requires v.rates.bandwidthNext.Get(d) == Rates.Finish(Arrivals(line))
    requires t.Copy? && t.frame.direction == d && Undropped(t) && Booked(v, t, d) != []
    ensures AsksForFinish(line + Booked(v, t, d), |line|)
    ensures OnlyBandwidth(t) ==> AsksForNoMore(line + Booked(v, t, d), |line|)
  {
    var b := Booked(v, t, d)[0];
    var longer := Arrivals(line + [b]);
    OneMoreBooking(line, b);
    assert longer[..|line| + 1] == Arrivals(line) + [b.arrival];
    if b.arrival.rate > 0.0 {
      BookingLiesAhead(v, t, d);
      DelaysAdd(v.rates, t);
      BandwidthFromCell(t.node, v.rates.bandwidthNext.Get(d), t.frame, t.input);
      RequestMeetsFinish(Arrivals(line), b.arrival, b.now, Delayed(v.rates, t.node, t.frame, t.input).1, b.requested);
    }
  }

  /** Of the delays only the bandwidth is set. */
  predicate OnlyBandwidth(t: Turn)
    requires t.Copy?
  {
    var speed, delay := t.node[SPEED].Get(t.frame.direction), t.node[DELAY].Get(t.frame.direction);
    speed.value + speed.plus <= 0.0 && delay.value + delay.plus <= 0.0
  }

  ghost predicate AllOnlyBandwidth(turns: seq<Turn>, d: Direction) {
    forall i :: 0 <= i < |turns| && turns[i].Copy? && turns[i].frame.direction == d ==> OnlyBandwidth(turns[i])
  }

  /** In every run, whatever the rates, every copy with a bandwidth asks to leave no more than 1 ms before the line has finished it. */
  lemma {:induction false} CopiesAskForFinish(fifo: bool, turns: seq<Turn>, d: Direction, k: nat)
    requires AllUndropped(turns, d) && k < |Line(fifo, turns, d)|
    ensures AsksForFinish(Line(fifo, turns, d), k)
  {
    var before, t := turns[..|turns| - 1], turns[|turns| - 1];
    var v, line := AfterTurns(fifo, before), Line(fifo, before, d);
    if k < |line| {
      CopiesAskForFinish(fifo, before, d, k);
      EarlierAsks(line, Booked(v, t, d), k);
    } else {
      FieldsAreFinishTimes(fifo, before, d);
      LatestAsks(line, v, t, d);
    }
  }

  /**
   With no other delay set, every copy asks for no later time either, but for what passed between the
   reading of the bandwidth handler and that of the queue.
   */
  lemma {:induction false} CopiesAskForNoMore(fifo: bool, turns: seq<Turn>, d: Direction, k: nat)
    requires AllUndropped(turns, d) && AllOnlyBandwidth(turns, d) && k < |Line(fifo, turns, d)|
    ensures AsksForNoMore(Line(fifo, turns, d), k)
  {
    var before, t := turns[..|turns| - 1], turns[|turns| - 1];
    var v, line := AfterTurns(fifo, before), Line(fifo, before, d);
    if k < |line| {
      CopiesAskForNoMore(fifo, before, d, k);
      EarlierAsks(line, Booked(v, t, d), k);
    } else {
      FieldsAreFinishTimes(fifo, before, d);
      LatestAsks(line, v, t, d);
    }
  }

  /**
   No copy with a bandwidth leaves more than 1 ms before the line, a single server in order of arrival, has
   finished it: at any rates, after any number of packets, in either mode.
   */
  lemma NothingBeatsTheLine(fifo: bool, turns: seq<Turn>, x: nat, d: Direction) returns (k: nat)
    requires Proper(fifo, turns) && x < |AfterTurns(fifo, turns).delivery.sent|
    requires AfterTurns(fifo, turns).delivery.sent[x].ticket.packet.direction == d && AllUndropped(turns, d)
    ensures var dep := AfterTurns(fifo, turns).delivery.sent[x]; var line := Line(fifo, turns, d);
            && k < |line| && line[k].copy == dep.ticket.packet.copy
            && (line[k].arrival.rate > 0.0 ==> Rates.Finish(Arrivals(line)[..k + 1]) <= dep.at + Rates.NS_PER_MS)
  {
    k := DeparturesAreBooked(fifo, turns, x);
    CopiesAskForFinish(fifo, turns, d, k);
  }

  // ---------- The line at a constant bandwidth ----------

  predicate FixedBandwidth(node: MarkovNode, d: Direction, rate: real) {
    rate > 0.0 && node[BANDWIDTH].Get(d).value == rate && node[BANDWIDTH].Get(d).plus == 0.0
  }

  ghost predicate ConstantBandwidth(turns: seq<Turn>, d: Direction, rate: real) {
    rate > 0.0 && forall i :: 0 <= i < |turns| && turns[i].Copy? && turns[i].frame.direction == d ==> FixedBandwidth(turns[i].node, d, rate)
  }

  lemma BookedAtRate(v: View, t: Turn, d: Direction, rate: real)
    requires t.Copy? && t.frame.direction == d ==> FixedBandwidth(t.node, d, rate)
    ensures forall k :: 0 <= k < |Booked(v, t, d)| ==> Booked(v, t, d)[k].arrival.rate == rate
  {
    if Booked(v, t, d) != [] {
      ConstantCell(t.node[BANDWIDTH].Get(d), t.input.bandwidth);
    }
  }

  lemma {:induction false} BookingsAtRate(fifo: bool, turns: seq<Turn>, d: Direction, rate: real)
    requires ConstantBandwidth(turns, d, rate)
    ensures forall k :: 0 <= k < |Line(fifo, turns, d)| ==> Line(fifo, turns, d)[k].arrival.rate == rate
  {
    if turns != [] {
      BookingsAtRate(fifo, turns[..|turns| - 1], d, rate);
      BookedAtRate(AfterTurns(fifo, turns[..|turns| - 1]), turns[|turns| - 1], d, rate);
    }
  }

  lemma ConstantRate(fifo: bool, turns: seq<Turn>, d: Direction, rate: real)
    requires ConstantBandwidth(turns, d, rate)
    ensures Rates.AtRate(Arrivals(Line(fifo, turns, d)), rate)
  {
    BookingsAtRate(fifo, turns, d, rate);
  }

  lemma SentIsBooked(fifo: bool, turns: seq<Turn>, k: nat, x: nat, d: Direction)
    requires Proper(fifo, turns) && x < |AfterTurns(fifo, turns).delivery.sent| && k < |Line(fifo, turns, d)|
    requires AfterTurns(fifo, turns).delivery.sent[x].ticket.packet.copy == Line(fifo, turns, d)[k].copy
    ensures Line(fifo, turns, d)[k].requested <= AfterTurns(fifo, turns).delivery.sent[x].at
  {
    var s := AfterTurns(fifo, turns).delivery;
    StepsLead(fifo, turns);
    DeliveryRuns.EveryRun(fifo, Steps(fifo, turns));
    BookingsAreAccepted(fifo, turns, d);
    assert Departed(s.sent)[x] in multiset(s.accepted);
    assert s.sent[x] in s.sent;
  }

  lemma BytesUpTo(arrivals: seq<Rates.Arrival>, i: nat, k: nat, rate: real, from: nat, window: nat)
    requires rate > 0.0 && Rates.AtRate(arrivals, rate) && i <= k < |arrivals|
    requires from < Rates.Finish(arrivals[..i + 1]) && Rates.Finish(arrivals[..k + 1]) <= from + window
    ensures Rates.BytesFit(arrivals[..k + 1], i, rate, window)
  {
    assert arrivals[..k + 1][..i + 1] == arrivals[..i + 1];
    Rates.ThroughputBound(arrivals[..k + 1], i, rate, from, window);
  }

  /**
   At a constant bandwidth, hence a bound on what has left: of the copies i .. k of a direction, if copy i is
   not finished by `from` and copy k has left by from + window, the bytes after copy i fit in the window and 1 ms.
   */
  lemma DepartedBytesFit(fifo: bool, turns: seq<Turn>, i: nat, k: nat, x: nat, d: Direction, rate: real, from: nat, window: nat)
    requires Proper(fifo, turns) && ConstantBandwidth(turns, d, rate) && AllUndropped(turns, d)
    requires x < |AfterTurns(fifo, turns).delivery.sent| && i <= k < |Line(fifo, turns, d)|
    requires AfterTurns(fifo, turns).delivery.sent[x].ticket.packet.copy == Line(fifo, turns, d)[k].copy
    requires AfterTurns(fifo, turns).delivery.sent[x].at <= from + window
    requires from < Rates.Finish(Arrivals(Line(fifo, turns, d))[..i + 1])
    ensures Rates.BytesFit(Arrivals(Line(fifo, turns, d))[..k + 1], i, rate, window + Rates.NS_PER_MS)
  {
    SentIsBooked(fifo, turns, k, x, d);
    CopiesAskForFinish(fifo, turns, d, k);
    ConstantRate(fifo, turns, d, rate);
    assert Arrivals(Line(fifo, turns, d))[k].rate == rate;
    BytesUpTo(Arrivals(Line(fifo, turns, d)), i, k, rate, from, window + Rates.NS_PER_MS);
  }

  // ---------- Delays ----------

  /** The configured delay of the direction is at least `ms`, whatever the draw. */
  predicate DelayedBy(t: Turn, ms: real)
    requires t.Copy?
  {
    var d := t.frame.direction;
    Drawn(t.input.delay) && VariesUniformly(t.node, DELAY, d) && MinWireValue(t.node, DELAY, d) >= ms
  }

  ghost predicate AllDelayedBy(turns: seq<Turn>, d: Direction, ms: real) {
    forall i :: 0 <= i < |turns| && turns[i].Copy? && turns[i].frame.direction == d ==> DelayedBy(turns[i], ms)
  }

  function NsOf(ms: nat): nat {
    ms * Rates.NS_PER_MS
  }

  lemma BookingWaits(v: View, t: Turn, d: Direction, ms: nat)
    requires t.Copy? && t.frame.direction == d && Undropped(t) && DelayedBy(t, ms as real) && Booked(v, t, d) != []
    ensures Booked(v, t, d)[0].now + NsOf(ms) <= Booked(v, t, d)[0].requested
  {
    DelaysAdd(v.rates, t);
    DelayFromCell(t.node, d, t.input.delay);
    DelayStaysInRange(t.node, d, t.input.delay);
    BookingLiesAhead(v, t, d);
    RequestWaits(t.input.now, Delayed(v.rates, t.node, t.frame, t.input).1, ms, Booked(v, t, d)[0].requested);
  }

  lemma RequestWaits(now: nat, delayMs: real, ms: nat, requested: nat)
    requires ms as real <= delayMs && LiesAhead(now, delayMs, requested)
    ensures now + NsOf(ms) <= requested
  {
    assert (now + NsOf(ms)) as real <= now as real + delayMs * 1000000.0;
  }

  lemma {:induction false} BookingsWait(fifo: bool, turns: seq<Turn>, d: Direction, ms: nat)
    requires AllUndropped(turns, d) && AllDelayedBy(turns, d, ms as real)
    ensures forall k :: 0 <= k < |Line(fifo, turns, d)| ==> Line(fifo, turns, d)[k].now + NsOf(ms) <= Line(fifo, turns, d)[k].requested
  {
    if turns != [] {
      var before, t := turns[..|turns| - 1], turns[|turns| - 1];
      BookingsWait(fifo, before, d, ms);
      if Booked(AfterTurns(fifo, before), t, d) != [] {
        BookingWaits(AfterTurns(fifo, before), t, d, ms);
      }
    }
  }

  /** While at least `ms` milliseconds of delay are configured, every copy spends at least that long in the link. */
  lemma LeavesNoSoonerThanDelay(fifo: bool, turns: seq<Turn>, x: nat, d: Direction, ms: nat) returns (k: nat)
    requires Proper(fifo, turns) && x < |AfterTurns(fifo, turns).delivery.sent|
    requires AfterTurns(fifo, turns).delivery.sent[x].ticket.packet.direction == d
    requires AllUndropped(turns, d) && AllDelayedBy(turns, d, ms as real)
    ensures var dep := AfterTurns(fifo, turns).delivery.sent[x]; var line := Line(fifo, turns, d);
            k < |line| && line[k].copy == dep.ticket.packet.copy && line[k].now + NsOf(ms) <= dep.at
  {
    k := DeparturesAreBooked(fifo, turns, x);
    BookingsWait(fifo, turns, d, ms);
  }

  /** The direction has a constant delay of `ms`, perhaps with a fraction, and no rate limit. */
  predicate OnlyDelay(t: Turn, ms: real)
    requires t.Copy?
  {
    var d := t.frame.direction;
    var speed, bandwidth, delay := t.node[SPEED].Get(d), t.node[BANDWIDTH].Get(d), t.node[DELAY].Get(d);
    && speed.value + speed.plus <= 0.0 && bandwidth.value + bandwidth.plus <= 0.0
    && delay.value == ms && delay.plus == 0.0 && t.input.bandwidthNow <= t.input.now
  }

  ghost predicate AllOnlyDelay(turns: seq<Turn>, d: Direction, ms: real) {
    forall i :: 0 <= i < |turns| && turns[i].Copy? && turns[i].frame.direction == d ==> OnlyDelay(turns[i], ms)
  }

  /** While a constant delay is all that is set, every copy asks for exactly that long after its clock reading, to the nanosecond. */
  lemma {:induction false} CopiesAskForDelay(fifo: bool, turns: seq<Turn>, d: Direction, ms: real, k: nat)
    requires ms >= 0.0 && AllOnlyDelay(turns, d, ms) && k < |Line(fifo, turns, d)|
    ensures LiesAhead(Line(fifo, turns, d)[k].now, ms, Line(fifo, turns, d)[k].requested)
  {
    var before, t := turns[..|turns| - 1], turns[|turns| - 1];
    var v, line := AfterTurns(fifo, before), Line(fifo, before, d);
    if k < |line| {
      CopiesAskForDelay(fifo, before, d, ms, k);
    } else {
      DelaysAdd(v.rates, t);
      BookingLiesAhead(v, t, d);
    }
  }

  // ---------- Lengths and buffer sizes ----------

  /** The MTU of the direction is limited to at most `most`. */
  predicate LimitsLength(node: MarkovNode, d: Direction, most: real) {
    0.0 < MinWireValue(node, MTU, d) <= most
  }

  ghost predicate AllLimitLength(turns: seq<Turn>, d: Direction, most: real) {
    forall i :: 0 <= i < |turns| && turns[i].Copy? && turns[i].frame.direction == d ==> LimitsLength(turns[i].node, d, most)
  }

  lemma {:induction false} BookingsStayShort(fifo: bool, turns: seq<Turn>, d: Direction, most: real)
    requires Proper(fifo, turns) && AllLimitLength(turns, d, most)
    ensures forall k :: 0 <= k < |Line(fifo, turns, d)| ==> Line(fifo, turns, d)[k].arrival.len as real <= most
  {
    if turns != [] {
      ProperPrefix(fifo, turns);
      BookingsStayShort(fifo, turns[..|turns| - 1], d, most);
    }
  }

  /** While every node in force limits the MTU of a direction, no longer packet of it leaves. */
  lemma NothingLongerLeaves(fifo: bool, turns: seq<Turn>, x: nat, d: Direction, most: real)
    requires Proper(fifo, turns) && x < |AfterTurns(fifo, turns).delivery.sent|
    requires AfterTurns(fifo, turns).delivery.sent[x].ticket.packet.direction == d
    requires AllLimitLength(turns, d, most)
    ensures AfterTurns(fifo, turns).delivery.sent[x].ticket.packet.len as real <= most
  {
    var k := DeparturesAreBooked(fifo, turns, x);
    BookingsStayShort(fifo, turns, d, most);
  }

  ghost predicate AllSized(turns: seq<Turn>, limit: real) {
    forall i :: 0 <= i < |turns| && turns[i].Copy? ==> Sized(turns[i].node, turns[i].frame.direction, limit) && Drawn(turns[i].input.buffer)
  }

  lemma {:induction false} SizedTurnsAreChecked(fifo: bool, turns: seq<Turn>, limit: real)
    requires Proper(fifo, turns) && AllSized(turns, limit)
    ensures DeliveryRuns.CheckedAgainst(Steps(fifo, turns), limit)
  {
    if turns != [] {
      var before, t := turns[..|turns| - 1], turns[|turns| - 1];
      ProperPrefix(fifo, turns);
      SizedTurnsAreChecked(fifo, before, limit);
      if t.Copy? {
        UniformStaysInRange(t.node, CHANBUFSIZE, t.frame.direction, t.input.buffer);
      }
    }
  }

  /**
   If every node in force has a positive buffer size with a uniform variation or none, no direction
   ever has more bytes queued than the largest value + plus among them, node changes included.
   */
  lemma SizedLinkNeverOverfull(fifo: bool, turns: seq<Turn>, limit: real, d: Direction)
    requires Proper(fifo, turns) && AllSized(turns, limit) && 0.0 <= limit < UINT_RANGE as real
    ensures Bytes(Nodes(AfterTurns(fifo, turns).delivery.waiting), d) as real <= limit
  {
    SizedTurnsAreChecked(fifo, turns, limit);
    StepsLead(fifo, turns);
    DeliveryRuns.BufferNeverOverfull(fifo, Steps(fifo, turns), limit, d);
  }
}
