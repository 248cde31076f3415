/**
 The right-to-left speed gate: the RL branch and the speed-timer branch of the event loop
 (libvdeplug_wirefilter.c:332-359, 379-383), with the charges `speedHandler` makes while a packet
 is handled. Other branches of the loop touch none of this state.
 */
module SpeedGate {
  import opened Packets
  import opened Rates

  /** A packet read at a clock reading, with what `speedHandler` saw of its copies: clock reading, length and computed speed. */
  datatype Read = Read(at: nat, copies: seq<Arrival>)

  datatype Gate = Gate(reading: bool, timer: Timer, next: nat, clock: nat, log: seq<Read>)

  datatype Event =
    | RlReadable(now: nat, armNow: nat, copies: seq<Arrival>)  // poll reports POLLIN on the RL side
    | SpeedTimerFires(now: nat)

  const INITIAL := Gate(true, Disarmed, 0, 0, [])

  function Charged(next: nat, copies: seq<Arrival>): nat {
    if copies == [] then next
    else
      Speed(Charged(next, copies[..|copies| - 1]), copies[|copies| - 1]).0
  }

  function TotalCharge(copies: seq<Arrival>): nat {
    if copies == [] then 0 else TotalCharge(copies[..|copies| - 1]) + ChargeOf(copies[|copies| - 1])
  }

  /** poll looks at the RL side only while POLLIN is set, and at the timer once it has expired. */
  ghost predicate Enabled(g: Gate, e: Event) {
    match e
    case RlReadable(now, armNow, copies) =>
      g.reading && g.clock <= now <= armNow && forall c <- copies :: now <= c.now <= armNow
    case SpeedTimerFires(now) =>
      g.timer.Armed? && g.clock <= now && g.timer.deadline <= now
  }

  function Step(g: Gate, e: Event): Gate {
    match e
    case RlReadable(now, armNow, copies) =>
      if g.next > now then g.(reading := false, timer := Armed(armNow, armNow + (g.next - now)), clock := armNow)
      else g.(next := Charged(g.next, copies), clock := armNow, log := g.log + [Read(now, copies)])
    case SpeedTimerFires(now) =>
      g.(reading := true, timer := Disarmed, clock := now)
  }

  function After(events: seq<Event>): Gate {
    if events == [] then INITIAL else Step(After(events[..|events| - 1]), events[|events| - 1])
  }

  ghost predicate Legal(events: seq<Event>) {
    events == [] ||
    (Legal(events[..|events| - 1]) && Enabled(After(events[..|events| - 1]), events[|events| - 1]))
  }

  // ---------- What every step keeps ----------

  ghost predicate GateInOrder(g: Gate) {
    && (g.reading <==> g.timer == Disarmed)
    && (g.timer.Armed? ==> g.next <= g.timer.deadline)
  }

  /** The next read, which waits for the clock and for `speed_next`, comes after the whole work of the last one. */
  ghost predicate ReadsInOrder(g: Gate) {
    && (forall i :: 0 < i < |g.log| ==> g.log[i - 1].at + TotalCharge(g.log[i - 1].copies) <= g.log[i].at)
    && (g.log != [] ==>
          var last := g.log[|g.log| - 1];
          last.at + TotalCharge(last.copies) <= Max(g.clock, g.next))
  }

  /** Charging copies from a moment on books at least their work after that moment. */
  lemma {:induction false} ChargedBooksWork(next: nat, copies: seq<Arrival>, from: nat)
    requires forall c <- copies :: from <= c.now
    ensures next <= Charged(next, copies)
    ensures TotalCharge(copies) > 0 ==> from + TotalCharge(copies) <= Charged(next, copies)
  {
    if copies != [] {
      var before, last := copies[..|copies| - 1], copies[|copies| - 1];
      assert forall c <- before :: c in copies;
      assert last in copies;
      ChargedBooksWork(next, before, from);
    }
  }

  lemma {:induction false} EveryRun(events: seq<Event>)
    requires Legal(events)
    ensures GateInOrder(After(events)) && ReadsInOrder(After(events))
  {
    if events != [] {
      var g, e := After(events[..|events| - 1]), events[|events| - 1];
      EveryRun(events[..|events| - 1]);
      ReadsInOrderStep(g, e);
    }
  }

  lemma ReadsInOrderStep(g: Gate, e: Event)
    requires ReadsInOrder(g) && Enabled(g, e)
    ensures ReadsInOrder(Step(g, e))
  {
    if e.RlReadable? && g.next <= e.now {
      ChargedBooksWork(g.next, e.copies, e.now);
    }
  }

  // ---------- Theorems ----------

  /** Reading is off exactly while the timer is armed, and nothing is read while `speed_next` lies ahead. */
  lemma ReadingOffExactlyWhileArmed(events: seq<Event>, e: Event)
    requires Legal(events) && Enabled(After(events), e)
    ensures After(events).reading <==> After(events).timer == Disarmed
    ensures Step(After(events), e).log
         == After(events).log + if e.RlReadable? && After(events).next <= e.now then [Read(e.now, e.copies)] else []
  {
    EveryRun(events);
  }

  /**
   The timer is armed by the last step of the gate, and for `speed_next`: no later than that, but for
   the time that passed between the reading that found the line busy and the arming.
   */
  lemma ArmedForSpeedNext(events: seq<Event>)
    requires Legal(events) && After(events).timer.Armed?
    ensures events != []
    ensures var e, g := events[|events| - 1], After(events);
            e.RlReadable? && e.now < g.next && g.timer == Armed(e.armNow, g.next + (e.armNow - e.now))
  {
    EveryRun(events[..|events| - 1]);
  }

  /** Handled without delay, an RL side that stays readable is read at `speed_next`: neither sooner nor later. */
  lemma ReadAtSpeedNext(events: seq<Event>, hold: Event, fire: Event, readable: Event)
    requires Legal(events) && hold.RlReadable? && fire.SpeedTimerFires? && readable.RlReadable?
    requires Enabled(After(events), hold) && hold.now < After(events).next && hold.armNow == hold.now
    requires fire.now == Step(After(events), hold).timer.deadline && readable.now == fire.now
    ensures Step(Step(Step(After(events), hold), fire), readable).log
         == After(events).log + [Read(After(events).next, readable.copies)]
  {
  }

  function AllCopies(log: seq<Read>): seq<Arrival> {
    if log == [] then [] else AllCopies(log[..|log| - 1]) + log[|log| - 1].copies
  }

  lemma {:induction false} ChargedIsFinish(before: seq<Arrival>, copies: seq<Arrival>)
    ensures Charged(Finish(before), copies) == Finish(before + copies)
  {
    if copies == [] {
      assert before + copies == before;
    } else {
      var n := |copies| - 1;
      assert (before + copies)[..|before + copies| - 1] == before + copies[..n];
      ChargedIsFinish(before, copies[..n]);
    }
  }

  /** `speed_next` is the finish time of a single server for all copies read so far, in the order of reading. */
  lemma {:induction false} SpeedNextIsFinish(events: seq<Event>)
    ensures After(events).next == Finish(AllCopies(After(events).log))
  {
    if events != [] {
      var g, e := After(events[..|events| - 1]), events[|events| - 1];
      SpeedNextIsFinish(events[..|events| - 1]);
      if e.RlReadable? && g.next <= e.now {
        ChargedIsFinish(AllCopies(g.log), e.copies);
        assert (g.log + [Read(e.now, e.copies)])[..|g.log|] == g.log;
      }
    }
  }

  /** One wake-up is enough: the first time the RL side is readable after the timer fired, it is read. */
  lemma OneWakeupIsEnough(events: seq<Event>, fire: Event, readable: Event)
    requires Legal(events) && fire.SpeedTimerFires? && readable.RlReadable?
    requires Enabled(After(events), fire) && Enabled(Step(After(events), fire), readable)
    ensures Step(Step(After(events), fire), readable).log == After(events).log + [Read(readable.now, readable.copies)]
  {
    EveryRun(events);
  }

  function WorkBetween(log: seq<Read>, i: nat, j: nat): nat
    requires i <= j <= |log|
  {
    if i == j then 0 else WorkBetween(log, i, j - 1) + TotalCharge(log[j - 1].copies)
  }

  lemma {:induction false} Separated(log: seq<Read>, i: nat, j: nat)
    requires i <= j < |log|
    requires forall k :: 0 < k < |log| ==> log[k - 1].at + TotalCharge(log[k - 1].copies) <= log[k].at
    ensures log[i].at + WorkBetween(log, i, j) <= log[j].at
  {
    if i < j {
      Separated(log, i, j - 1);
      assert log[j - 1].at + TotalCharge(log[j - 1].copies) <= log[j].at;
    }
  }

  /** The sender is held back: two reads lie apart by at least what was charged from one to the other. */
  lemma SenderIsHeldBack(events: seq<Event>, i: nat, j: nat)
    requires Legal(events) && i <= j < |After(events).log|
    ensures After(events).log[i].at + WorkBetween(After(events).log, i, j) <= After(events).log[j].at
  {
    EveryRun(events);
    Separated(After(events).log, i, j);
  }

  // ---------- At a constant speed ----------

  function BytesOf(copies: seq<Arrival>): nat {
    if copies == [] then 0 else BytesOf(copies[..|copies| - 1]) + copies[|copies| - 1].len
  }

  function BytesBetween(log: seq<Read>, i: nat, j: nat): nat
    requires i <= j <= |log|
  {
    if i == j then 0 else BytesBetween(log, i, j - 1) + BytesOf(log[j - 1].copies)
  }

  function CopiesBetween(log: seq<Read>, i: nat, j: nat): nat
    requires i <= j <= |log|
  {
    if i == j then 0 else CopiesBetween(log, i, j - 1) + |log[j - 1].copies|
  }

  lemma FitsBeside(bytes: nat, ns: nat, more: nat, time: nat, rate: real)
    requires FitsIn(bytes, rate, ns) && FitsIn(more, rate, time)
    ensures FitsIn(bytes + more, rate, ns + time)
  {
    var a, b := ns as real, time as real;
    assert rate * a + rate * b == rate * (a + b);
  }

  lemma {:induction false} CopiesFit(copies: seq<Arrival>, rate: real)
    requires rate > 0.0 && forall c <- copies :: c.rate == rate
    ensures FitsIn(BytesOf(copies), rate, TotalCharge(copies) + |copies|)
  {
    if copies != [] {
      var before, last := copies[..|copies| - 1], copies[|copies| - 1];
      assert forall c <- before :: c in copies;
      assert last in copies;
      CopiesFit(before, rate);
      FitsTogether(BytesOf(before), TotalCharge(before) + |before|, last.len, rate);
    }
  }

  ghost predicate AtSpeed(log: seq<Read>, i: nat, j: nat, rate: real)
    requires j <= |log|
  {
    rate > 0.0 && forall k :: i <= k < j ==> forall c <- log[k].copies :: c.rate == rate
  }

  lemma {:induction false} WorkFits(log: seq<Read>, i: nat, j: nat, rate: real)
    requires i <= j <= |log| && AtSpeed(log, i, j, rate)
    ensures FitsIn(BytesBetween(log, i, j), rate, WorkBetween(log, i, j) + CopiesBetween(log, i, j))
  {
    if i < j {
      WorkFits(log, i, j - 1, rate);
      CopiesFit(log[j - 1].copies, rate);
      FitsBeside(BytesBetween(log, i, j - 1), WorkBetween(log, i, j - 1) + CopiesBetween(log, i, j - 1),
                 BytesOf(log[j - 1].copies), TotalCharge(log[j - 1].copies) + |log[j - 1].copies|, rate);
    }
  }

  /** The bytes of reads i .. j - 1 fit in the time up to read j, but for 1 ns per copy. */
  ghost predicate KeepsSpeed(log: seq<Read>, i: nat, j: nat, rate: real)
    requires i <= j < |log|
  {
    FitsIn(BytesBetween(log, i, j), rate, log[j].at - log[i].at + CopiesBetween(log, i, j))
  }

  lemma SpacedReadsKeepSpeed(log: seq<Read>, i: nat, j: nat, rate: real)
    requires i <= j < |log| && AtSpeed(log, i, j, rate) && log[i].at + WorkBetween(log, i, j) <= log[j].at
    ensures KeepsSpeed(log, i, j, rate)
  {
    var work, copies := WorkBetween(log, i, j), CopiesBetween(log, i, j);
    WorkFits(log, i, j, rate);
    FitsLonger(BytesBetween(log, i, j), rate, work + copies, log[j].at - log[i].at + copies);
  }

  /**
   While the speed is constant, the bytes of all copies made from packet i up to packet j fit in the
   time between the two reads, but for the 1 ns the source truncates from each copy.
   */
  lemma SenderKeepsSpeed(events: seq<Event>, i: nat, j: nat, rate: real)
    requires Legal(events) && i <= j < |After(events).log| && AtSpeed(After(events).log, i, j, rate)
    ensures KeepsSpeed(After(events).log, i, j, rate)
  {
    SenderIsHeldBack(events, i, j);
    SpacedReadsKeepSpeed(After(events).log, i, j, rate);
  }
}
