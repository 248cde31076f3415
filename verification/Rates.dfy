/**
 The virtual-finish-time arithmetic of `bandwidthHandler` and `speedHandler`
 (libvdeplug_wirefilter.c:559-602). Timestamps are nanoseconds and truncate to integers where the
 source assigns a `double` to a `uint64_t`; delays are milliseconds as exact reals.
 */
module Rates {
  const NS_PER_MS: nat := 1_000_000
  const NS_PER_S: real := 1_000_000_000.0
  const DROP_DELAY: real := -1.0  // `return DROP` from a handler that returns a delay

  function TransmissionMs(len: nat, rate: real): real
    requires rate > 0.0
  {
    (len * 1000) as real / rate
  }

  /** What `next += MS_TO_NS(send_time_ms)` adds: the fraction of a nanosecond is lost. */
  function Charge(len: nat, rate: real): (c: nat)
    requires rate > 0.0
    ensures c as real <= TransmissionMs(len, rate) * 1000000.0 < c as real + 1.0
  {
    var t := TransmissionMs(len, rate) * 1000000.0;
    assert (len * 1000) as real / rate >= 0.0;
    t.Floor
  }

  /** The busy period of the line after one more transmission. */
  function Occupy(next: nat, now: nat, charge: nat): nat {
    (if now > next then now else next) + charge
  }

  /** A packet that comes to the line, and the rate computed for it. */
  datatype Arrival = Arrival(now: nat, len: nat, rate: real)

  /** What a packet is charged; a rate that is not positive charges nothing. */
  function ChargeOf(a: Arrival): nat {
    if a.rate > 0.0 then Charge(a.len, a.rate) else 0
  }

  /** The finish time of the line after a packet. */
  function Advance(next: nat, a: Arrival): nat {
    if a.rate > 0.0 then Occupy(next, a.now, ChargeOf(a)) else next
  }

  /** `bandwidthHandler`: the new `bandwidth_next` and the returned delay. */
  function Bandwidth(next: nat, a: Arrival): (nat, real) {
    if a.rate <= 0.0 then (next, DROP_DELAY)
    else if a.now > next then (Advance(next, a), TransmissionMs(a.len, a.rate))
    else (Advance(next, a), ((next - a.now) / NS_PER_MS) as real + TransmissionMs(a.len, a.rate))
  }

  /** `speedHandler`: the new `speed_next` and the returned delay. */
  function Speed(next: nat, a: Arrival): (nat, real) {
    if a.rate <= 0.0 then (next, DROP_DELAY) else (Advance(next, a), TransmissionMs(a.len, a.rate))
  }

  /** The transmission time of a packet is its length over the rate: exactly in the delay, and rounded down in the charge. */
  lemma TransmissionIsLengthOverRate(len: nat, rate: real)
    requires rate > 0.0
    ensures TransmissionMs(len, rate) * rate == len as real * 1000.0
    ensures rate * Charge(len, rate) as real <= len as real * NS_PER_S < rate * (Charge(len, rate) as real + 1.0)
  {
    var t := TransmissionMs(len, rate);
    assert t * rate == (len * 1000) as real;
    var ns, c := t * 1000000.0, Charge(len, rate) as real;
    assert rate * ns == len as real * NS_PER_S;
    Scale(rate, c, ns);
    StrictScale(rate, ns, c + 1.0);
    assert rate * ns < rate * (c + 1.0);
    assert len as real * NS_PER_S < rate * (c + 1.0);
  }

  lemma Scale(rate: real, a: real, b: real)
    requires rate > 0.0 && a <= b
    ensures rate * a <= rate * b
  {
  }

  lemma StrictScale(rate: real, a: real, b: real)
    requires rate > 0.0 && a < b
    ensures rate * a < rate * b
  {
    assert rate * (b - a) > 0.0;
  }

  // ---------- One direction ----------

  /** The finish time after the arrivals, from the initial 0. */
  function Finish(arrivals: seq<Arrival>): nat {
    if arrivals == [] then 0
    else Advance(Finish(arrivals[..|arrivals| - 1]), arrivals[|arrivals| - 1])
  }

  /** What arrivals k .. end are charged. */
  function Work(arrivals: seq<Arrival>, k: nat): nat
    requires k <= |arrivals|
    decreases |arrivals|
  {
    if k == |arrivals| then 0
    else Work(arrivals[..|arrivals| - 1], k) + ChargeOf(arrivals[|arrivals| - 1])
  }

  /**
   The line is a single server in order of arrival, at whatever rates: its finish time is the maximum,
   over all k that are charged, of the arrival time of k plus the charges from k on.
   */
  lemma {:induction false} FinishIsMaximum(arrivals: seq<Arrival>)
    ensures forall k :: 0 <= k < |arrivals| && arrivals[k].rate > 0.0 ==> arrivals[k].now + Work(arrivals, k) <= Finish(arrivals)
    ensures Finish(arrivals) == 0 ||
            exists k :: 0 <= k < |arrivals| && arrivals[k].rate > 0.0 && arrivals[k].now + Work(arrivals, k) == Finish(arrivals)
  {
    if arrivals != [] {
      var n := |arrivals| - 1;
      var before, last := arrivals[..n], arrivals[n];
      assert Work(arrivals, n) == ChargeOf(last);
      FinishIsMaximum(before);
      assert forall k :: 0 <= k < n ==> Work(arrivals, k) == Work(before, k) + ChargeOf(last);
      if last.now <= Finish(before) && Finish(before) > 0 {
        var k :| 0 <= k < n && before[k].rate > 0.0 && before[k].now + Work(before, k) == Finish(before);
        assert arrivals[k].now + Work(arrivals, k) == Finish(before) + ChargeOf(last);
      }
    }
  }

  /** Between two finish times lies all the work that arrived in between. */
  lemma {:induction false} FinishTimesSpread(arrivals: seq<Arrival>, i: nat)
    requires i <= |arrivals|
    ensures Finish(arrivals[..i]) + Work(arrivals, i) <= Finish(arrivals)
    decreases |arrivals|
  {
    if i < |arrivals| {
      var before := arrivals[..|arrivals| - 1];
      FinishTimesSpread(before, i);
      assert before[..i] == arrivals[..i];
    } else {
      assert arrivals[..i] == arrivals;
    }
  }

  function TotalBytes(arrivals: seq<Arrival>): nat {
    if arrivals == [] then 0 else TotalBytes(arrivals[..|arrivals| - 1]) + arrivals[|arrivals| - 1].len
  }

  /**
   What the rate handlers ask for, without their branches: the transmission time, and for the bandwidth
   also the whole milliseconds until the line is free. A packet at a rate that is not positive leaves the
   line alone, and gets a delay of -1 ms.
   */
  lemma DelayIsTransmissionAndWait(next: nat, a: Arrival) returns (wait: nat)
    ensures a.rate > 0.0 ==> Speed(next, a).1 * a.rate == a.len as real * 1000.0
    ensures a.rate > 0.0 ==> (Bandwidth(next, a).1 - wait as real) * a.rate == a.len as real * 1000.0
    ensures a.now <= next ==> wait * 1_000_000 <= next - a.now < (wait + 1) * 1_000_000
    ensures next <= a.now ==> wait == 0
    ensures a.rate <= 0.0 ==> Bandwidth(next, a) == Speed(next, a) == (next, -1.0)
  {
    wait := if a.now > next then 0 else (next - a.now) / NS_PER_MS;
    if a.rate > 0.0 {
      TransmissionIsLengthOverRate(a.len, a.rate);
    }
  }

  /** What the rate handlers book: the transmission time, rounded down to nanoseconds, from when the line is free. */
  lemma BookingIsTransmission(next: nat, a: Arrival) returns (from: nat)
    requires a.rate > 0.0
    ensures Bandwidth(next, a).0 == Speed(next, a).0 == Advance(next, a) >= from
    ensures from >= next && from >= a.now && (from == next || from == a.now)
    ensures var ns := (Advance(next, a) - from) as real;
            a.rate * ns <= a.len as real * 1000000000.0 < a.rate * (ns + 1.0)
  {
    from := if a.now > next then a.now else next;
    TransmissionIsLengthOverRate(a.len, a.rate);
  }

  // ---------- At a constant rate ----------

  predicate AtRate(arrivals: seq<Arrival>, rate: real) {
    forall i :: 0 <= i < |arrivals| ==> arrivals[i].rate == rate
  }

  /** At `rate` bytes per second, `bytes` bytes take at most `ns` nanoseconds. */
  ghost predicate FitsIn(bytes: int, rate: real, ns: int) {
    bytes as real * NS_PER_S <= rate * ns as real
  }

  lemma BytesPerCharge(len: nat, rate: real)
    requires rate > 0.0
    ensures len as real * NS_PER_S <= rate * (Charge(len, rate) as real + 1.0)
  {
    TransmissionIsLengthOverRate(len, rate);
  }

  lemma FitsTogether(bytes: nat, ns: nat, len: nat, rate: real)
    requires rate > 0.0 && FitsIn(bytes, rate, ns)
    ensures FitsIn(bytes + len, rate, ns + Charge(len, rate) + 1)
  {
    BytesPerCharge(len, rate);
    var w, c := ns as real, Charge(len, rate) as real + 1.0;
    assert rate * w + rate * c == rate * (w + c);
  }

  lemma FitsLonger(bytes: nat, rate: real, ns: nat, more: nat)
    requires rate > 0.0 && ns <= more && FitsIn(bytes, rate, ns)
    ensures FitsIn(bytes, rate, more)
  {
    Scale(rate, ns as real, more as real);
  }

  /** The bytes of arrivals i .. end fit in their work, but for 1 ns lost per packet. */
  lemma {:induction false} BytesFitWork(arrivals: seq<Arrival>, i: nat, rate: real)
    requires rate > 0.0 && AtRate(arrivals, rate) && i <= |arrivals|
    ensures FitsIn(TotalBytes(arrivals[i..]), rate, Work(arrivals, i) + (|arrivals| - i))
    decreases |arrivals|
  {
    if i < |arrivals| {
      var n := |arrivals| - 1;
      var before, last := arrivals[..n], arrivals[n];
      BytesFitWork(before, i, rate);
      assert arrivals[i..][..|arrivals[i..]| - 1] == before[i..];
      FitsTogether(TotalBytes(before[i..]), Work(before, i) + (n - i), last.len, rate);
    }
  }

  lemma {:induction false} FirstBytes(arrivals: seq<Arrival>)
    requires arrivals != []
    ensures TotalBytes(arrivals) == arrivals[0].len + TotalBytes(arrivals[1..])
  {
    var before := arrivals[..|arrivals| - 1];
    if before != [] {
      FirstBytes(before);
      assert arrivals[1..][..|arrivals| - 2] == before[1..];
    }
  }

  lemma WorkFitsWindow(arrivals: seq<Arrival>, i: nat, from: nat, window: nat)
    requires i < |arrivals| && from < Finish(arrivals[..i + 1]) && Finish(arrivals) <= from + window
    ensures Work(arrivals, i + 1) <= window
  {
    FinishTimesSpread(arrivals, i + 1);
  }

  lemma RestBytes(arrivals: seq<Arrival>, i: nat)
    requires i < |arrivals|
    ensures TotalBytes(arrivals[i..]) - arrivals[i].len == TotalBytes(arrivals[i + 1..])
  {
    FirstBytes(arrivals[i..]);
    assert arrivals[i..][1..] == arrivals[i + 1..];
  }

  /** The bytes after arrival i fit in the window, but for 1 ns per packet. */
  ghost predicate BytesFit(arrivals: seq<Arrival>, i: nat, rate: real, window: nat)
    requires i < |arrivals|
  {
    FitsIn(TotalBytes(arrivals[i..]) - arrivals[i].len, rate, window + (|arrivals| - i - 1))
  }

  lemma RestFits(arrivals: seq<Arrival>, i: nat, rate: real, window: nat)
    requires rate > 0.0 && AtRate(arrivals, rate) && i < |arrivals| && Work(arrivals, i + 1) <= window
    ensures FitsIn(TotalBytes(arrivals[i + 1..]), rate, window + (|arrivals| - i - 1))
  {
    BytesFitWork(arrivals, i + 1, rate);
    FitsLonger(TotalBytes(arrivals[i + 1..]), rate, Work(arrivals, i + 1) + (|arrivals| - (i + 1)), window + (|arrivals| - i - 1));
  }

  /**
   Throughput: packets i .. end, if they finish within (from, from + window], carry at most the
   bytes of that window plus one packet, but for the 1 ns the source truncates from each of the others.
   */
  lemma ThroughputBound(arrivals: seq<Arrival>, i: nat, rate: real, from: nat, window: nat)
    requires rate > 0.0 && AtRate(arrivals, rate) && i < |arrivals|
    requires from < Finish(arrivals[..i + 1]) && Finish(arrivals) <= from + window
    ensures BytesFit(arrivals, i, rate, window)
  {
    WorkFitsWindow(arrivals, i, from, window);
    RestFits(arrivals, i, rate, window);
    RestBytes(arrivals, i);
  }

  /** Finish times never go back, so the packets that finish in a window are consecutive arrivals. */
  lemma FinishTimesGrow(arrivals: seq<Arrival>, i: nat)
    requires i <= |arrivals|
    ensures Finish(arrivals[..i]) <= Finish(arrivals)
  {
    FinishTimesSpread(arrivals, i);
  }

  /**
   The time a packet is asked to leave at, now + delay, lies less than 1 ms below and less than
   1 ns above its finish time, after any number of packets.
   */
  lemma DelayMeetsFinish(arrivals: seq<Arrival>, a: Arrival)
    requires a.rate > 0.0
    ensures var (next, delay) := Bandwidth(Finish(arrivals), a);
            && next == Finish(arrivals + [a])
            && next as real - 1000000.0 < a.now as real + delay * 1000000.0 < next as real + 1.0
  {
    var longer := arrivals + [a];
    assert longer[..|longer| - 1] == arrivals;
    var before := Finish(arrivals);
    if a.now <= before {
      var ms := (before - a.now) / NS_PER_MS;
      assert ms * NS_PER_MS <= before - a.now < (ms + 1) * NS_PER_MS;
      assert (ms as real + TransmissionMs(a.len, a.rate)) * 1000000.0 == ms as real * 1000000.0 + TransmissionMs(a.len, a.rate) * 1000000.0;
      assert ms as real * 1000000.0 == (ms * NS_PER_MS) as real;
    }
  }

  // ---------- When the bound needs no 1 ns per packet ----------

  ghost predicate Windowed(arrivals: seq<Arrival>, i: nat, rate: real, from: nat, window: nat)
    requires rate > 0.0
  {
    && i < |arrivals| && AtRate(arrivals, rate)
    && from < Finish(arrivals[..i + 1]) && Finish(arrivals) <= from + window
  }

  /** In every window of finish times, at most rate * window bytes plus one packet. */
  ghost predicate KeepsRate(rate: real)
    requires rate > 0.0
  {
    forall arrivals: seq<Arrival>, i: nat, from: nat, window: nat :: Windowed(arrivals, i, rate, from, window) ==>
      FitsIn(TotalBytes(arrivals[i..]) - arrivals[i].len, rate, window)
  }

  /** A byte takes a whole number of nanoseconds. */
  ghost predicate WholeNanoseconds(rate: real)
    requires rate > 0.0
  {
    rate * Charge(1, rate) as real == NS_PER_S
  }

  lemma WholeCharge(len: nat, rate: real)
    requires rate > 0.0 && WholeNanoseconds(rate)
    ensures rate * Charge(len, rate) as real == len as real * NS_PER_S
  {
    var c, t := Charge(1, rate), TransmissionMs(len, rate) * 1000000.0;
    assert t * rate == len as real * NS_PER_S;
    assert rate * (len * c) as real == len as real * (rate * c as real);
    assert rate * t == rate * (len * c) as real;
    assert t == (len * c) as real;
  }

  lemma {:induction false} WholeWork(arrivals: seq<Arrival>, i: nat, rate: real)
    requires rate > 0.0 && WholeNanoseconds(rate) && AtRate(arrivals, rate) && i <= |arrivals|
    ensures FitsIn(TotalBytes(arrivals[i..]), rate, Work(arrivals, i))
    decreases |arrivals|
  {
    if i < |arrivals| {
      var n := |arrivals| - 1;
      var before, last := arrivals[..n], arrivals[n];
      WholeWork(before, i, rate);
      WholeCharge(last.len, rate);
      assert arrivals[i..][..|arrivals[i..]| - 1] == before[i..];
      var w, c := Work(before, i) as real, Charge(last.len, rate) as real;
      assert rate * w + rate * c == rate * (w + c);
    }
  }

  lemma WholeKeepsRate(arrivals: seq<Arrival>, i: nat, rate: real, from: nat, window: nat)
    requires rate > 0.0 && WholeNanoseconds(rate) && Windowed(arrivals, i, rate, from, window)
    ensures FitsIn(TotalBytes(arrivals[i..]) - arrivals[i].len, rate, window)
  {
    WorkFitsWindow(arrivals, i, from, window);
    WholeWork(arrivals, i + 1, rate);
    RestBytes(arrivals, i);
    FitsLonger(TotalBytes(arrivals[i + 1..]), rate, Work(arrivals, i + 1), window);
  }

  /** n one-byte packets at time 1. */
  function Train(n: nat, rate: real): (r: seq<Arrival>)
    ensures |r| == n && AtRate(r, rate)
  {
    if n == 0 then [] else Train(n - 1, rate) + [Arrival(1, 1, rate)]
  }

  lemma OneMoreInTrain(finish: nat, n: nat, rate: real, c: nat)
    requires rate > 0.0 && n > 0 && c == Charge(1, rate) && finish == (if n == 1 then 0 else 1 + (n - 1) * c)
    ensures Advance(finish, Arrival(1, 1, rate)) == 1 + n * c
  {
    Distribute(n, c);
  }

  lemma Distribute(n: nat, c: nat)
    ensures n > 0 ==> (n - 1) * c + c == n * c && (n - 1) * c >= 0
  {
  }

  lemma {:induction false} TrainFinish(n: nat, rate: real, c: nat)
    requires rate > 0.0 && n > 0 && c == Charge(1, rate)
    ensures Finish(Train(n, rate)) == 1 + n * c
  {
    assert Train(n, rate)[..n - 1] == Train(n - 1, rate) && Train(n, rate)[n - 1] == Arrival(1, 1, rate);
    if n > 1 {
      TrainFinish(n - 1, rate, c);
    }
    OneMoreInTrain(Finish(Train(n - 1, rate)), n, rate, c);
  }

  lemma {:induction false} TrainBytes(n: nat, rate: real)
    requires n > 0
    ensures TotalBytes(Train(n, rate)) == n && Train(n, rate)[0] == Arrival(1, 1, rate) && Train(n, rate)[..1] == Train(1, rate)
  {
    assert Train(n, rate)[..n - 1] == Train(n - 1, rate);
    if n > 1 {
      TrainBytes(n - 1, rate);
      assert Train(n, rate)[..1] == Train(n - 1, rate)[..1];
    }
  }

  lemma Archimedes(x: real, step: real) returns (m: nat)
    requires x > 0.0 && step > 0.0
    ensures m as real * step > x
  {
    assert x / step >= 0.0;
    m := (x / step).Floor + 1;
    assert (x / step) * step == x;
    assert (m as real - x / step) * step > 0.0;
  }

  lemma Unfit(m: nat, rate: real, c: nat)
    requires m as real * (NS_PER_S - rate * c as real) > rate > 0.0
    ensures !FitsIn(m, rate, m * c + 1)
  {
    var used := rate * c as real;
    assert m as real * (NS_PER_S - used) == m as real * NS_PER_S - m as real * used;
    assert (m * c + 1) as real == m as real * c as real + 1.0;
    assert rate * (m as real * c as real + 1.0) == m as real * used + rate;
  }

  lemma FractionSaved(rate: real)
    requires rate > 0.0 && !WholeNanoseconds(rate)
    ensures NS_PER_S - rate * Charge(1, rate) as real > 0.0
  {
    var t := TransmissionMs(1, rate) * 1000000.0;
    assert t * rate == NS_PER_S;
    Scale(rate, Charge(1, rate) as real, t);
  }

  /** A long enough train of one-byte packets beats the rate by what truncation saves it. */
  lemma FractionsBeatRate(rate: real) returns (train: seq<Arrival>, from: nat, window: nat)
    requires rate > 0.0 && !WholeNanoseconds(rate)
    ensures Windowed(train, 0, rate, from, window) && !FitsIn(TotalBytes(train[0..]) - train[0].len, rate, window)
  {
    var c := Charge(1, rate);
    FractionSaved(rate);
    var m := Archimedes(rate, NS_PER_S - rate * c as real);
    Unfit(m, rate, c);
    train, from, window := Train(m + 1, rate), c, m * c + 1;
    TrainWindow(m, rate);
  }

  lemma TrainWindow(m: nat, rate: real)
    requires rate > 0.0
    ensures var c := Charge(1, rate); Windowed(Train(m + 1, rate), 0, rate, c, m * c + 1)
    ensures TotalBytes(Train(m + 1, rate)[0..]) - Train(m + 1, rate)[0].len == m
  {
    var c := Charge(1, rate);
    TrainFinish(m + 1, rate, c);
    TrainFinish(1, rate, c);
    TrainBytes(m + 1, rate);
    assert (m + 1) * c == m * c + c;
    assert Train(m + 1, rate)[0..] == Train(m + 1, rate) && Train(m + 1, rate)[..0 + 1] == Train(1, rate);
  }

  /**
   The plain bound, without 1 ns per packet, holds at exactly the rates at which a byte takes a
   whole number of nanoseconds. This is about exact arithmetic: the source adds the transmission
   time as a `double`, which near present-day timestamps moves in steps of 256 ns.
   */
  lemma KeepsRateExactlyWithoutFractions(rate: real)
    requires rate > 0.0
    ensures KeepsRate(rate) <==> WholeNanoseconds(rate)
  {
    if WholeNanoseconds(rate) {
      forall arrivals: seq<Arrival>, i: nat, from: nat, window: nat | Windowed(arrivals, i, rate, from, window)
        ensures FitsIn(TotalBytes(arrivals[i..]) - arrivals[i].len, rate, window)
      {
        WholeKeepsRate(arrivals, i, rate, from, window);
      }
    } else {
      var train, from, window := FractionsBeatRate(rate);
    }
  }
}
