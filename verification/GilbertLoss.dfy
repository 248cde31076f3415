/**
 Bursty loss: the two-state chain of `lossHandler` (libvdeplug_wirefilter.c:499-533), and the loss
 rate it converges to.
 */
module GilbertLoss {

  datatype Burst = Ok | Faulty

  datatype Verdict = Forward | Drop

  /** The code's probability of entering the faulty state, for a loss rate `l` and mean burst length `b`. */
  function EnterRate(l: real, b: real): real
    requires b > 0.0 && l < 1.0
  {
    l / (b * (1.0 - l))
  }

  /** The manual's formula for the same probability (man/libvdeplug_wirefilter.1.md:46). */
  function ManualEnterRate(l: real, b: real): real
    requires b - (1.0 - l) > 0.0
  {
    l / (b - (1.0 - l))
  }

  function LeaveRate(b: real): real
    requires b > 0.0
  {
    1.0 / b
  }

  /**
   `draw < num / (a * b)` on C doubles. A zero divisor gives NaN or an infinity, whose sign is that of
   `num` unless the zero is negative: the zero factors of the source are positive zeros.
   */
  predicate BelowQuotient(draw: real, num: real, a: real, b: real) {
    var den := a * b;
    if den != 0.0 then draw < num / den
    else if a < 0.0 || b < 0.0 then num < 0.0
    else num > 0.0
  }

  /** The bursty branch of `lossHandler`: the new status, and the packet's fate. */
  function BurstyLoss(status: Burst, draw: real, l: real, b: real): (Burst, Verdict) {
    var next := match status
      case Ok => if BelowQuotient(draw, l, b, 1.0 - l) then Faulty else Ok
      case Faulty => if BelowQuotient(draw, 1.0, b, 1.0) then Ok else Faulty;
    (next, if next == Ok then Forward else Drop)
  }

  /** The probability that a draw, uniform in [0, 1), lies below x. */
  function Clamp(x: real): real {
    if x < 0.0 then 0.0 else if x > 1.0 then 1.0 else x
  }

  /** The draws in [0, 1) that drop the packet form one interval; its length is the drop probability. */
  function DropProbability(status: Burst, l: real, b: real): real
    requires b > 0.0 && l < 1.0
  {
    match status
    case Ok => Clamp(EnterRate(l, b))
    case Faulty => 1.0 - Clamp(LeaveRate(b))
  }

  lemma DropInterval(status: Burst, draw: real, l: real, b: real)
    requires b > 0.0 && 0.0 <= l < 1.0 && 0.0 <= draw < 1.0
    ensures BurstyLoss(status, draw, l, b).1 == Drop <==>
              if status == Ok then draw < DropProbability(status, l, b) else 1.0 - DropProbability(status, l, b) <= draw
    ensures BurstyLoss(status, draw, l, b).1 == Drop <==> BurstyLoss(status, draw, l, b).0 == Faulty
  {
    assert b * (1.0 - l) > 0.0;
    assert EnterRate(l, b) >= 0.0 && LeaveRate(b) >= 0.0;
  }

  /** A loss of 100 with a positive burst length always enters the faulty state; beyond 100 the quotient is negative, and never does. */
  lemma FullLossEnters(draw: real, l: real, b: real)
    requires 0.0 <= draw < 1.0 && b > 0.0 && l >= 1.0
    ensures BurstyLoss(Ok, draw, l, b) == if l == 1.0 then (Faulty, Drop) else (Ok, Forward)
  {
    if l > 1.0 {
      assert b * (l - 1.0) > 0.0;
      assert b * (1.0 - l) < 0.0;
    }
  }

  /** For an ordinary loss a negative burst length never changes the status, and a burst length of 0 does at every packet. */
  lemma EmptyBurst(draw: real, l: real, b: real)
    requires 0.0 <= draw < 1.0 && b <= 0.0 && 0.0 < l < 1.0
    ensures BurstyLoss(Ok, draw, l, b) == if b == 0.0 then (Faulty, Drop) else (Ok, Forward)
    ensures BurstyLoss(Faulty, draw, l, b) == if b == 0.0 then (Ok, Forward) else (Faulty, Drop)
  {
    if b < 0.0 {
      assert b * (1.0 - l) < 0.0;
    }
  }

  /** A divisor that is a negative zero gives minus infinity, and the faulty state is not entered. */
  lemma NegativeZero(draw: real, l: real, b: real)
    requires 0.0 <= draw < 1.0 && ((b < 0.0 && l == 1.0) || (b == 0.0 && l > 1.0))
    ensures BurstyLoss(Ok, draw, l, b) == (Ok, Forward)
  {
  }

  /** The probability of the faulty state after t steps of a chain that enters it with p and leaves it with r. */
  function Chain(t: nat, f0: real, p: real, r: real): real {
    if t == 0 then f0
    else
      var f := Chain(t - 1, f0, p, r);
      f * (1.0 - r) + (1.0 - f) * p
  }

  /** The loss rate after t more packets. */
  function FaultyAfter(t: nat, f0: real, l: real, b: real): real
    requires b > 0.0 && l < 1.0
  {
    Chain(t, f0, Clamp(EnterRate(l, b)), Clamp(LeaveRate(b)))
  }

  function Pow(q: real, t: nat): real {
    if t == 0 then 1.0 else q * Pow(q, t - 1)
  }

  function Abs(x: real): real {
    if x < 0.0 then -x else x
  }

  /** How much of the distance to the limit one packet leaves. */
  function Ratio(l: real, b: real): real
    requires b > 0.0 && l < 1.0
  {
    1.0 - Clamp(EnterRate(l, b)) - Clamp(LeaveRate(b))
  }

  /** The loss rate the chain leaves unchanged. */
  function Fixpoint(l: real, b: real): real
    requires b > 0.0 && 0.0 <= l < 1.0
  {
    LeaveClampPositive(l, b);
    Clamp(EnterRate(l, b)) / (Clamp(EnterRate(l, b)) + Clamp(LeaveRate(b)))
  }

  lemma LeaveClampPositive(l: real, b: real)
    requires b > 0.0 && 0.0 <= l < 1.0
    ensures 0.0 <= Clamp(EnterRate(l, b)) <= 1.0 && 0.0 < Clamp(LeaveRate(b)) <= 1.0
  {
    assert b * (1.0 - l) > 0.0;
    assert LeaveRate(b) > 0.0;
  }

  // ---------- The loss rate in closed form ----------

  lemma FixpointIsFixed(l: real, b: real)
    requires b > 0.0 && 0.0 <= l < 1.0
    ensures 0.0 <= Fixpoint(l, b) <= 1.0
    ensures Fixpoint(l, b) * (Clamp(EnterRate(l, b)) + Clamp(LeaveRate(b))) == Clamp(EnterRate(l, b))
  {
    LeaveClampPositive(l, b);
    var p, r := Clamp(EnterRate(l, b)), Clamp(LeaveRate(b));
    var f := Fixpoint(l, b);
    assert f * (p + r) == p;
    assert f > 1.0 ==> f * (p + r) > p + r;
    assert f < 0.0 ==> f * (p + r) < 0.0;
  }

  /** x lies w times d from `fix`. */
  ghost predicate DisplacedBy(x: real, fix: real, w: real, d: real) {
    x == fix + w * d
  }

  lemma OneStep(f: real, fix: real, p: real, r: real, q: real, w: real, d: real)
    requires fix * (p + r) == p && DisplacedBy(f, fix, w, d) && q == 1.0 - p - r
    ensures DisplacedBy(f * (1.0 - r) + (1.0 - f) * p, fix, q * w, d)
  {
    var wd := w * d;
    assert f * (1.0 - r) + (1.0 - f) * p == f * q + p;
    assert q * wd == (q * w) * d;
    assert f * q == fix * q + q * wd;
    assert fix * q == fix - fix * (p + r);
  }

  lemma {:induction false} ChainClosedForm(t: nat, f0: real, p: real, r: real, q: real, fix: real)
    requires fix * (p + r) == p && q == 1.0 - p - r
    ensures DisplacedBy(Chain(t, f0, p, r), fix, Pow(q, t), f0 - fix)
  {
    if t > 0 {
      ChainClosedForm(t - 1, f0, p, r, q, fix);
      OneStep(Chain(t - 1, f0, p, r), fix, p, r, q, Pow(q, t - 1), f0 - fix);
    }
  }

  /** `shrunk` is `distance` times `factor`. */
  ghost predicate Scaled(shrunk: real, factor: real, distance: real) {
    shrunk == factor * distance
  }

  lemma Displaced(x: real, fix: real, w: real, d: real, a: real)
    requires DisplacedBy(x, fix, w, d) && Abs(w) == a
    ensures Scaled(Abs(x - fix), a, Abs(d))
  {
    AbsProduct(w, d);
  }

  lemma ChainDistance(t: nat, f0: real, p: real, r: real, q: real, fix: real)
    requires fix * (p + r) == p && q == 1.0 - p - r
    ensures Scaled(Abs(Chain(t, f0, p, r) - fix), Pow(Abs(q), t), Abs(f0 - fix))
  {
    ChainClosedForm(t, f0, p, r, q, fix);
    PowAbs(q, t);
    Displaced(Chain(t, f0, p, r), fix, Pow(q, t), f0 - fix, Pow(Abs(q), t));
  }

  /** After t packets the distance of the loss rate to the fixpoint has shrunk by the t-th power of the ratio. */
  lemma LossRateDistance(t: nat, f0: real, l: real, b: real)
    requires b > 0.0 && 0.0 <= l < 1.0
    ensures Scaled(Abs(FaultyAfter(t, f0, l, b) - Fixpoint(l, b)), Pow(Abs(Ratio(l, b)), t), Abs(f0 - Fixpoint(l, b)))
  {
    FixpointIsFixed(l, b);
    ChainDistance(t, f0, Clamp(EnterRate(l, b)), Clamp(LeaveRate(b)), Ratio(l, b), Fixpoint(l, b));
  }

  // ---------- When the fixpoint is the requested loss ----------

  /** Both transition probabilities are what the parameters ask for. */
  predicate Attainable(l: real, b: real) {
    l == 0.0 || (b >= 1.0 && l <= b * (1.0 - l))
  }

  lemma AttainedLoss(l: real, b: real)
    requires b >= 1.0 && 0.0 <= l < 1.0 && l <= b * (1.0 - l)
    ensures Fixpoint(l, b) == l
  {
    var p, r, c := EnterRate(l, b), LeaveRate(b), b * (1.0 - l);
    assert c > 0.0 && p * c == l && r * b == 1.0;
    assert 0.0 <= p <= 1.0 && 0.0 < r <= 1.0;
    assert p * (1.0 - l) * b == l * (r * b);
    assert (p * (1.0 - l) - l * r) * b == 0.0;
    assert p * (1.0 - l) == l * r;
    assert l * (p + r) == p;
  }

  lemma ShortBurstMisses(l: real, b: real, e: real)
    requires 0.0 < l < 1.0 && 0.0 < b < 1.0 && e * (b * (1.0 - l)) == l
    ensures l * (e + 1.0) != e
  {
    var x := e * (1.0 - l);
    assert b * x == l;
    ScaledDownIsLess(b, x, l);
    assert l * (e + 1.0) == l * e + l && x == e - l * e;
  }

  lemma ScaledDownIsLess(b: real, x: real, y: real)
    requires 0.0 < b < 1.0 && 0.0 < y && b * x == y
    ensures y < x
  {
    var scaled := b * y;
    assert scaled < y by {
      assert (1.0 - b) * y > 0.0;
    }
    assert b * (x - y) == b * x - scaled;
    PositiveFactor(b, x - y);
  }

  lemma SaturatedMisses(l: real, b: real, r: real)
    requires 0.0 < l < 1.0 && b >= 1.0 && l > b * (1.0 - l) && r * b == 1.0
    ensures l * (1.0 + r) != 1.0
  {
    assert (l * (1.0 + r)) * b == l * b + l * (r * b);
  }

  /** Beyond what the probabilities can attain, the fixpoint is some other loss, or no start but itself tends to it. */
  lemma UnattainedLoss(l: real, b: real)
    requires b > 0.0 && 0.0 < l < 1.0 && !Attainable(l, b)
    ensures Fixpoint(l, b) != l || Ratio(l, b) == -1.0
  {
    var e, r, c := EnterRate(l, b), LeaveRate(b), b * (1.0 - l);
    assert c > 0.0 && e * c == l && r * b == 1.0;
    FixpointIsFixed(l, b);
    if b < 1.0 {
      Exceeds(1.0, r, b);
      if e < 1.0 {
        ShortBurstMisses(l, b, e);
      }
    } else {
      Exceeds(l, e, c);
      SaturatedMisses(l, b, r);
    }
  }

  lemma Exceeds(num: real, quotient: real, den: real)
    requires 0.0 < den < num && quotient * den == num
    ensures quotient > 1.0
  {
    assert (quotient - 1.0) * den > 0.0;
  }

  // ---------- Convergence ----------

  lemma UnitProduct(x: real, y: real)
    requires 0.0 <= x <= 1.0 && 0.0 <= y
    ensures 0.0 <= x * y <= y
  {
    assert (1.0 - x) * y >= 0.0;
  }

  lemma ShrinkStep(a: real, p: real, m: real)
    requires 0.0 <= a < 1.0 && 0.0 <= p <= 1.0 && m * ((1.0 - a) * p) <= 1.0 - p
    ensures (m + 1.0) * ((1.0 - a) * (a * p)) <= 1.0 - a * p
  {
    var x := (1.0 - a) * p;
    var mx := m * x;
    UnitProduct(a, 1.0 - p - mx);
    assert (1.0 - a) * (a * p) == a * x;
    assert (m + 1.0) * ((1.0 - a) * (a * p)) == (m + 1.0) * (a * x);
    assert (m + 1.0) * (a * x) == a * mx + a * x;
    UnitProduct(a, p);
    assert a * x == a * p - a * (a * p);
    UnitProduct(1.0 - a, 1.0 - a * p);
    assert (1.0 - a) * (1.0 - a * p) == 1.0 - a * p - a + a * (a * p);
  }

  lemma {:induction false} PowShrinks(a: real, n: nat)
    requires 0.0 <= a < 1.0
    ensures 0.0 <= Pow(a, n) <= 1.0
    ensures n as real * ((1.0 - a) * Pow(a, n)) <= 1.0 - Pow(a, n)
  {
    if n > 0 {
      PowShrinks(a, n - 1);
      UnitProduct(a, Pow(a, n - 1));
      ShrinkStep(a, Pow(a, n - 1), (n - 1) as real);
    }
  }

  /** The powers of a ratio below 1 fall below any bound, and stay there. */
  lemma PowVanishes(a: real, eps: real) returns (n: nat)
    requires 0.0 <= a < 1.0 && eps > 0.0
    ensures forall t: nat :: t >= n ==> 0.0 <= Pow(a, t) < eps
  {
    var h := (1.0 - a) * eps;
    assert h > 0.0 && 1.0 / h > 0.0;
    n := (1.0 / h).Floor + 1;
    forall t: nat | t >= n ensures 0.0 <= Pow(a, t) < eps {
      PowShrinks(a, t);
      SmallPower(a, Pow(a, t), eps, t as real);
    }
  }

  lemma SmallPower(a: real, p: real, eps: real, t: real)
    requires 0.0 <= a < 1.0 && eps > 0.0 && p >= 0.0
    requires (1.0 - a) * eps > 0.0 && t > 1.0 / ((1.0 - a) * eps)
    requires t * ((1.0 - a) * p) <= 1.0 - p
    ensures p < eps
  {
    var h, k := (1.0 - a) * eps, t * (1.0 - a);
    assert (1.0 / h) * h == 1.0 && (t - 1.0 / h) * h > 0.0;
    assert k * eps == t * h && k * p == t * ((1.0 - a) * p);
    assert 1.0 / h > 0.0 && k > 0.0;
    assert k * (eps - p) == k * eps - k * p;
    PositiveFactor(k, eps - p);
  }

  lemma PositiveFactor(k: real, x: real)
    requires k > 0.0 && k * x > 0.0
    ensures x > 0.0
  {
  }

  lemma {:induction false} PowAbs(q: real, t: nat)
    ensures Abs(Pow(q, t)) == Pow(Abs(q), t)
  {
    if t > 0 {
      PowAbs(q, t - 1);
      AbsProduct(q, Pow(q, t - 1));
    }
  }

  lemma AbsProduct(x: real, y: real)
    ensures Abs(x * y) == Abs(x) * Abs(y)
  {
  }

  ghost predicate Within(l: real, b: real, f0: real, eps: real, n: nat)
    requires b > 0.0 && 0.0 <= l < 1.0
  {
    forall t: nat :: t >= n ==> Abs(FaultyAfter(t, f0, l, b) - l) < eps
  }

  ghost predicate Settles(l: real, b: real, f0: real, eps: real)
    requires b > 0.0 && 0.0 <= l < 1.0
  {
    exists n: nat :: Within(l, b, f0, eps, n)
  }

  /** Whatever the start, the loss rate converges to the requested one. */
  ghost predicate Converges(l: real, b: real)
    requires b > 0.0 && 0.0 <= l < 1.0
  {
    forall f0: real, eps: real :: 0.0 <= f0 <= 1.0 && eps > 0.0 ==> Settles(l, b, f0, eps)
  }

  /** The parameters for which the manual's promise holds. */
  predicate Promised(l: real, b: real) {
    Attainable(l, b) && !(l == 0.5 && b == 1.0)
  }

  lemma PromisedRatio(l: real, b: real)
    requires b > 0.0 && 0.0 <= l < 1.0 && Promised(l, b)
    ensures Fixpoint(l, b) == l && -1.0 < Ratio(l, b) < 1.0
  {
    LeaveClampPositive(l, b);
    if l == 0.0 {
      assert EnterRate(l, b) == 0.0;
    } else {
      AttainedLoss(l, b);
      var e, r, c := EnterRate(l, b), LeaveRate(b), b * (1.0 - l);
      assert e * c == l && r * b == 1.0 && c > 0.0;
      assert 0.0 < e <= 1.0 && r <= 1.0;
    }
  }

  lemma PromiseKept(l: real, b: real, f0: real, eps: real) returns (n: nat)
    requires b > 0.0 && 0.0 <= l < 1.0 && Promised(l, b) && 0.0 <= f0 <= 1.0 && eps > 0.0
    ensures Within(l, b, f0, eps, n)
  {
    PromisedRatio(l, b);
    var a := Abs(Ratio(l, b));
    n := PowVanishes(a, eps);
    forall t: nat | t >= n ensures Abs(FaultyAfter(t, f0, l, b) - l) < eps {
      LossRateDistance(t, f0, l, b);
      Bounded(Abs(FaultyAfter(t, f0, l, b) - l), Pow(a, t), Abs(f0 - l), eps);
    }
  }

  lemma Bounded(x: real, w: real, d: real, eps: real)
    requires Scaled(x, w, d) && 0.0 <= w < eps && 0.0 <= d <= 1.0
    ensures x < eps
  {
    UnitProduct(d, w);
  }

  lemma {:induction false} PowOne(t: nat)
    ensures Pow(1.0, t) == 1.0
  {
    if t > 0 {
      PowOne(t - 1);
    }
  }

  /** Without the promise some start stays away from the requested loss for ever. */
  lemma PromiseBroken(l: real, b: real) returns (f0: real, eps: real)
    requires b > 0.0 && 0.0 <= l < 1.0 && !Promised(l, b)
    ensures 0.0 <= f0 <= 1.0 && eps > 0.0
    ensures forall t: nat :: Abs(FaultyAfter(t, f0, l, b) - l) >= eps
  {
    var fix := Fixpoint(l, b);
    FixpointIsFixed(l, b);
    if fix != l {
      f0, eps := fix, Abs(fix - l);
      forall t: nat ensures Abs(FaultyAfter(t, f0, l, b) - l) >= eps {
        LossRateDistance(t, f0, l, b);
      }
    } else {
      BrokenRatio(l, b);
      f0, eps := 0.0, l;
      forall t: nat ensures Abs(FaultyAfter(t, f0, l, b) - l) >= eps {
        LossRateDistance(t, f0, l, b);
        PowOne(t);
      }
    }
  }

  lemma BrokenRatio(l: real, b: real)
    requires b > 0.0 && 0.0 <= l < 1.0 && !Promised(l, b) && Fixpoint(l, b) == l
    ensures l > 0.0 && Ratio(l, b) == -1.0
  {
    if Attainable(l, b) {
      assert EnterRate(l, b) == 1.0 && LeaveRate(b) == 1.0;
    } else {
      UnattainedLoss(l, b);
    }
  }

  /**
   The manual's claim that the loss rate converges to `loss` holds exactly when loss is 0, or bursts
   last at least one packet and loss <= lostburst * (1 - loss), except for loss 50 % with lostburst 1,
   where the chain alternates.
   */
  lemma ConvergesExactlyWhenPromised(l: real, b: real)
    requires b > 0.0 && 0.0 <= l < 1.0
    ensures Converges(l, b) <==> Promised(l, b)
  {
    if Promised(l, b) {
      forall f0: real, eps: real | 0.0 <= f0 <= 1.0 && eps > 0.0 ensures Settles(l, b, f0, eps) {
        var n := PromiseKept(l, b, f0, eps);
      }
    } else {
      var f0, eps := PromiseBroken(l, b);
      forall n: nat ensures !Within(l, b, f0, eps, n) {
        assert Abs(FaultyAfter(n, f0, l, b) - l) >= eps;
      }
      assert !Settles(l, b, f0, eps);
    }
  }

  // ---------- The manual's formula ----------

  /** With the manual's probability of entering the faulty state, `loss` is stationary only for loss 0 or 1 / (lostburst + 1). */
  lemma ManualFormulaMisses(l: real, b: real)
    requires b >= 1.0 && 0.0 < l < 1.0
    ensures l * LeaveRate(b) == (1.0 - l) * ManualEnterRate(l, b) <==> l * (b + 1.0) == 1.0
  {
    var m, r, d := ManualEnterRate(l, b), LeaveRate(b), b - (1.0 - l);
    assert m * d == l && r * b == 1.0;
    assert (l * r) * (b * d) == l * d * (r * b);
    assert ((1.0 - l) * m) * (b * d) == (1.0 - l) * b * (m * d);
    assert b * d > 0.0;
    assert l * d - (1.0 - l) * b * l == l * (l * (b + 1.0) - 1.0);
  }
}
