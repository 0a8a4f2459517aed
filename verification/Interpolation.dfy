/** Interpolation of right ascension between three days (main/spa.c:538-547, 572-580 and
    986-995; appendix A.2 of NREL/TP-560-34302), over exact reals. */
module Interpolation {
  function LimitDegrees(degrees: real): real {
    var turns := degrees / 360.0;
    var limited := 360.0 * (turns - turns.Floor as real);
    if limited < 0.0 then limited + 360.0 else limited
  }

  function LimitZeroToOne(value: real): real {
    var limited := value - value.Floor as real;
    if limited < 0.0 then limited + 1.0 else limited
  }

  function Abs(x: real): real {
    if x < 0.0 then -x else x
  }

  // The values of three consecutive days (JD_MINUS, JD_ZERO, JD_PLUS).
  datatype Samples = Samples(minus: real, zero: real, plus: real)

  function Unwrapped(step: real): real {
    if Abs(step) >= 2.0 then LimitZeroToOne(step) else step
  }

  function AlphaDeltaPrime(ad: Samples, n: real): real {
    var a := Unwrapped(ad.zero - ad.minus);
    var b := Unwrapped(ad.plus - ad.zero);
    ad.zero + n * (a + b + (b - a) * n) / 2.0
  }

  function Turns(degrees: real): int {
    (degrees / 360.0).Floor
  }

  // The angle comes back to [0, 360), whole turns removed.
  lemma LimitDegreesReduces(degrees: real)
    ensures 0.0 <= LimitDegrees(degrees) < 360.0
    ensures LimitDegrees(degrees) == degrees - 360.0 * (Turns(degrees) as real)
  {}

  function Reduced(u: Samples): Samples {
    Samples(LimitDegrees(u.minus), LimitDegrees(u.zero), LimitDegrees(u.plus))
  }

  // The parabola through three values one day apart.
  function Quadratic(u: Samples, n: real): real {
    var a := u.zero - u.minus;
    var b := u.plus - u.zero;
    u.zero + n * (a + b + (b - a) * n) / 2.0
  }

  lemma QuadraticMeetsSamples(u: Samples)
    ensures Quadratic(u, -1.0) == u.minus && Quadratic(u, 0.0) == u.zero && Quadratic(u, 1.0) == u.plus
  {}

  // ... and no other quadratic polynomial does.
  lemma QuadraticUnique(u: Samples, p: real, q: real, r: real, n: real)
    requires p - q + r == u.minus && r == u.zero && p + q + r == u.plus
    ensures Quadratic(u, n) == p * n * n + q * n + r
  {
    var a, b := u.zero - u.minus, u.plus - u.zero;
    assert a + b == 2.0 * q && b - a == 2.0 * p;
    assert n * (a + b + (b - a) * n) == 2.0 * (q * n + p * n * n);
  }

  predicate SmallSteps(u: Samples) {
    Abs(u.zero - u.minus) < 2.0 && Abs(u.plus - u.zero) < 2.0
  }

  // A step of 2 or more is replaced by its fractional part, so it is never kept.
  lemma KeptIffSmall(step: real)
    ensures Unwrapped(step) == step <==> Abs(step) < 2.0
  {
    if Abs(step) >= 2.0 {
      FractionRange(step);
    }
  }

  lemma FractionRange(x: real)
    ensures 0.0 <= LimitZeroToOne(x) < 1.0
    ensures LimitZeroToOne(x) == x - x.Floor as real
  {}

  // Values taken as they are, as declinations: the curve meets all three samples exactly when
  // neither step reaches 2, and then it is their parabola.
  lemma SmallStepsExact(u: Samples, n: real)
    ensures AlphaDeltaPrime(u, -1.0) == u.minus && AlphaDeltaPrime(u, 1.0) == u.plus <==> SmallSteps(u)
    ensures SmallSteps(u) ==> AlphaDeltaPrime(u, n) == Quadratic(u, n)
  {
    hide Unwrapped;
    AtSamples(u);
    KeptIffSmall(u.zero - u.minus);
    KeptIffSmall(u.plus - u.zero);
  }

  // A sample that is missed is missed by a whole number of degrees, the curve standing less than
  // a degree from the middle sample.
  lemma MissedByWholeDegrees(u: Samples) returns (k: int, l: int)
    ensures AlphaDeltaPrime(u, -1.0) == u.minus + k as real && AlphaDeltaPrime(u, 1.0) == u.plus - l as real
    ensures if Abs(u.zero - u.minus) < 2.0 then k == 0 else u.zero - 1.0 < AlphaDeltaPrime(u, -1.0) <= u.zero
    ensures if Abs(u.plus - u.zero) < 2.0 then l == 0 else u.zero <= AlphaDeltaPrime(u, 1.0) < u.zero + 1.0
  {
    hide LimitZeroToOne;
    AtSamples(u);
    FractionRange(u.zero - u.minus);
    FractionRange(u.plus - u.zero);
    k := if Abs(u.zero - u.minus) < 2.0 then 0 else (u.zero - u.minus).Floor;
    l := if Abs(u.plus - u.zero) < 2.0 then 0 else (u.plus - u.zero).Floor;
  }

  predicate Wraps(x: real, y: real) {
    Turns(x) != Turns(y)
  }

  lemma TurnsOf(x: real)
    ensures 360.0 * (Turns(x) as real) <= x < 360.0 * (Turns(x) as real) + 360.0
  {}

  // A forward step below 2 degrees crosses at most one multiple of 360. Its reduced form is
  // restored exactly unless it crosses one and is 1 degree or longer.
  lemma StepRestored(x: real, y: real)
    requires 0.0 <= y - x < 2.0
    ensures Unwrapped(LimitDegrees(y) - LimitDegrees(x)) == y - x <==> (Wraps(x, y) ==> y - x < 1.0)
  {
    hide LimitDegrees, Turns;
    LimitDegreesReduces(x);
    LimitDegreesReduces(y);
    TurnsOf(x);
    TurnsOf(y);
    var turns := Turns(y) - Turns(x);
    assert LimitDegrees(y) - LimitDegrees(x) == (y - x) - 360.0 * (turns as real);
    assert turns == 0 || turns == 1;
    if turns == 1 {
      FractionOf(y - x);
    }
  }

  lemma FractionOf(step: real)
    requires 0.0 <= step < 2.0
    ensures LimitZeroToOne(step - 360.0) == if step < 1.0 then step else step - 1.0
  {
    assert (step - 360.0).Floor == if step < 1.0 then -360 else -359;
  }

  // Interpolating reduced right ascensions gives the parabola through the unreduced ones, up
  // to whole turns.
  lemma WrappedInterpolation(u: Samples, n: real)
    requires 0.0 <= u.zero - u.minus < 1.0 && 0.0 <= u.plus - u.zero < 1.0
    ensures AlphaDeltaPrime(Reduced(u), n) == Quadratic(u, n) - 360.0 * (Turns(u.zero) as real)
  {
    hide LimitDegrees, Turns, Unwrapped;
    StepRestored(u.minus, u.zero);
    StepRestored(u.zero, u.plus);
    LimitDegreesReduces(u.zero);
  }

  // ... so it meets all three days' right ascensions.
  lemma WrappedMeetsSamples(u: Samples)
    requires 0.0 <= u.zero - u.minus < 1.0 && 0.0 <= u.plus - u.zero < 1.0
    ensures var turns := 360.0 * (Turns(u.zero) as real);
            && AlphaDeltaPrime(Reduced(u), -1.0) == u.minus - turns
            && AlphaDeltaPrime(Reduced(u), 0.0) == u.zero - turns
            && AlphaDeltaPrime(Reduced(u), 1.0) == u.plus - turns
  {
    hide AlphaDeltaPrime, Reduced, Turns, Quadratic;
    WrappedInterpolation(u, -1.0);
    WrappedInterpolation(u, 0.0);
    WrappedInterpolation(u, 1.0);
    QuadraticMeetsSamples(u);
  }

  // For steps up to 2 degrees it does so exactly when no step of a degree or more crosses a
  // multiple of 360; otherwise a neighbouring sample is missed.
  lemma WrappedInterpolationIff(u: Samples)
    requires 0.0 <= u.zero - u.minus < 2.0 && 0.0 <= u.plus - u.zero < 2.0
    ensures AlphaDeltaPrime(Reduced(u), 0.0) == u.zero - 360.0 * (Turns(u.zero) as real)
    ensures AlphaDeltaPrime(Reduced(u), -1.0) == u.minus - 360.0 * (Turns(u.zero) as real)
            <==> (Wraps(u.minus, u.zero) ==> u.zero - u.minus < 1.0)
    ensures AlphaDeltaPrime(Reduced(u), 1.0) == u.plus - 360.0 * (Turns(u.zero) as real)
            <==> (Wraps(u.zero, u.plus) ==> u.plus - u.zero < 1.0)
  {
    hide LimitDegrees, Turns, Unwrapped;
    StepRestored(u.minus, u.zero);
    StepRestored(u.zero, u.plus);
    LimitDegreesReduces(u.zero);
    AtSamples(Reduced(u));
  }

  lemma AtSamples(ad: Samples)
    ensures AlphaDeltaPrime(ad, 0.0) == ad.zero
    ensures AlphaDeltaPrime(ad, -1.0) == ad.zero - Unwrapped(ad.zero - ad.minus)
    ensures AlphaDeltaPrime(ad, 1.0) == ad.zero + Unwrapped(ad.plus - ad.zero)
  {
    hide Unwrapped;
  }

  // A step of 1.5 degrees over the wrap: yesterday's value is missed by a degree.
  lemma LongStepOverWrap()
    ensures var u := Samples(359.0, 360.5, 361.5);
            AlphaDeltaPrime(Reduced(u), -1.0) == u.minus - 360.0 + 1.0
  {}
}
