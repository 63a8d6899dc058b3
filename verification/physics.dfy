/**
 * The forward power model (PowerEval, PowerEvalByDynamics) and its inverse
 * (SpeedEval), which solves the power equation for the speed.
 */
module Physics {
  import opened Results
  import opened Transcendental
  import opened PhysicsParams
  import opened RootSelection
  import opened CubicSolver

  // ---------------------------------------------------------------------------
  // Forward model
  // ---------------------------------------------------------------------------

  function KphToMps(speedKph: real): real { speedKph / 3.6 }

  /** Rolling resistance force, N. */
  function RollingDrag(cp: CyclistParams): real
  {
    cp.rollingCoeff * cp.totalMassKg * Gravity
  }

  /** Component of the weight along a slope of `gradientPercent` %, N. */
  function GradientDrag(cp: CyclistParams, gradientPercent: real): real
  {
    gradientPercent / 100.0 * cp.totalMassKg * Gravity
  }

  /** Aerodynamic drag at the given air speed, N. */
  function AeroDrag(cp: CyclistParams, density: real, airspeedMps: real): real
  {
    0.50 * density * cp.cda * airspeedMps * airspeedMps
  }

  /** Total resisting force at the given air speed, N. */
  function Resistance(cp: CyclistParams, density: real, gradientPercent: real, airspeedMps: real): real
  {
    RollingDrag(cp) + GradientDrag(cp, gradientPercent) + AeroDrag(cp, density, airspeedMps)
  }

  /** The power before clamping, for a ground speed of `speedMps` m/s. */
  function RawPower(cp: CyclistParams, density: real, gradientPercent: real, headwindKph: real, speedMps: real): real
  {
    var airspeedMps := speedMps + KphToMps(headwindKph);
    Resistance(cp, density, gradientPercent, airspeedMps) * speedMps * (1.0 + cp.drivetrainPenalty)
  }

  /** The power PowerEval reports at `speedKph`: the raw power, or 0 where that
      is negative. */
  function Power(cp: CyclistParams, density: real, gradientPercent: real, headwindKph: real, speedKph: real): (power: real)
    ensures power >= 0.0
    ensures RawPower(cp, density, gradientPercent, headwindKph, KphToMps(speedKph)) >= 0.0 ==>
      power == RawPower(cp, density, gradientPercent, headwindKph, KphToMps(speedKph))
    ensures RawPower(cp, density, gradientPercent, headwindKph, KphToMps(speedKph)) < 0.0 ==> power == 0.0
  {
    var powerW := RawPower(cp, density, gradientPercent, headwindKph, KphToMps(speedKph));
    if powerW < 0.0 then 0.0 else powerW
  }

  /** Standing still takes no power, whatever the slope or the wind. */
  lemma PowerAtRest(cp: CyclistParams, density: real, gradientPercent: real, headwindKph: real)
    ensures Power(cp, density, gradientPercent, headwindKph, 0.0) == 0.0
  {
    assert KphToMps(0.0) == 0.0;
  }

  /** Going downhill steeply enough (or with a tailwind pushing hard enough)
      that the total resisting force is negative, the power is clamped to 0
      rather than reported as negative. */
  lemma PowerClampedDownhill(cp: CyclistParams, density: real, gradientPercent: real, headwindKph: real, speedKph: real)
    requires speedKph > 0.0 && cp.drivetrainPenalty > -1.0
    requires Resistance(cp, density, gradientPercent, KphToMps(speedKph) + KphToMps(headwindKph)) < 0.0
    ensures Power(cp, density, gradientPercent, headwindKph, speedKph) == 0.0
  {
    var v := KphToMps(speedKph);
    var f := Resistance(cp, density, gradientPercent, v + KphToMps(headwindKph));
    assert v > 0.0;
    assert f * v < 0.0;
    assert RawPower(cp, density, gradientPercent, headwindKph, v) == f * v * (1.0 + cp.drivetrainPenalty);
  }

  /** Power needed to ride at `speedKph` in the conditions `ep`; refreshes the
      cached air density of `ep` on the way. */
  method PowerEval(cp: CyclistParams, ep: EnvironmentParams, speedKph: real, lib: Libm) returns (power: real)
    requires TemperatureK(ep.temperatureC) != 0.0
    modifies ep`airDensityKgm3
    ensures power == Power(cp, ep.Density(lib), ep.gradientPercent, ep.headwindKph, speedKph)
    ensures ep.airDensityKgm3 == ep.Density(lib)
  {
    var speedMps := speedKph / 3.6;
    var headwindMps := ep.headwindKph / 3.6;
    var airspeedMps := speedMps + headwindMps;
    var density := ep.GetAirDensity(lib);

    var rollingDrag := cp.rollingCoeff * cp.totalMassKg * Gravity;
    var gradientDrag := ep.gradientPercent / 100.0 * cp.totalMassKg * Gravity;
    var aeroDrag := 0.50 * density * cp.cda * airspeedMps * airspeedMps;

    var powerW := (rollingDrag + gradientDrag + aeroDrag) * speedMps * (1.0 + cp.drivetrainPenalty);
    power := if powerW < 0.0 then 0.0 else powerW;
  }

  /**
   * Power between two samples, evaluated at the mean of the two speeds. The
   * acceleration the source derives from the speed change and `dt` is never
   * used, and `beforeEp` is never read: the result is PowerEval at the mean speed.
   */
  method PowerEvalByDynamics(cp: CyclistParams, ep: EnvironmentParams, beforeEp: EnvironmentParams,
                             speedKph: real, beforeSpeedKph: real, dt: real, lib: Libm) returns (power: real)
    requires TemperatureK(ep.temperatureC) != 0.0
    modifies ep`airDensityKgm3
    ensures power == Power(cp, ep.Density(lib), ep.gradientPercent, ep.headwindKph, (speedKph + beforeSpeedKph) / 2.0)
    ensures ep.airDensityKgm3 == ep.Density(lib)
  {
    var speedMps := (speedKph + beforeSpeedKph) / 7.2;
    assert speedMps == KphToMps((speedKph + beforeSpeedKph) / 2.0);
    var headwindMps := ep.headwindKph / 3.6;
    var airspeedMps := speedMps + headwindMps;
    var density := ep.GetAirDensity(lib);

    var rollingDrag := cp.rollingCoeff * cp.totalMassKg * Gravity;
    var gradientDrag := ep.gradientPercent / 100.0 * cp.totalMassKg * Gravity;
    var aeroDrag := 0.50 * density * cp.cda * airspeedMps * airspeedMps;

    var powerW := (rollingDrag + gradientDrag + aeroDrag) * speedMps * (1.0 + cp.drivetrainPenalty);
    power := if powerW < 0.0 then 0.0 else powerW;
  }

  // ---------------------------------------------------------------------------
  // Inverse model
  // ---------------------------------------------------------------------------

  /** Coefficients of a·x³ + b·x² + c·x + d. */
  datatype Cubic = Cubic(a: real, b: real, c: real, d: real)

  /** The aerodynamic factor k = ½·ρ·CdA. */
  function AeroFactor(cp: CyclistParams, density: real): real { 0.50 * density * cp.cda }

  /** The speed-independent resistance m = rolling + gradient force. */
  function SpeedIndependentDrag(cp: CyclistParams, gradientPercent: real): real
  {
    cp.rollingCoeff * cp.totalMassKg * Gravity + gradientPercent / 100.0 * cp.totalMassKg * Gravity
  }

  /**
   * The cubic in the ground speed x (m/s) whose roots are the speeds at which
   * the model needs `powerW`: k·x³ + 2kh·x² + (kh² + m)·x - powerW/(1 + penalty).
   */
  function SpeedCubic(cp: CyclistParams, density: real, gradientPercent: real, headwindKph: real, powerW: real): Cubic
    requires 1.0 + cp.drivetrainPenalty != 0.0
  {
    var k := AeroFactor(cp, density);
    var h := KphToMps(headwindKph);
    var m := SpeedIndependentDrag(cp, gradientPercent);
    Cubic(k, 2.0 * k * h, k * h * h + m, -powerW / (1.0 + cp.drivetrainPenalty))
  }

  /** (m + k·(x + h)²)·x expanded in powers of x. */
  lemma ExpandSpeedPolynomial(k: real, h: real, m: real, x: real)
    ensures (m + k * (x + h) * (x + h)) * x == k * x * x * x + (2.0 * k * h) * x * x + (k * h * h + m) * x
  {
    assert (x + h) * (x + h) == x * x + 2.0 * h * x + h * h;
    assert k * (x + h) * (x + h) == k * x * x + 2.0 * k * h * x + k * h * h;
  }

  lemma NegatedQuotient(p: real, e: real)
    requires e != 0.0
    ensures -p / e == -(p / e)
  {
    var x, y := -p / e, -(p / e);
    assert x * e == -p;
    assert y * e == -p;
    assert (x - y) * e == 0.0;
  }

  /** The polynomial identity behind the coefficients: the cubic's value at
      x is the power needed at x m/s, before the drivetrain penalty, less
      powerW/(1 + penalty). */
  lemma SpeedCubicIdentity(cp: CyclistParams, density: real, gradientPercent: real, headwindKph: real, powerW: real, x: real)
    requires 1.0 + cp.drivetrainPenalty != 0.0
    ensures var q := SpeedCubic(cp, density, gradientPercent, headwindKph, powerW);
      CubicValue(q.a, q.b, q.c, q.d, x)
        == Resistance(cp, density, gradientPercent, x + KphToMps(headwindKph)) * x - powerW / (1.0 + cp.drivetrainPenalty)
  {
    var k, h, m := AeroFactor(cp, density), KphToMps(headwindKph), SpeedIndependentDrag(cp, gradientPercent);
    var d := -powerW / (1.0 + cp.drivetrainPenalty);
    NegatedQuotient(powerW, 1.0 + cp.drivetrainPenalty);
    var q := SpeedCubic(cp, density, gradientPercent, headwindKph, powerW);
    assert q == Cubic(k, 2.0 * k * h, k * h * h + m, d);
    assert CubicValue(q.a, q.b, q.c, q.d, x) == k * x * x * x + (2.0 * k * h) * x * x + (k * h * h + m) * x + d;
    ExpandSpeedPolynomial(k, h, m, x);
    assert Resistance(cp, density, gradientPercent, x + h) == m + k * (x + h) * (x + h);
  }

  /** u - P/e vanishes exactly when u·e = P. */
  lemma ClearDenominator(u: real, e: real, p: real)
    requires e != 0.0
    ensures u - p / e == 0.0 <==> u * e == p
  {
    if u - p / e == 0.0 {
      assert u == p / e;
    }
  }

  /** x (m/s) is a root of the speed cubic exactly when the forward model needs
      `powerW` (before clamping) at that speed. */
  lemma {:induction false} SpeedCubicRootIffPower(cp: CyclistParams, density: real, gradientPercent: real, headwindKph: real, powerW: real, x: real)
    requires 1.0 + cp.drivetrainPenalty != 0.0
    ensures var q := SpeedCubic(cp, density, gradientPercent, headwindKph, powerW);
      CubicValue(q.a, q.b, q.c, q.d, x) == 0.0 <==> RawPower(cp, density, gradientPercent, headwindKph, x) == powerW
  {
    SpeedCubicIdentity(cp, density, gradientPercent, headwindKph, powerW, x);
    ClearDenominator(Resistance(cp, density, gradientPercent, x + KphToMps(headwindKph)) * x, 1.0 + cp.drivetrainPenalty, powerW);
  }

  /** What SpeedEval returns: 3.6 times the unique positive root of the speed
      cubic, as found by SolveCubic with its repeated-root branch corrected, or
      the root-selection error. */
  function SpeedFromPower(lib: Libm, cp: CyclistParams, density: real, gradientPercent: real, headwindKph: real, powerW: real): Result<real, RootError>
    requires Ideal(lib)
    requires 1.0 + cp.drivetrainPenalty != 0.0
  {
    var q := SpeedCubic(cp, density, gradientPercent, headwindKph, powerW);
    match UniquePositiveRoot(CubicRoots(lib, q.a, q.b, q.c, q.d), Tolerance)
    case Ok(speedMps) => Ok(speedMps * 3.6)
    case Err(e) => Err(e)
  }

  /** Speed (km/h) at which riding in the conditions `ep` takes `powerW`; fails
      as GetUniquePositiveRoot does. */
  method SpeedEval(cp: CyclistParams, ep: EnvironmentParams, powerW: real, lib: Libm) returns (speed: Result<real, RootError>)
    requires Ideal(lib)
    requires TemperatureK(ep.temperatureC) != 0.0
    requires 1.0 + cp.drivetrainPenalty != 0.0
    modifies ep`airDensityKgm3
    ensures speed == SpeedFromPower(lib, cp, ep.Density(lib), ep.gradientPercent, ep.headwindKph, powerW)
    ensures ep.airDensityKgm3 == ep.Density(lib)
  {
    var density := ep.GetAirDensity(lib);

    var k := 0.50 * density * cp.cda;
    var h := ep.headwindKph / 3.6;
    var m := cp.rollingCoeff * cp.totalMassKg * Gravity + ep.gradientPercent / 100.0 * cp.totalMassKg * Gravity;

    var a := k;
    var b := 2.0 * k * h;
    var c := k * h * h + m;
    var d := -powerW / (1.0 + cp.drivetrainPenalty);
    assert Cubic(a, b, c, d) == SpeedCubic(cp, density, ep.gradientPercent, ep.headwindKph, powerW);

    var roots := SolveCubic(lib, a, b, c, d);
    var root := GetUniquePositiveRoot(roots, Tolerance);
    match root
    case Ok(speedMps) => speed := Ok(speedMps * 3.6);
    case Err(e) => speed := Err(e);
  }

  /** A returned speed is positive, is 3.6 times a root the cubic solver found,
      and every positive root found lies within `Tolerance` above that root. */
  lemma SpeedFromPowerPositive(lib: Libm, cp: CyclistParams, density: real, gradientPercent: real, headwindKph: real, powerW: real, speedKph: real)
    requires Ideal(lib)
    requires 1.0 + cp.drivetrainPenalty != 0.0
    requires SpeedFromPower(lib, cp, density, gradientPercent, headwindKph, powerW) == Ok(speedKph)
    ensures var q := SpeedCubic(cp, density, gradientPercent, headwindKph, powerW);
      var roots := CubicRoots(lib, q.a, q.b, q.c, q.d);
      && speedKph > 0.0
      && speedKph / 3.6 in roots
      && forall x :: x in roots && x > 0.0 ==> speedKph / 3.6 <= x <= speedKph / 3.6 + Tolerance
  {
    var q := SpeedCubic(cp, density, gradientPercent, headwindKph, powerW);
    var roots := CubicRoots(lib, q.a, q.b, q.c, q.d);
    var v := speedKph / 3.6;
    assert UniquePositiveRoot(roots, Tolerance) == Ok(v);
    UniquePositiveRootValue(roots, Tolerance, v);
  }

  /** Without aerodynamic drag (CdA = 0) the speed cubic degenerates to a linear
      equation, and at a returned speed the unclamped power is exactly `powerW`;
      the forward model reports `powerW` back whenever it is not negative (a
      negative `powerW` is clamped to 0 there). */
  lemma {:induction false} SpeedFromPowerWithoutDragIsExact(lib: Libm, cp: CyclistParams, density: real, gradientPercent: real, headwindKph: real, powerW: real, speedKph: real)
    requires Ideal(lib)
    requires cp.cda == 0.0
    requires 1.0 + cp.drivetrainPenalty != 0.0
    requires SpeedFromPower(lib, cp, density, gradientPercent, headwindKph, powerW) == Ok(speedKph)
    ensures RawPower(cp, density, gradientPercent, headwindKph, KphToMps(speedKph)) == powerW
    ensures powerW >= 0.0 ==> Power(cp, density, gradientPercent, headwindKph, speedKph) == powerW
  {
    var q := SpeedCubic(cp, density, gradientPercent, headwindKph, powerW);
    DragFreeSpeedCubic(cp, density, gradientPercent, headwindKph, powerW);
    var v := speedKph / 3.6;
    SpeedFromPowerPositive(lib, cp, density, gradientPercent, headwindKph, powerW, speedKph);
    LinearBranch(lib, q.a, q.b, q.c, q.d);
    LinearCubicValue(q.a, q.b, q.c, q.d, v);
    SpeedCubicRootIffPower(cp, density, gradientPercent, headwindKph, powerW, v);
  }

  /** Without aerodynamic drag the speed cubic has no cubic or square term. */
  lemma DragFreeSpeedCubic(cp: CyclistParams, density: real, gradientPercent: real, headwindKph: real, powerW: real)
    requires cp.cda == 0.0
    requires 1.0 + cp.drivetrainPenalty != 0.0
    ensures var q := SpeedCubic(cp, density, gradientPercent, headwindKph, powerW);
      q.a == 0.0 && q.b == 0.0
  {
    var k := AeroFactor(cp, density);
    ProductZero(0.50 * density, cp.cda);
    assert k == 0.0;
    ProductZero(2.0 * k, KphToMps(headwindKph));
  }

  /** A cubic with no cubic or square term takes the value c·x + d. */
  lemma LinearCubicValue(a: real, b: real, c: real, d: real, x: real)
    requires a == 0.0 && b == 0.0
    ensures CubicValue(a, b, c, d, x) == c * x + d
  {
    ProductZero(a, x);
    ProductZero(b, x);
    assert a * x * x * x == 0.0 * x * x;
  }

  /** When the depressed speed cubic has a zero discriminant, the corrected
      repeated-root branch returns a speed at which the unclamped power is
      exactly `powerW`; the forward model reports it back when `powerW >= 0`. */
  lemma {:induction false} SpeedFromPowerRepeatedRootIsExact(lib: Libm, cp: CyclistParams, density: real, gradientPercent: real, headwindKph: real, powerW: real, speedKph: real)
    requires Ideal(lib)
    requires 1.0 + cp.drivetrainPenalty != 0.0
    requires var q := SpeedCubic(cp, density, gradientPercent, headwindKph, powerW);
      && Abs(q.a) >= Eps
      && CubicDiscriminant(DepressedP(q.b / q.a, q.c / q.a), DepressedQ(q.b / q.a, q.c / q.a, q.d / q.a)) == 0.0
    requires SpeedFromPower(lib, cp, density, gradientPercent, headwindKph, powerW) == Ok(speedKph)
    ensures RawPower(cp, density, gradientPercent, headwindKph, KphToMps(speedKph)) == powerW
    ensures powerW >= 0.0 ==> Power(cp, density, gradientPercent, headwindKph, speedKph) == powerW
  {
    var q := SpeedCubic(cp, density, gradientPercent, headwindKph, powerW);
    var v := speedKph / 3.6;
    SpeedFromPowerPositive(lib, cp, density, gradientPercent, headwindKph, powerW, speedKph);
    RepeatedRootsSolveCubic(lib, q.a, q.b, q.c, q.d);
    assert CubicValue(q.a, q.b, q.c, q.d, v) == 0.0;
    SpeedCubicRootIffPower(cp, density, gradientPercent, headwindKph, powerW, v);
  }
}
