/**
 * The C math library functions the physics relies on (`std::exp`, `std::sqrt`,
 * `std::cbrt`, `std::acos`, `std::cos`). Their numerical accuracy is outside this
 * model, so they are passed around as an uninterpreted record of functions.
 */
module Transcendental {

  /** `M_PI` from <cmath>. */
  const Pi: real := 3.14159265358979323846

  /** `std::abs`. */
  function Abs(x: real): real { if x < 0.0 then -x else x }

  datatype Libm = Libm(
    exp: real -> real,
    sqrt: real -> real,
    cbrt: real -> real,
    acos: real -> real,
    cos: real -> real)

  /**
   * The two facts about the library the proofs use: `exp` is positive, and
   * `sqrt` is the non-negative square root on the non-negative reals.
   */
  ghost predicate Ideal(lib: Libm)
  {
    && (forall x :: lib.exp(x) > 0.0)
    && (forall x :: x >= 0.0 ==> lib.sqrt(x) >= 0.0 && lib.sqrt(x) * lib.sqrt(x) == x)
  }

  lemma SqrtOfPositive(lib: Libm, x: real)
    requires Ideal(lib)
    requires x > 0.0
    ensures lib.sqrt(x) > 0.0
  {
    assert lib.sqrt(x) >= 0.0 && lib.sqrt(x) * lib.sqrt(x) == x;
  }
}
