/**
 * The closed-form cubic solver the inverse power model uses: SolveCubic.
 */
module CubicSolver {
  import opened Results
  import opened Transcendental

  /** `eps` of SolveCubic (`1e-6f`). */
  const Eps: real := 0.000001

  /** The value of b·x² + c·x + d. */
  function QuadraticValue(b: real, c: real, d: real, x: real): real
  {
    b * x * x + c * x + d
  }

  /** The value of a·x³ + b·x² + c·x + d. */
  function CubicValue(a: real, b: real, c: real, d: real, x: real): real
  {
    a * x * x * x + b * x * x + c * x + d
  }

  /** p of the depressed cubic t³ + p·t + q, for the monic x³ + b·x² + c·x + d. */
  function DepressedP(b: real, c: real): real { c - b * b / 3.0 }

  /** q of the depressed cubic t³ + p·t + q, for the monic x³ + b·x² + c·x + d. */
  function DepressedQ(b: real, c: real, d: real): real { d + (2.0 * b * b * b - 9.0 * b * c) / 27.0 }

  /** The discriminant D = q²/4 + p³/27 whose sign selects the branch. */
  function CubicDiscriminant(p: real, q: real): real { q * q / 4.0 + p * p * p / 27.0 }

  /** The root from Cardano's formula (one real root). */
  function CardanoRoot(lib: Libm, b: real, q: real, disc: real): real
  {
    lib.cbrt(-q / 2.0 + lib.sqrt(disc)) + lib.cbrt(-q / 2.0 - lib.sqrt(disc)) - b / 3.0
  }

  lemma NegativeCube(p: real)
    requires p * p * p < 0.0
    ensures p < 0.0 && -p * p * p / 27.0 > 0.0
  {
  }

  /** In the three-real-roots branch (D < -eps), p is negative. */
  lemma TrigBranchNegativeCube(p: real, q: real)
    requires CubicDiscriminant(p, q) < -Eps
    ensures p * p * p < 0.0
  {
    assert q * q >= 0.0;
  }

  /** The angle `phi` of the trigonometric (casus irreducibilis) formula. */
  function TrigAngle(lib: Libm, p: real, q: real): real
    requires Ideal(lib)
    requires p * p * p < 0.0
  {
    NegativeCube(p);
    SqrtOfPositive(lib, -p * p * p / 27.0);
    lib.acos(-q / 2.0 / lib.sqrt(-p * p * p / 27.0))
  }

  /** The radius `r` of the trigonometric formula. */
  function TrigRadius(lib: Libm, p: real): real
  {
    2.0 * lib.sqrt(-p / 3.0)
  }

  /** The k-th root of the trigonometric formula, for radius `r` and angle `phi`. */
  function TrigRoot(lib: Libm, b: real, r: real, phi: real, k: nat): real
  {
    r * lib.cos((phi + 2.0 * Pi * k as real) / 3.0) - b / 3.0
  }

  /** The first `n` roots of the trigonometric formula, in the order k = 0, 1, ... */
  function TrigRoots(lib: Libm, b: real, r: real, phi: real, n: nat): (roots: seq<real>)
    ensures |roots| == n
    ensures forall k :: 0 <= k < n ==> roots[k] == TrigRoot(lib, b, r, phi, k)
  {
    if n == 0 then [] else TrigRoots(lib, b, r, phi, n - 1) + [TrigRoot(lib, b, r, phi, n - 1)]
  }

  /**
   * The roots of the repeated-root branch (|D| <= eps), as corrected: for p != 0
   * the simple root 3q/p once and the double root -3q/(2p) twice; for p = 0 the
   * triple root 0; each shifted back by -b/3.
   */
  function RepeatedRoots(b: real, p: real, q: real): (roots: seq<real>)
    ensures |roots| == 3 && roots[1] == roots[2]
  {
    if p == 0.0 then [-b / 3.0, -b / 3.0, -b / 3.0]
    else
      var r := 3.0 * q / (2.0 * p);
      [2.0 * r - b / 3.0, -r - b / 3.0, -r - b / 3.0]
  }

  /**
   * The repeated-root branch as the source writes it: `r = 3q/(2p)`, then
   * `-r - b/3` once and `r/2 - b/3` twice. `None` stands for the division of
   * `3q` by `2p = 0`, which yields NaN roots in floating point.
   */
  function RepeatedRootsAsWritten(b: real, p: real, q: real): (roots: Option<seq<real>>)
    ensures roots.Some? <==> p != 0.0
    ensures roots.Some? ==> |roots.value| == 3 && roots.value[1] == roots.value[2]
  {
    if p == 0.0 then None
    else
      var r := 3.0 * q / (2.0 * p);
      Some([-r - b / 3.0, r / 2.0 - b / 3.0, r / 2.0 - b / 3.0])
  }

  /** The roots SolveCubic returns for the monic cubic x³ + b·x² + c·x + d (a != 0),
      with the repeated-root branch corrected (`RepeatedRoots`, not
      `RepeatedRootsAsWritten`). */
  function MonicRoots(lib: Libm, b: real, c: real, d: real): (roots: seq<real>)
    requires Ideal(lib)
  {
    var p := DepressedP(b, c);
    var q := DepressedQ(b, c, d);
    var disc := CubicDiscriminant(p, q);
    if disc > Eps then [CardanoRoot(lib, b, q, disc)]
    else if disc < -Eps then
      TrigBranchNegativeCube(p, q);
      var r, phi := TrigRadius(lib, p), TrigAngle(lib, p, q);
      TrigRoots(lib, b, r, phi, 3)
    else RepeatedRoots(b, p, q)
  }

  /** The roots SolveCubic returns when a is negligible: the linear and
      quadratic cases. */
  function LowDegreeRoots(lib: Libm, b: real, c: real, d: real): (roots: seq<real>)
    ensures |roots| <= 2
  {
    if Abs(b) < Eps then
      if Abs(c) < Eps then [] else [-d / c]
    else
      var disc := c * c - 4.0 * b * d;
      if disc > Eps then [(-c + lib.sqrt(disc)) / (2.0 * b), (-c - lib.sqrt(disc)) / (2.0 * b)]
      else if Abs(disc) < Eps then [-c / (2.0 * b)]
      else []
  }

  /** The roots SolveCubic returns for a·x³ + b·x² + c·x + d, with the
      repeated-root branch corrected. */
  function CubicRoots(lib: Libm, a: real, b: real, c: real, d: real): (roots: seq<real>)
    requires Ideal(lib)
    ensures |roots| <= 3
  {
    if Abs(a) < Eps then LowDegreeRoots(lib, b, c, d)
    else MonicRoots(lib, b / a, c / a, d / a)
  }

  method SolveCubic(lib: Libm, a: real, b: real, c: real, d: real) returns (roots: seq<real>)
    requires Ideal(lib)
    ensures roots == CubicRoots(lib, a, b, c, d)
  {
    roots := [];
    if Abs(a) < Eps {
      ghost var expected := LowDegreeRoots(lib, b, c, d);
      assert CubicRoots(lib, a, b, c, d) == expected;
      if Abs(b) < Eps {
        if Abs(c) < Eps {
          return;
        }
        roots := roots + [-d / c];
        assert roots == expected;
        return;
      }
      var disc := c * c - 4.0 * b * d;
      if disc > Eps {
        roots := roots + [(-c + lib.sqrt(disc)) / (2.0 * b)];
        roots := roots + [(-c - lib.sqrt(disc)) / (2.0 * b)];
      } else if Abs(disc) < Eps {
        roots := roots + [-c / (2.0 * b)];
      }
      assert roots == expected;
      return;
    }

    var nb, nc, nd := b / a, c / a, d / a;
    var p := DepressedP(nb, nc);
    var q := DepressedQ(nb, nc, nd);
    var disc := CubicDiscriminant(p, q);
    ghost var expected := MonicRoots(lib, nb, nc, nd);
    assert CubicRoots(lib, a, b, c, d) == expected;

    if disc > Eps {
      var u := lib.cbrt(-q / 2.0 + lib.sqrt(disc));
      var v := lib.cbrt(-q / 2.0 - lib.sqrt(disc));
      roots := roots + [u + v - nb / 3.0];
      assert roots == expected;
    } else if disc < -Eps {
      TrigBranchNegativeCube(p, q);
      var phi := TrigAngle(lib, p, q);
      var r := TrigRadius(lib, p);
      for k := 0 to 3
        invariant roots == TrigRoots(lib, nb, r, phi, k)
      {
        assert TrigRoots(lib, nb, r, phi, k + 1) == roots + [TrigRoot(lib, nb, r, phi, k)];
        var root := r * lib.cos((phi + 2.0 * Pi * k as real) / 3.0) - nb / 3.0;
        assert root == TrigRoot(lib, nb, r, phi, k);
        roots := roots + [root];
      }
      assert roots == expected;
    } else if p == 0.0 {
      roots := roots + [-nb / 3.0, -nb / 3.0, -nb / 3.0];
      assert roots == expected;
    } else {
      var r := 3.0 * q / (2.0 * p);
      roots := roots + [2.0 * r - nb / 3.0];
      roots := roots + [-r - nb / 3.0];
      roots := roots + [-r - nb / 3.0];
      assert roots == expected;
    }
  }

  // ---------------------------------------------------------------------------
  // Properties of the roots SolveCubic returns
  // ---------------------------------------------------------------------------

  /** Linear case: nothing when c is negligible too, otherwise exactly -d/c,
      which solves c·x + d = 0. */
  lemma LinearBranch(lib: Libm, a: real, b: real, c: real, d: real)
    requires Ideal(lib)
    requires Abs(a) < Eps && Abs(b) < Eps
    ensures Abs(c) < Eps ==> CubicRoots(lib, a, b, c, d) == []
    ensures Abs(c) >= Eps ==> CubicRoots(lib, a, b, c, d) == [-d / c] && c * (-d / c) + d == 0.0
  {
  }

  /** x = (s - c)/(2b) solves b·x² + c·x + d = 0 whenever s² = c² - 4bd. */
  lemma QuadraticFormula(b: real, c: real, d: real, s: real, x: real)
    requires b != 0.0
    requires s * s == c * c - 4.0 * b * d
    requires x == (s - c) / (2.0 * b)
    ensures QuadraticValue(b, c, d, x) == 0.0
  {
    var y := 2.0 * b * x;
    assert y == s - c;
    assert 4.0 * b * (b * x * x + c * x + d) == y * y + 2.0 * c * y + 4.0 * b * d;
    assert y * y + 2.0 * c * y + 4.0 * b * d == s * s - c * c + 4.0 * b * d;
  }

  lemma QuadraticTwoRootsShape(lib: Libm, a: real, b: real, c: real, d: real)
    requires Ideal(lib)
    requires Abs(a) < Eps && Abs(b) >= Eps
    requires c * c - 4.0 * b * d > Eps
    ensures var s := lib.sqrt(c * c - 4.0 * b * d);
      CubicRoots(lib, a, b, c, d) == [(s - c) / (2.0 * b), (-s - c) / (2.0 * b)]
  {
  }

  /** Two different numerators over the same non-zero denominator differ. */
  lemma DistinctQuotients(u: real, v: real, w: real)
    requires w != 0.0 && u != v
    ensures u / w != v / w
  {
  }

  /** Both signs of s = sqrt(disc) give a root of b·x² + c·x + d = 0, and the
      two roots differ because s > 0. */
  lemma SqrtRoots(lib: Libm, b: real, c: real, d: real)
    requires Ideal(lib)
    requires b != 0.0
    requires c * c - 4.0 * b * d > 0.0
    ensures var s := lib.sqrt(c * c - 4.0 * b * d);
      var x0, x1 := (s - c) / (2.0 * b), (-s - c) / (2.0 * b);
      && x0 != x1
      && QuadraticValue(b, c, d, x0) == 0.0
      && QuadraticValue(b, c, d, x1) == 0.0
  {
    var disc := c * c - 4.0 * b * d;
    var s := lib.sqrt(disc);
    SqrtOfPositive(lib, disc);
    QuadraticFormula(b, c, d, s, (s - c) / (2.0 * b));
    assert (-s) * (-s) == disc;
    QuadraticFormula(b, c, d, -s, (-s - c) / (2.0 * b));
    DistinctQuotients(s - c, -s - c, 2.0 * b);
  }

  /** Quadratic case with disc > eps: two distinct roots, each solving
      b·x² + c·x + d = 0. */
  lemma QuadraticTwoRoots(lib: Libm, a: real, b: real, c: real, d: real)
    requires Ideal(lib)
    requires Abs(a) < Eps && Abs(b) >= Eps
    requires c * c - 4.0 * b * d > Eps
    ensures var roots := CubicRoots(lib, a, b, c, d);
      && |roots| == 2 && roots[0] != roots[1]
      && QuadraticValue(b, c, d, roots[0]) == 0.0
      && QuadraticValue(b, c, d, roots[1]) == 0.0
  {
    QuadraticTwoRootsShape(lib, a, b, c, d);
    SqrtRoots(lib, b, c, d);
  }

  /** Quadratic case with |disc| < eps: the single root -c/(2b), which solves
      b·x² + c·x + d = 0 exactly when disc = 0. */
  lemma QuadraticOneRoot(lib: Libm, a: real, b: real, c: real, d: real)
    requires Ideal(lib)
    requires Abs(a) < Eps && Abs(b) >= Eps
    requires Abs(c * c - 4.0 * b * d) < Eps
    ensures CubicRoots(lib, a, b, c, d) == [-c / (2.0 * b)]
    ensures c * c - 4.0 * b * d == 0.0 ==> QuadraticValue(b, c, d, -c / (2.0 * b)) == 0.0
  {
    if c * c - 4.0 * b * d == 0.0 {
      QuadraticFormula(b, c, d, 0.0, -c / (2.0 * b));
    }
  }

  /** Quadratic case otherwise (disc < -eps, or disc exactly eps or -eps): no root. */
  lemma QuadraticNoRoot(lib: Libm, a: real, b: real, c: real, d: real)
    requires Ideal(lib)
    requires Abs(a) < Eps && Abs(b) >= Eps
    requires c * c - 4.0 * b * d <= Eps && Abs(c * c - 4.0 * b * d) >= Eps
    ensures CubicRoots(lib, a, b, c, d) == []
  {
  }

  /** General case: one root when D > eps, three otherwise; in the repeated-root
      branch (|D| <= eps) the second and third coincide. */
  lemma GeneralBranch(lib: Libm, a: real, b: real, c: real, d: real)
    requires Ideal(lib)
    requires Abs(a) >= Eps
    ensures var disc := CubicDiscriminant(DepressedP(b / a, c / a), DepressedQ(b / a, c / a, d / a));
      var roots := CubicRoots(lib, a, b, c, d);
      && (disc > Eps ==> |roots| == 1)
      && (disc <= Eps ==> |roots| == 3)
      && (-Eps <= disc <= Eps ==> roots[1] == roots[2])
  {
  }

  /** Shifting x = t - b/3 turns x³ + b·x² + c·x + d into t³ + p·t + q. */
  lemma DepressionIdentity(b: real, c: real, d: real, t: real)
    ensures CubicValue(1.0, b, c, d, t - b / 3.0) == t * t * t + DepressedP(b, c) * t + DepressedQ(b, c, d)
  {
  }

  /** Dividing by a != 0 does not change the roots. */
  lemma NormalizeCubic(a: real, b: real, c: real, d: real, x: real)
    requires a != 0.0
    ensures CubicValue(a, b, c, d, x) == a * CubicValue(1.0, b / a, c / a, d / a, x)
  {
  }

  /** With D = 0 and p != 0, for r = 3q/(2p) both 2r (= 3q/p) and -r solve
      t³ + p·t + q = 0. */
  lemma DoubleRootDepressed(p: real, q: real)
    requires p != 0.0
    requires CubicDiscriminant(p, q) == 0.0
    ensures var r := 3.0 * q / (2.0 * p);
      (2.0 * r) * (2.0 * r) * (2.0 * r) + p * (2.0 * r) + q == 0.0
      && (-r) * (-r) * (-r) + p * (-r) + q == 0.0
  {
    var r := 3.0 * q / (2.0 * p);
    var t1, t2 := 2.0 * r, -r;
    assert 4.0 * p * p * p == -27.0 * q * q;
    var p3 := p * p * p;
    assert p3 != 0.0 by {
      assert p * p > 0.0;
    }
    assert 2.0 * p * r == 3.0 * q;
    // p·t1 = 3q
    assert p * t1 == 3.0 * q;
    assert p3 * (t1 * t1 * t1 + p * t1 + q) == (p * t1) * (p * t1) * (p * t1) + p3 * (p * t1) + p3 * q;
    assert p3 * (t1 * t1 * t1 + p * t1 + q) == q * (27.0 * q * q + 4.0 * p3);
    // 2p·t2 = -3q
    assert 2.0 * p * t2 == -3.0 * q;
    assert 8.0 * p3 * (t2 * t2 * t2 + p * t2 + q)
      == (2.0 * p * t2) * (2.0 * p * t2) * (2.0 * p * t2) + 4.0 * p3 * (2.0 * p * t2) + 8.0 * p3 * q;
    assert 8.0 * p3 * (t2 * t2 * t2 + p * t2 + q) == -q * (27.0 * q * q + 4.0 * p3);
  }

  /** A product of reals is zero exactly when a factor is. */
  lemma ProductZero(u: real, v: real)
    ensures u * v == 0.0 <==> u == 0.0 || v == 0.0
  {
  }

  /** With D = 0 and p = 0, also q = 0, so t = 0 is the triple root. */
  lemma TripleRootDepressed(p: real, q: real)
    requires p == 0.0
    requires CubicDiscriminant(p, q) == 0.0
    ensures q == 0.0
  {
    ProductZero(q, q);
  }

  /** The corrected repeated-root branch: when D = 0 every root returned solves
      the cubic exactly. */
  lemma RepeatedRootsSolveCubic(lib: Libm, a: real, b: real, c: real, d: real)
    requires Ideal(lib)
    requires Abs(a) >= Eps
    requires CubicDiscriminant(DepressedP(b / a, c / a), DepressedQ(b / a, c / a, d / a)) == 0.0
    ensures forall x :: x in CubicRoots(lib, a, b, c, d) ==> CubicValue(a, b, c, d, x) == 0.0
  {
    var nb, nc, nd := b / a, c / a, d / a;
    var p, q := DepressedP(nb, nc), DepressedQ(nb, nc, nd);
    var roots := CubicRoots(lib, a, b, c, d);
    assert roots == RepeatedRoots(nb, p, q);
    forall x | x in roots ensures CubicValue(a, b, c, d, x) == 0.0 {
      RepeatedRootDepressed(nb, p, q, x);
      ShiftedRootSolves(a, b, c, d, x + nb / 3.0);
      assert x + nb / 3.0 - nb / 3.0 == x;
    }
  }

  /** Each root of the corrected branch, shifted by b/3, solves t³ + pt + q = 0. */
  lemma RepeatedRootDepressed(b: real, p: real, q: real, x: real)
    requires CubicDiscriminant(p, q) == 0.0
    requires x in RepeatedRoots(b, p, q)
    ensures var t := x + b / 3.0; t * t * t + p * t + q == 0.0
  {
    var t := x + b / 3.0;
    if p == 0.0 {
      TripleRootDepressed(p, q);
      assert t == 0.0;
    } else {
      DoubleRootDepressed(p, q);
      var r := 3.0 * q / (2.0 * p);
      assert t == 2.0 * r || t == -r;
    }
  }

  /** A root t of the depressed cubic gives the root t - b/(3a) of the original. */
  lemma ShiftedRootSolves(a: real, b: real, c: real, d: real, t: real)
    requires a != 0.0
    requires t * t * t + DepressedP(b / a, c / a) * t + DepressedQ(b / a, c / a, d / a) == 0.0
    ensures CubicValue(a, b, c, d, t - b / a / 3.0) == 0.0
  {
    DepressionIdentity(b / a, c / a, d / a, t);
    NormalizeCubic(a, b, c, d, t - b / a / 3.0);
  }

  /**
   * x³ - 3x + 2 = (x - 1)²(x + 2) reaches the repeated-root branch (D = 0).
   * As written the branch returns 1, -0.5, -0.5 and -0.5 is not a root; the
   * corrected branch returns -2, 1, 1.
   */
  lemma RepeatedRootsAsWrittenMissesSimpleRoot()
    ensures DepressedP(0.0, -3.0) == -3.0 && DepressedQ(0.0, -3.0, 2.0) == 2.0
    ensures CubicDiscriminant(-3.0, 2.0) == 0.0
    ensures RepeatedRootsAsWritten(0.0, -3.0, 2.0) == Some([1.0, -0.5, -0.5])
    ensures CubicValue(1.0, 0.0, -3.0, 2.0, -0.5) == 3.375
    ensures RepeatedRoots(0.0, -3.0, 2.0) == [-2.0, 1.0, 1.0]
    ensures CubicValue(1.0, 0.0, -3.0, 2.0, -2.0) == 0.0 && CubicValue(1.0, 0.0, -3.0, 2.0, 1.0) == 0.0
  {
    var r := 3.0 * 2.0 / (2.0 * -3.0);
    assert r == -1.0;
    assert RepeatedRootsAsWritten(0.0, -3.0, 2.0) == Some([-r - 0.0 / 3.0, r / 2.0 - 0.0 / 3.0, r / 2.0 - 0.0 / 3.0]);
    assert RepeatedRoots(0.0, -3.0, 2.0) == [2.0 * r - 0.0 / 3.0, -r - 0.0 / 3.0, -r - 0.0 / 3.0];
  }

  /**
   * x³ - 3x² + 3x - 1 = (x - 1)³ reaches the repeated-root branch with p = 0,
   * where the source computes 3q/(2p) = 0/0; the corrected branch returns the
   * triple root 1.
   */
  lemma RepeatedRootsAsWrittenDividesByZero()
    ensures DepressedP(-3.0, 3.0) == 0.0 && DepressedQ(-3.0, 3.0, -1.0) == 0.0
    ensures CubicDiscriminant(0.0, 0.0) == 0.0
    ensures RepeatedRootsAsWritten(-3.0, 0.0, 0.0) == None
    ensures RepeatedRoots(-3.0, 0.0, 0.0) == [1.0, 1.0, 1.0]
    ensures CubicValue(1.0, -3.0, 3.0, -1.0, 1.0) == 0.0
  {
  }
}
