/**
 * Selection of the one physically meaningful root among the real roots of the
 * speed cubic: GetUniquePositiveRoot.
 */
module RootSelection {
  import opened Results
  import opened Transcendental

  /** Default `tolerance` of GetUniquePositiveRoot (`1e-6f`). */
  const Tolerance: real := 0.000001

  /** The two `std::runtime_error`s GetUniquePositiveRoot throws. */
  datatype RootError = NoPositiveRoot | MultipleRoots

  // ---------------------------------------------------------------------------
  // Sorting (`std::sort` on the positive roots)
  // ---------------------------------------------------------------------------

  predicate Sorted(s: seq<real>)
  {
    forall i, j :: 0 <= i < j < |s| ==> s[i] <= s[j]
  }

  function Insert(x: real, s: seq<real>): (r: seq<real>)
    ensures multiset(r) == multiset(s) + multiset{x}
  {
    if s == [] || x <= s[0] then [x] + s
    else
      assert s == [s[0]] + s[1..];
      [s[0]] + Insert(x, s[1..])
  }

  /** Inserting a value no smaller than a lower bound of `s` keeps the bound. */
  lemma InsertLowerBound(x: real, s: seq<real>, bound: real)
    requires bound <= x
    requires forall k :: 0 <= k < |s| ==> bound <= s[k]
    ensures forall k :: 0 <= k < |Insert(x, s)| ==> bound <= Insert(x, s)[k]
  {
    var r := Insert(x, s);
    forall k | 0 <= k < |r| ensures bound <= r[k] {
      assert r[k] in multiset(r);
      if r[k] != x {
        assert r[k] in multiset(s);
      }
    }
  }

  lemma {:induction false} InsertSorted(x: real, s: seq<real>)
    requires Sorted(s)
    ensures Sorted(Insert(x, s))
  {
    if s != [] && x > s[0] {
      var tail := s[1..];
      InsertSorted(x, tail);
      assert forall k :: 0 <= k < |tail| ==> s[0] <= tail[k] by {
        forall k | 0 <= k < |tail| ensures s[0] <= tail[k] {
          assert tail[k] == s[k + 1];
        }
      }
      InsertLowerBound(x, tail, s[0]);
      assert Insert(x, s) == [s[0]] + Insert(x, tail);
    }
  }

  /** An ascending permutation of `s`; since such a permutation is unique
      (SortedPermutationUnique), any sorting routine yields this sequence. */
  function SortAscending(s: seq<real>): (t: seq<real>)
    ensures Sorted(t)
    ensures multiset(t) == multiset(s)
  {
    if s == [] then []
    else
      assert s == [s[0]] + s[1..];
      InsertSorted(s[0], SortAscending(s[1..]));
      Insert(s[0], SortAscending(s[1..]))
  }

  lemma {:induction false} SortedPermutationUnique(t1: seq<real>, t2: seq<real>)
    requires Sorted(t1) && Sorted(t2)
    requires multiset(t1) == multiset(t2)
    ensures t1 == t2
    decreases |t1|
  {
    assert |t1| == |multiset(t1)| == |multiset(t2)| == |t2|;
    if t1 != [] {
      assert t1[0] in multiset(t2);
      assert t2[0] in multiset(t1);
      assert t1[0] == t2[0];
      assert t1 == [t1[0]] + t1[1..];
      assert t2 == [t2[0]] + t2[1..];
      assert multiset(t1[1..]) == multiset(t1) - multiset{t1[0]};
      assert multiset(t2[1..]) == multiset(t2) - multiset{t2[0]};
      SortedPermutationUnique(t1[1..], t2[1..]);
    }
  }

  // ---------------------------------------------------------------------------
  // GetUniquePositiveRoot
  // ---------------------------------------------------------------------------

  /** The strictly positive roots, in input order (the `positiveRoots` vector). */
  function Positives(roots: seq<real>): (pos: seq<real>)
    ensures |pos| <= |roots|
  {
    if roots == [] then []
    else
      var init, last := roots[..|roots| - 1], roots[|roots| - 1];
      assert roots == init + [last];
      Positives(init) + (if last > 0.0 then [last] else [])
  }

  /** One more input root extends the positive roots by that root when it is positive. */
  lemma PositivesSnoc(roots: seq<real>, x: real)
    ensures Positives(roots + [x]) == Positives(roots) + (if x > 0.0 then [x] else [])
  {
    assert (roots + [x])[..|roots|] == roots;
  }

  /** How many times `x` occurs among the positive roots depends only on how
      many times it occurs in the input, not on where. */
  lemma {:induction false} PositivesCount(roots: seq<real>, x: real)
    ensures multiset(Positives(roots))[x] == if x > 0.0 then multiset(roots)[x] else 0
  {
    if roots != [] {
      var init, last := roots[..|roots| - 1], roots[|roots| - 1];
      assert roots == init + [last];
      PositivesCount(init, x);
    }
  }

  /** The positive roots after `std::sort`: exactly the positive input roots
      (with their multiplicities), smallest first. */
  function SortedPositives(roots: seq<real>): (sorted: seq<real>)
    ensures Sorted(sorted)
    ensures multiset(sorted) == multiset(Positives(roots))
  {
    SortAscending(Positives(roots))
  }

  /** The sorted positive roots are exactly the strictly positive input roots. */
  lemma SortedPositivesMembers(roots: seq<real>)
    ensures forall x :: x in SortedPositives(roots) <==> x in roots && x > 0.0
  {
    var sorted := SortedPositives(roots);
    forall x ensures x in sorted <==> x in roots && x > 0.0 {
      PositivesCount(roots, x);
      assert x in sorted <==> x in multiset(sorted);
      assert x in roots <==> x in multiset(roots);
    }
  }

  /**
   * The decision GetUniquePositiveRoot takes on the sorted positive roots: none
   * is an error; one after the first farther than `tolerance` from the first is
   * an error; otherwise the first is the answer.
   */
  function SelectRoot(sorted: seq<real>, tolerance: real): Result<real, RootError>
  {
    if sorted == [] then Err(NoPositiveRoot)
    else if exists j :: 1 <= j < |sorted| && Abs(sorted[j] - sorted[0]) > tolerance then Err(MultipleRoots)
    else Ok(sorted[0])
  }

  /** What GetUniquePositiveRoot returns or throws for `roots`. */
  function UniquePositiveRoot(roots: seq<real>, tolerance: real): Result<real, RootError>
  {
    SelectRoot(SortedPositives(roots), tolerance)
  }

  /** The filtering loop of GetUniquePositiveRoot: keeps the strictly positive
      roots in input order. */
  method CollectPositives(roots: seq<real>) returns (positiveRoots: seq<real>)
    ensures positiveRoots == Positives(roots)
  {
    positiveRoots := [];
    for i := 0 to |roots|
      invariant positiveRoots == Positives(roots[..i])
    {
      PositivesSnoc(roots[..i], roots[i]);
      assert roots[..i + 1] == roots[..i] + [roots[i]];
      if roots[i] > 0.0 {
        positiveRoots := positiveRoots + [roots[i]];
      }
    }
    assert roots[..|roots|] == roots;
  }

  method GetUniquePositiveRoot(roots: seq<real>, tolerance: real) returns (r: Result<real, RootError>)
    ensures r == UniquePositiveRoot(roots, tolerance)
  {
    var positiveRoots := CollectPositives(roots);
    ghost var sorted := SortedPositives(roots);
    if positiveRoots == [] {
      assert sorted == [];
      return Err(NoPositiveRoot);
    }

    positiveRoots := SortAscending(positiveRoots);
    assert positiveRoots == sorted;

    for i := 1 to |positiveRoots|
      invariant WithinTolerance(positiveRoots, i, tolerance)
    {
      if Abs(positiveRoots[i] - positiveRoots[0]) > tolerance {
        SelectRootFar(positiveRoots, i, tolerance);
        return Err(MultipleRoots);
      }
    }
    SelectRootNear(positiveRoots, tolerance);
    return Ok(positiveRoots[0]);
  }

  /** Every element before index `i` after the first lies within `tolerance` of the first. */
  predicate WithinTolerance(sorted: seq<real>, i: int, tolerance: real)
    requires 0 < |sorted| && i <= |sorted|
  {
    forall j :: 1 <= j < i ==> Abs(sorted[j] - sorted[0]) <= tolerance
  }

  lemma SelectRootFar(sorted: seq<real>, i: int, tolerance: real)
    requires 1 <= i < |sorted| && Abs(sorted[i] - sorted[0]) > tolerance
    ensures SelectRoot(sorted, tolerance) == Err(MultipleRoots)
  {
  }

  lemma SelectRootNear(sorted: seq<real>, tolerance: real)
    requires 0 < |sorted| && WithinTolerance(sorted, |sorted|, tolerance)
    ensures SelectRoot(sorted, tolerance) == Ok(sorted[0])
  {
  }

  /** It throws "No positive real roots found" exactly when no root is strictly positive. */
  lemma NoPositiveRootIff(roots: seq<real>, tolerance: real)
    ensures UniquePositiveRoot(roots, tolerance) == Err(NoPositiveRoot)
        <==> forall x :: x in roots ==> x <= 0.0
  {
    var sorted := SortedPositives(roots);
    SortedPositivesMembers(roots);
    if sorted != [] {
      assert sorted[0] in sorted;
    } else {
      forall x | x in roots ensures x <= 0.0 {
        assert x !in sorted;
      }
    }
  }

  /** Two positive roots lie more than `tolerance` apart. */
  predicate SpreadExceeds(roots: seq<real>, tolerance: real)
  {
    exists x, y :: x in roots && y in roots && x > 0.0 && y > 0.0 && y - x > tolerance
  }

  /** With a non-negative tolerance it throws "Multiple distinct positive real roots
      found" exactly when two positive roots lie more than `tolerance` apart. */
  lemma MultipleRootsIff(roots: seq<real>, tolerance: real)
    requires tolerance >= 0.0
    ensures UniquePositiveRoot(roots, tolerance) == Err(MultipleRoots) <==> SpreadExceeds(roots, tolerance)
  {
    if UniquePositiveRoot(roots, tolerance) == Err(MultipleRoots) {
      MultipleRootsHasSpread(roots, tolerance);
    }
    if SpreadExceeds(roots, tolerance) {
      SpreadIsMultipleRoots(roots, tolerance);
    }
  }

  lemma MultipleRootsHasSpread(roots: seq<real>, tolerance: real)
    requires UniquePositiveRoot(roots, tolerance) == Err(MultipleRoots)
    ensures SpreadExceeds(roots, tolerance)
  {
    var sorted := SortedPositives(roots);
    SortedPositivesMembers(roots);
    var j :| 1 <= j < |sorted| && Abs(sorted[j] - sorted[0]) > tolerance;
    var x, y := sorted[0], sorted[j];
    assert x in sorted && y in sorted;
    assert x <= y;
    assert x in roots && y in roots && x > 0.0 && y > 0.0 && y - x > tolerance;
  }

  lemma SpreadIsMultipleRoots(roots: seq<real>, tolerance: real)
    requires tolerance >= 0.0
    requires SpreadExceeds(roots, tolerance)
    ensures UniquePositiveRoot(roots, tolerance) == Err(MultipleRoots)
  {
    var sorted := SortedPositives(roots);
    SortedPositivesMembers(roots);
    var x, y :| x in roots && y in roots && x > 0.0 && y > 0.0 && y - x > tolerance;
    assert x in sorted && y in sorted;
    var jx :| 0 <= jx < |sorted| && sorted[jx] == x;
    var jy :| 0 <= jy < |sorted| && sorted[jy] == y;
    assert sorted[0] <= sorted[jx];
    assert jy != 0;
    assert 1 <= jy < |sorted| && Abs(sorted[jy] - sorted[0]) > tolerance;
  }

  /** On success the answer is the smallest positive root, and every other
      positive root lies within `tolerance` above it. */
  lemma UniquePositiveRootValue(roots: seq<real>, tolerance: real, v: real)
    requires UniquePositiveRoot(roots, tolerance) == Ok(v)
    ensures v in roots && v > 0.0
    ensures forall x :: x in roots && x > 0.0 ==> v <= x && (x == v || x - v <= tolerance)
  {
    var sorted := SortedPositives(roots);
    SortedPositivesMembers(roots);
    assert v == sorted[0] && v in sorted;
    forall x | x in roots && x > 0.0
      ensures v <= x && (x == v || x - v <= tolerance)
    {
      assert x in sorted;
      var j :| 0 <= j < |sorted| && sorted[j] == x;
      if j > 0 {
        assert !(Abs(sorted[j] - sorted[0]) > tolerance);
      }
    }
  }

  /** Reordering the input reorders the positive roots and nothing more. */
  lemma PositivesPermutation(roots1: seq<real>, roots2: seq<real>)
    requires multiset(roots1) == multiset(roots2)
    ensures multiset(Positives(roots1)) == multiset(Positives(roots2))
  {
    forall x ensures multiset(Positives(roots1))[x] == multiset(Positives(roots2))[x] {
      PositivesCount(roots1, x);
      PositivesCount(roots2, x);
    }
  }

  /** Because of the sort, the outcome does not depend on the order of the roots. */
  lemma UniquePositiveRootOrderIndependent(roots1: seq<real>, roots2: seq<real>, tolerance: real)
    requires multiset(roots1) == multiset(roots2)
    ensures UniquePositiveRoot(roots1, tolerance) == UniquePositiveRoot(roots2, tolerance)
  {
    PositivesPermutation(roots1, roots2);
    SortedPermutationUnique(SortedPositives(roots1), SortedPositives(roots2));
  }
}
