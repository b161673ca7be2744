/** The azimuthal root solve of the Marschner fibre model: sign, ClampUnitAbs,
    binsearch and h_. For a scattering mode p and an azimuth phi it finds the
    offsets h at which the outgoing azimuth of a ray entering the fibre at offset h
    equals phi. */
module RootSolver {
  import opened Numerics

  /** sign: -1, 0 or 1 according to the sign of x. */
  function Sign(x: real): (s: int)
    ensures s == -1 || s == 0 || s == 1
    ensures s == 1 <==> x > 0.0
    ensures s == -1 <==> x < 0.0
  {
    if x > 0.0 then 1 else if x < 0.0 then -1 else 0
  }

  /** ClampUnitAbs: glm::clamp(x, -1, 1), the guard in front of every asin. */
  function ClampUnitAbs(x: real): (r: real)
    ensures -1.0 <= r <= 1.0
    ensures -1.0 <= x <= 1.0 ==> r == x
    ensures x < -1.0 ==> r == -1.0
    ensures x > 1.0 ==> r == 1.0
  {
    Min(Max(x, -1.0), 1.0)
  }

  /** The objective `phiph` of binsearch: the azimuth a ray entering at offset x
      leaves at in mode p, minus the target phi. */
  function Phiph(m: Libm, p: int, phi: real, etad: real, x: real): real {
    2.0 * (p as real) * m.asin(ClampUnitAbs(m.div(x, etad))) - 2.0 * m.asin(ClampUnitAbs(x)) - phi
  }

  /** The lambda `phiph` with its captured parameters. */
  datatype Objective = Objective(m: Libm, p: int, phi: real, etad: real) {
    function At(x: real): real {
      Phiph(m, p, phi, etad, x)
    }
  }

  // ---------------------------------------------------------------------------
  // Bisection, for an objective f of any mode, azimuth and index

  /** The loop of binsearch stops once the interval is this narrow ... */
  const Tolerance: real := 0.0000001
  /** ... or after this many halvings. */
  const MaxSteps: nat := 28

  /** The pair (retmin, retmax). The endpoints need not be ordered. */
  datatype Interval = Interval(lo: real, hi: real) {
    function Mid(): real {
      (hi + lo) / 2.0
    }

    function Width(): real {
      Abs(hi - lo)
    }

    /** x lies between the two endpoints. */
    predicate Contains(x: real) {
      Min(lo, hi) <= x <= Max(lo, hi)
    }

    /** Both endpoints of this interval lie in `outer`. */
    predicate Inside(outer: Interval) {
      outer.Contains(lo) && outer.Contains(hi)
    }
  }

  /** One iteration of the loop of binsearch: the midpoint replaces the endpoint on
      whose side the root lies, judged by the monotonicity flag. */
  function Halve(f: Objective, decreasing: bool, iv: Interval): Interval {
    var mid := iv.Mid();
    if decreasing then
      (if f.At(mid) < 0.0 then Interval(iv.lo, mid) else Interval(mid, iv.hi))
    else
      (if f.At(mid) > 0.0 then Interval(iv.lo, mid) else Interval(mid, iv.hi))
  }

  /** A halving keeps one endpoint and moves the other to the midpoint, so the new
      interval lies inside the old one and is half as wide. */
  lemma HalveShrinks(f: Objective, decreasing: bool, iv: Interval)
    ensures var r := Halve(f, decreasing, iv);
      && ((r.lo == iv.lo && r.hi == iv.Mid()) || (r.lo == iv.Mid() && r.hi == iv.hi))
      && r.Inside(iv)
      && r.Width() * 2.0 == iv.Width()
  {
  }

  /** The loop guard of binsearch, with i the iteration counter. */
  predicate Continues(iv: Interval, i: nat) {
    iv.Width() > Tolerance && i < MaxSteps
  }

  /** The interval binsearch ends with, starting from iv at iteration i. */
  function Bisect(f: Objective, decreasing: bool, iv: Interval, i: nat): Interval
    requires i <= MaxSteps
    decreases MaxSteps - i
  {
    if Continues(iv, i) then Bisect(f, decreasing, Halve(f, decreasing, iv), i + 1) else iv
  }

  /** How many iterations binsearch runs, starting from iv at iteration i. */
  function Steps(f: Objective, decreasing: bool, iv: Interval, i: nat): (k: nat)
    requires i <= MaxSteps
    ensures i + k <= MaxSteps
    decreases MaxSteps - i
  {
    if Continues(iv, i) then 1 + Steps(f, decreasing, Halve(f, decreasing, iv), i + 1) else 0
  }

  lemma InsideTransitive(a: Interval, b: Interval, c: Interval)
    requires a.Inside(b) && b.Inside(c)
    ensures a.Inside(c)
  {
  }

  /** The intervals are nested: the final interval lies inside the first. */
  lemma {:induction false} BisectInside(f: Objective, decreasing: bool, iv: Interval, i: nat)
    requires i <= MaxSteps
    ensures Bisect(f, decreasing, iv, i).Inside(iv)
    decreases MaxSteps - i
  {
    if Continues(iv, i) {
      var next := Halve(f, decreasing, iv);
      HalveShrinks(f, decreasing, iv);
      BisectInside(f, decreasing, next, i + 1);
      InsideTransitive(Bisect(f, decreasing, next, i + 1), next, iv);
    }
  }

  /** w halved k times. */
  function Halved(w: real, k: nat): real {
    if k == 0 then w else Halved(w, k - 1) / 2.0
  }

  lemma {:induction false} HalvedHalf(w: real, k: nat)
    ensures Halved(w / 2.0, k) == Halved(w, k) / 2.0
  {
    if k > 0 {
      HalvedHalf(w, k - 1);
    }
  }

  lemma {:induction false} HalvedMonotone(w: real, w': real, k: nat)
    requires w <= w'
    ensures Halved(w, k) <= Halved(w', k)
  {
    if k > 0 {
      HalvedMonotone(w, w', k - 1);
    }
  }

  /** Each iteration halves the width: after k iterations it is the first width
      halved k times. */
  lemma {:induction false} BisectHalves(f: Objective, decreasing: bool, iv: Interval, i: nat)
    requires i <= MaxSteps
    ensures Bisect(f, decreasing, iv, i).Width() == Halved(iv.Width(), Steps(f, decreasing, iv, i))
    decreases MaxSteps - i
  {
    if Continues(iv, i) {
      var next := Halve(f, decreasing, iv);
      HalveShrinks(f, decreasing, iv);
      BisectHalves(f, decreasing, next, i + 1);
      var k := Steps(f, decreasing, next, i + 1);
      assert next.Width() == iv.Width() / 2.0;
      HalvedHalf(iv.Width(), k);
    }
  }

  /** The loop stops before the iteration cap only once the width is within the
      tolerance. */
  lemma {:induction false} BisectStopsEarly(f: Objective, decreasing: bool, iv: Interval, i: nat)
    requires i <= MaxSteps
    ensures i + Steps(f, decreasing, iv, i) < MaxSteps ==> Bisect(f, decreasing, iv, i).Width() <= Tolerance
    decreases MaxSteps - i
  {
    if Continues(iv, i) {
      BisectStopsEarly(f, decreasing, Halve(f, decreasing, iv), i + 1);
    }
  }

  /** Two halved 28 times is below the tolerance. */
  lemma {:induction false} TwoHalvedAtCap()
    ensures Halved(2.0, MaxSteps) <= Tolerance
  {
    assert Halved(2.0, 4) == 0.125;
    assert Halved(2.0, 8) == 0.0078125 by { assert Halved(2.0, 6) == 0.03125; }
    assert Halved(2.0, 12) == 0.00048828125 by { assert Halved(2.0, 10) == 0.001953125; }
    assert Halved(2.0, 16) == 0.000030517578125 by { assert Halved(2.0, 14) == 0.0001220703125; }
    assert Halved(2.0, 20) == 0.0000019073486328125 by { assert Halved(2.0, 18) == 0.00000762939453125; }
    assert Halved(2.0, 24) == 0.00000011920928955078125 by { assert Halved(2.0, 22) == 0.000000476837158203125; }
    assert Halved(2.0, 26) == 0.0000000298023223876953125;
  }

  /** On an interval no wider than [-1, 1], the iteration cap is never what stops
      the search: the final interval is always within the tolerance. */
  lemma BisectConverges(f: Objective, decreasing: bool, iv: Interval)
    requires iv.Width() <= 2.0
    ensures Bisect(f, decreasing, iv, 0).Width() <= Tolerance
  {
    BisectHalves(f, decreasing, iv, 0);
    BisectStopsEarly(f, decreasing, iv, 0);
    var k := Steps(f, decreasing, iv, 0);
    if k == MaxSteps {
      TwoHalvedAtCap();
      HalvedMonotone(iv.Width(), 2.0, MaxSteps);
    }
  }

  /** The endpoint values straddle zero the way `decreasing` expects: f is at
      least 0 at lo and below 0 at hi when decreasing, the mirror otherwise. */
  predicate Brackets(f: Objective, decreasing: bool, iv: Interval) {
    if decreasing then f.At(iv.lo) >= 0.0 && f.At(iv.hi) < 0.0
    else f.At(iv.lo) <= 0.0 && f.At(iv.hi) > 0.0
  }

  /** binsearch never loses the sign change it started with. */
  lemma {:induction false} BisectKeepsBracket(f: Objective, decreasing: bool, iv: Interval, i: nat)
    requires i <= MaxSteps
    requires Brackets(f, decreasing, iv)
    ensures Brackets(f, decreasing, Bisect(f, decreasing, iv, i))
    decreases MaxSteps - i
  {
    if Continues(iv, i) {
      BisectKeepsBracket(f, decreasing, Halve(f, decreasing, iv), i + 1);
    }
  }

  /** The guard of binsearch: the signs of f at the two endpoints strictly differ. */
  predicate SignChange(f: Objective, iv: Interval)
    ensures SignChange(f, iv) <==> (f.At(iv.lo) > 0.0 && f.At(iv.hi) < 0.0) || (f.At(iv.lo) < 0.0 && f.At(iv.hi) > 0.0)
  {
    Sign(f.At(iv.lo)) * Sign(f.At(iv.hi)) < 0
  }

  /** What one call of binsearch appends: the midpoint of the final interval, when
      the endpoint signs differ, and nothing otherwise. */
  function RootIn(f: Objective, decreasing: bool, iv: Interval): (r: seq<real>)
    ensures |r| <= 1
    ensures |r| == 1 <==> SignChange(f, iv)
    ensures forall x :: x in r ==> iv.Contains(x)
  {
    if SignChange(f, iv) then
      var b := Bisect(f, decreasing, iv, 0);
      BisectInside(f, decreasing, iv, 0);
      [b.Mid()]
    else []
  }

  /** When the endpoint signs match the monotonicity flag, the appended value is
      the midpoint of an interval inside the original one across which f still
      changes sign. */
  lemma RootInBracketed(f: Objective, decreasing: bool, iv: Interval)
    requires SignChange(f, iv)
    requires decreasing <==> f.At(iv.lo) > 0.0
    ensures var b := Bisect(f, decreasing, iv, 0);
      RootIn(f, decreasing, iv) == [b.Mid()] && b.Inside(iv) && Brackets(f, decreasing, b)
  {
    BisectInside(f, decreasing, iv, 0);
    BisectKeepsBracket(f, decreasing, iv, 0);
  }

  /** One turn of the loop of binsearch leaves the final interval unchanged. */
  lemma BisectStep(f: Objective, decreasing: bool, iv: Interval, i: nat)
    requires i < MaxSteps && Continues(iv, i)
    ensures Bisect(f, decreasing, iv, i) == Bisect(f, decreasing, Halve(f, decreasing, iv), i + 1)
  {
  }

  /** Once the loop guard fails, the current interval is the final one. */
  lemma BisectDone(f: Objective, decreasing: bool, iv: Interval, i: nat)
    requires i <= MaxSteps && !Continues(iv, i)
    ensures Bisect(f, decreasing, iv, i) == iv
  {
  }

  /** With a sign change, the appended value is the midpoint of the final interval. */
  lemma RootInFound(f: Objective, decreasing: bool, iv: Interval, b: Interval)
    requires SignChange(f, iv) && Bisect(f, decreasing, iv, 0) == b
    ensures RootIn(f, decreasing, iv) == [b.Mid()]
  {
  }

  /** The loop of binsearch: halves [retmin, retmax] until it is within the
      tolerance or the iteration cap is reached, and returns the final endpoints. */
  method Narrow(phiph: Objective, decreasing: bool, retmin: real, retmax: real) returns (lo: real, hi: real)
    ensures Interval(lo, hi) == Bisect(phiph, decreasing, Interval(retmin, retmax), 0)
  {
    ghost var b := Bisect(phiph, decreasing, Interval(retmin, retmax), 0);
    lo, hi := retmin, retmax;
    var i := 0;
    while Abs(hi - lo) > Tolerance && i < MaxSteps
      invariant 0 <= i <= MaxSteps
      invariant Bisect(phiph, decreasing, Interval(lo, hi), i) == b
      decreases MaxSteps - i
    {
      ghost var prev := Interval(lo, hi);
      BisectStep(phiph, decreasing, prev, i);
      var ret := (hi + lo) / 2.0;
      if decreasing {
        if phiph.At(ret) < 0.0 { hi := ret; } else { lo := ret; }
      } else {
        if phiph.At(ret) > 0.0 { hi := ret; } else { lo := ret; }
      }
      assert Interval(lo, hi) == Halve(phiph, decreasing, prev);
      i := i + 1;
    }
    BisectDone(phiph, decreasing, Interval(lo, hi), i);
  }

  /** binsearch. `numSolutions` is the by-reference counter, returned updated. */
  method BinSearch(m: Libm, decreasing: bool, numSolutions: nat, h: array<real>, p: int,
                   phi: real, etad: real, retmin: real, retmax: real) returns (count: nat)
    requires SignChange(Objective(m, p, phi, etad), Interval(retmin, retmax)) ==> numSolutions < h.Length
    modifies h
    ensures count == numSolutions + |RootIn(Objective(m, p, phi, etad), decreasing, Interval(retmin, retmax))|
    ensures count == numSolutions ==> h[..] == old(h[..])
    ensures count > numSolutions ==>
      h[..] == old(h[..])[numSolutions := RootIn(Objective(m, p, phi, etad), decreasing, Interval(retmin, retmax))[0]]
  {
    var phiph := Objective(m, p, phi, etad);
    count := numSolutions;
    if Sign(phiph.At(retmin)) * Sign(phiph.At(retmax)) < 0 {
      assert SignChange(phiph, Interval(retmin, retmax));
      var lo, hi := Narrow(phiph, decreasing, retmin, retmax);
      RootInFound(phiph, decreasing, Interval(retmin, retmax), Interval(lo, hi));
      h[count] := (hi + lo) / 2.0;
      count := count + 1;
    } else {
      assert !SignChange(phiph, Interval(retmin, retmax));
    }
  }

  // ---------------------------------------------------------------------------
  // h_

  /** `localmin` of h_, sqrt(4 - etad^2) / sqrt(3): the split points -localmin and
      localmin of the three sub-intervals searched for p = 2, at the local extrema
      of the p = 2 objective. */
  function LocalExtremum(m: Libm, etad: real): real {
    m.div(m.sqrt(4.0 - etad * etad), m.sqrt(3.0))
  }

  /** The offsets h_ finds, in the order it stores them: the closed form for
      p = 0, one bisection over [-1, 1] for p = 1, three bisections over the
      monotone pieces for p = 2, and none for any other mode. */
  function Roots(m: Libm, p: int, phi: real, etad: real): (hs: seq<real>)
    ensures |hs| <= 3
    ensures p == 0 ==> hs == [m.sin(-phi / 2.0)]
    ensures p == 1 ==> |hs| <= 1 && forall x :: x in hs ==> -1.0 <= x <= 1.0
    ensures p != 0 && p != 1 && p != 2 ==> hs == []
  {
    var f := Objective(m, p, phi, etad);
    if p == 0 then [m.sin(-phi / 2.0)]
    else if p == 1 then RootIn(f, true, Interval(-1.0, 1.0))
    else if p == 2 then SymmetricRoots(m, phi, etad)
    else []
  }

  /** The p = 1 search of h_ runs over [-1, 1], which is 2 wide, so its bisection
      always ends within the tolerance. */
  lemma TransmissionConverges(m: Libm, phi: real, etad: real)
    ensures Bisect(Objective(m, 1, phi, etad), true, Interval(-1.0, 1.0), 0).Width() <= Tolerance
  {
    BisectConverges(Objective(m, 1, phi, etad), true, Interval(-1.0, 1.0));
  }

  /** The three p = 2 searches of h_ end within the tolerance when the split point
      localmin lies in [0, 1]; with the real sqrt that is the case 1 <= etad <= 2. */
  lemma SymmetricConverges(m: Libm, phi: real, etad: real)
    requires 0.0 <= LocalExtremum(m, etad) <= 1.0
    ensures Bisect(Objective(m, 2, phi, etad), true, Interval(-1.0, -LocalExtremum(m, etad)), 0).Width() <= Tolerance
    ensures Bisect(Objective(m, 2, phi, etad), false,
                   Interval(-LocalExtremum(m, etad), LocalExtremum(m, etad)), 0).Width() <= Tolerance
    ensures Bisect(Objective(m, 2, phi, etad), true, Interval(LocalExtremum(m, etad), 1.0), 0).Width() <= Tolerance
  {
    var f := Objective(m, 2, phi, etad);
    BisectConverges(f, true, Interval(-1.0, -LocalExtremum(m, etad)));
    BisectConverges(f, false, Interval(-LocalExtremum(m, etad), LocalExtremum(m, etad)));
    BisectConverges(f, true, Interval(LocalExtremum(m, etad), 1.0));
  }

  /** The p = 2 offsets: one bisection over each of the three monotone pieces
      [-1, -e], [-e, e] and [e, 1] between the local extrema -e and e. */
  function SymmetricRoots(m: Libm, phi: real, etad: real): (hs: seq<real>)
    ensures |hs| <= 3
  {
    PieceRoots(Objective(m, 2, phi, etad), LocalExtremum(m, etad))
  }

  /** The roots of the three searches over [-1, -e], [-e, e] and [e, 1], in order. */
  function PieceRoots(f: Objective, e: real): (hs: seq<real>)
    ensures |hs| <= 3
  {
    RootIn(f, true, Interval(-1.0, -e)) + RootIn(f, false, Interval(-e, e)) + RootIn(f, true, Interval(e, 1.0))
  }

  /** The buffer after one call of binsearch: the root, if any, is stored at the
      counter, behind the roots found so far. */
  lemma StoreRoot(before: seq<real>, after: seq<real>, c: nat, found: seq<real>, r: seq<real>)
    requires |r| <= 1 && c + |r| <= |before| && c == |found|
    requires before[..c] == found
    requires |r| == 0 ==> after == before
    requires |r| == 1 ==> after == before[c := r[0]]
    ensures after[..c + |r|] == found + r
    ensures after[c + |r|..] == before[c + |r|..]
  {
  }

  /** The buffer after the three calls of binsearch for p = 2 holds the three
      results in order. */
  lemma StoreThree(h0: seq<real>, h1: seq<real>, h2: seq<real>, h3: seq<real>, n1: nat, n2: nat, n3: nat,
                   r1: seq<real>, r2: seq<real>, r3: seq<real>)
    requires |r1| <= 1 && |r2| <= 1 && |r3| <= 1 && n3 <= |h0|
    requires n1 == |r1| && n2 == n1 + |r2| && n3 == n2 + |r3|
    requires n1 == 0 ==> h1 == h0
    requires n1 > 0 ==> h1 == h0[0 := r1[0]]
    requires n2 == n1 ==> h2 == h1
    requires n2 > n1 ==> h2 == h1[n1 := r2[0]]
    requires n3 == n2 ==> h3 == h2
    requires n3 > n2 ==> h3 == h2[n2 := r3[0]]
    ensures h3[..n3] == r1 + r2 + r3
    ensures h3[n3..] == h0[n3..]
  {
    StoreRoot(h0, h1, 0, [], r1);
    StoreRoot(h1, h2, n1, r1, r2);
    StoreRoot(h2, h3, n2, r1 + r2, r3);
  }

  /** h_: writes the roots into the buffer h and returns how many there are. The
      buffer must have room for them (N_p_ passes a 3-slot buffer, and there are
      never more than three). */
  method H(m: Libm, h: array<real>, p: int, phi: real, etad: real) returns (n: nat)
    requires |Roots(m, p, phi, etad)| <= h.Length
    modifies h
    ensures n == |Roots(m, p, phi, etad)|
    ensures h[..n] == Roots(m, p, phi, etad)
    ensures h[n..] == old(h[n..])
  {
    var numSolutions := 0;
    if p == 0 {
      h[0] := m.sin(-phi / 2.0);
      return 1;
    } else if p == 1 {
      numSolutions := BinSearch(m, true, numSolutions, h, p, phi, etad, -1.0, 1.0);
      StoreRoot(old(h[..]), h[..], 0, [], Roots(m, p, phi, etad));
      return numSolutions;
    } else if p == 2 {
      numSolutions := SymmetricH(m, h, phi, etad);
      return numSolutions;
    } else {
      return 0;
    }
  }

  /** The p = 2 branch of h_: three calls of binsearch, between -1, the local
      extrema -e and e, and 1, each storing its root behind the ones before. */
  method SymmetricH(m: Libm, h: array<real>, phi: real, etad: real) returns (n: nat)
    requires |SymmetricRoots(m, phi, etad)| <= h.Length
    modifies h
    ensures n == |SymmetricRoots(m, phi, etad)|
    ensures h[..n] == SymmetricRoots(m, phi, etad)
    ensures h[n..] == old(h[n..])
  {
    var localmin := LocalExtremum(m, etad);
    ghost var f := Objective(m, 2, phi, etad);
    ghost var r1, r2, r3 := RootIn(f, true, Interval(-1.0, -localmin)),
      RootIn(f, false, Interval(-localmin, localmin)),
      RootIn(f, true, Interval(localmin, 1.0));
    assert PieceRoots(f, localmin) == r1 + r2 + r3;
    ghost var h0 := h[..];
    n := BinSearch(m, true, 0, h, 2, phi, etad, -1.0, -localmin);
    ghost var n1, h1 := n, h[..];
    n := BinSearch(m, false, n, h, 2, phi, etad, -localmin, localmin);
    ghost var n2, h2 := n, h[..];
    n := BinSearch(m, true, n, h, 2, phi, etad, localmin, 1.0);
    StoreThree(h0, h1, h2, h[..], n1, n2, n, r1, r2, r3);
  }
}
