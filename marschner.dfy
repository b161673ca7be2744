/** The Marschner fibre model of shader.cpp: Fresnel and attenuation terms, the
    Jacobian of the azimuth, the per-mode azimuthal term N_p_, the longitudinal
    Gaussian lobes, their normalised sum AFMarschner, and the angle decomposition
    local_spherical / findAngles. */
module Marschner {
  import opened Numerics
  import opened Vectors
  import opened HairParams
  import opened RootSolver

  // ---------------------------------------------------------------------------
  // Fresnel and attenuation

  /** Fresnel: the reflectance for incidence angle gamma from index eta1 into
      eta2, capped at 1. */
  function Fresnel(m: Libm, eta1: real, eta2: real, gamma: real): (f: real)
    ensures 0.0 <= f <= 1.0
  {
    var s := m.div(m.sin(gamma) * eta1, eta2);
    var a := eta1 * m.cos(gamma);
    var b := eta2 * m.sqrt(1.0 - s * s);
    var r := m.div(a - b, a + b);
    SquareNonNegative(r);
    Min(r * r, 1.0)
  }

  /** F_: the mean of the Fresnel terms for the two virtual indices; with `inv`
      the ray leaves the fibre rather than entering it. */
  function MeanFresnel(m: Libm, etad: real, etadd: real, gamma: real, inv: bool): (f: real)
    ensures 0.0 <= f <= 1.0
  {
    var fs2 := Fresnel(m, if !inv then 1.0 else etad, if !inv then etad else 1.0, gamma);
    var ft2 := Fresnel(m, if !inv then 1.0 else etadd, if !inv then etadd else 1.0, gamma);
    0.5 * (fs2 + ft2)
  }

  /** The floor of |cos(theta_d)| in A_. */
  const CosFloor: real := 0.000000000000000000000000000001

  /** The volume absorption of A_: exp(-2 sigma_a / |cos theta_d| (1 + cos 2 gamma_t)),
      a positive factor, and at most 1 when sigma_a is not negative. */
  function Transmittance(m: Libm, gammaT: real, thetaD: real, sigmaA: real): (t: real)
    ensures m.Valid() ==> t > 0.0
    ensures m.Valid() && sigmaA >= 0.0 ==> t <= 1.0
  {
    var cosThetaD := Max(Abs(m.cos(thetaD)), CosFloor);
    var k := -2.0 * sigmaA / cosThetaD;
    var c := 1.0 + m.cos(2.0 * gammaT);
    assert m.Valid() && sigmaA >= 0.0 ==> k * c <= 0.0 by {
      if m.Valid() && sigmaA >= 0.0 {
        ExponentNonPositive(k, c, sigmaA, cosThetaD);
      }
    }
    m.exp(k * c)
  }

  /** The exponent of the absorption factor is not positive for a non-negative
      absorption coefficient, since |cos theta_d| is floored above 0 and
      1 + cos 2 gamma_t is not negative. */
  lemma ExponentNonPositive(k: real, c: real, sigmaA: real, cosThetaD: real)
    requires cosThetaD > 0.0 && k == -2.0 * sigmaA / cosThetaD
    requires c >= 0.0 && sigmaA >= 0.0
    ensures k * c <= 0.0
  {
    assert -k >= 0.0;
    MulNonNegative(-k, c);
  }

  /** A_: the attenuation of mode p, Fresnel reflection alone for p = 0, and for
      p >= 1 the transmission in and out of the fibre times the absorption over
      the internal paths (with one internal reflection for p >= 2). It is never
      negative, and it is a fraction in [0, 1] for p = 0, and for every mode once
      sigma_a is not negative. */
  function Attenuation(m: Libm, p: int, h: real, gammaI: real, gammaT: real, etad: real,
                       etadd: real, thetaD: real, sigmaA: real): (a: real)
    ensures p == 0 ==> 0.0 <= a <= 1.0
    ensures m.Valid() ==> a >= 0.0
    ensures m.Valid() && sigmaA >= 0.0 ==> a <= 1.0
  {
    if p == 0 then
      MeanFresnel(m, etad, etadd, gammaI, false)
    else
      var t := Transmittance(m, gammaT, thetaD, sigmaA);
      var fres := MeanFresnel(m, etad, etadd, gammaI, false);
      var fresInv := MeanFresnel(m, etad, etadd, gammaT, true);
      var tail := if p == 1 then t else fresInv * t * t;
      assert m.Valid() ==>
        && (1.0 - fres) * (1.0 - fres) * tail >= 0.0
        && (sigmaA >= 0.0 ==> (1.0 - fres) * (1.0 - fres) * tail <= 1.0)
      by {
        if m.Valid() {
          AttenuationBounds(p, fres, fresInv, t, tail);
        }
      }
      (1.0 - fres) * (1.0 - fres) * tail
  }

  /** The transmission product of A_ for p >= 1: (1 - F)^2 T for p = 1 and
      (1 - F)^2 F_inv T^2 otherwise, with Fresnel terms in [0, 1] and a positive
      absorption factor T, is not negative, and at most 1 once T is. */
  lemma AttenuationBounds(p: int, fres: real, fresInv: real, t: real, tail: real)
    requires 0.0 <= fres <= 1.0 && 0.0 <= fresInv <= 1.0 && t > 0.0
    requires tail == if p == 1 then t else fresInv * t * t
    ensures (1.0 - fres) * (1.0 - fres) * tail >= 0.0
    ensures t <= 1.0 ==> (1.0 - fres) * (1.0 - fres) * tail <= 1.0
  {
    var g := (1.0 - fres) * (1.0 - fres);
    MulUnit(1.0 - fres, 1.0 - fres);
    MulNonNegative(fresInv, t);
    MulNonNegative(fresInv * t, t);
    MulNonNegative(g, tail);
    if t <= 1.0 {
      MulUnit(fresInv, t);
      MulUnit(fresInv * t, t);
      MulUnit(g, tail);
    }
  }

  // ---------------------------------------------------------------------------
  // Jacobian and the azimuthal term N_p_

  /** The floor of |p a - b| in dphi_dh_inv_. */
  const JacobianFloor: real := 0.00000000000000000001

  /** dphi_dh_inv_: the inverse of the derivative of the outgoing azimuth with
      respect to the offset h, for mode p. */
  function DphiDhInv(m: Libm, p: int, h: real, etad: real): (d: real)
    ensures m.Valid() ==> d >= 0.0
  {
    if p == 0 then
      m.sqrt(1.0 - h * h) / 2.0
    else
      var a := m.sqrt(1.0 - h * h);
      var b := m.sqrt(etad * etad - h * h);
      var denom := 2.0 * Max(Abs((p as real) * a - b), JacobianFloor);
      assert m.Valid() ==> a * b / denom >= 0.0 by {
        if m.Valid() {
          QuotientNonNegative(a, b, denom);
        }
      }
      a * b / denom
  }

  /** Proof helper for the quotient ab / (2 max(|p a - b|, 1e-20)) of dphi_dh_inv_. */
  lemma QuotientNonNegative(a: real, b: real, d: real)
    requires d > 0.0 && a >= 0.0 && b >= 0.0
    ensures a * b / d >= 0.0
  {
    MulNonNegative(a, b);
    DivNonNegative(a * b, d);
  }

  /** The floor of the two divisors in the virtual indices. */
  const EtaFloor: real := 0.00000000000000000001

  /** etad of N_p_: Bravais' virtual index for the azimuthal plane. */
  function EtaD(m: Libm, eta: real, thetaD: real): real {
    m.sqrt(eta * eta - m.sin(thetaD) * m.sin(thetaD)) / Max(Abs(m.cos(thetaD)), EtaFloor)
  }

  /** etadd of N_p_: the second virtual index. */
  function EtaDD(m: Libm, eta: real, thetaD: real): real {
    eta * eta / Max(m.sqrt(eta * eta - m.sin(thetaD) * m.sin(thetaD)), EtaFloor) * Abs(m.cos(thetaD))
  }

  /** gamma_i of N_p_: the angle of incidence of a ray entering at offset h. */
  function GammaI(m: Libm, h: real): real {
    m.asin(ClampUnitAbs(h))
  }

  /** gamma_t of N_p_: the angle of refraction for index etad. */
  function GammaT(m: Libm, h: real, etad: real): real {
    m.asin(ClampUnitAbs(m.div(h, etad)))
  }

  /** The contribution of one root h to N_p_: A dphi_dh_inv / 2. */
  function RootTerm(m: Libm, p: int, h: real, etad: real, etadd: real, thetaD: real, sigmaA: real): (r: real)
    ensures m.Valid() ==> r >= 0.0
  {
    var gammaI := GammaI(m, h);
    var gammaT := GammaT(m, h, etad);
    var dphiDhInv := DphiDhInv(m, p, h, etad);
    var a := Attenuation(m, p, h, gammaI, gammaT, etad, etadd, thetaD, sigmaA);
    Contribution(a, dphiDhInv)
  }

  /** The summand A * dphi_dh_inv * 0.5 of N_p_, not negative for non-negative factors. */
  function Contribution(a: real, dphiDhInv: real): (r: real)
    ensures a >= 0.0 && dphiDhInv >= 0.0 ==> r >= 0.0
  {
    assert a >= 0.0 && dphiDhInv >= 0.0 ==> a * dphiDhInv * 0.5 >= 0.0 by {
      if a >= 0.0 && dphiDhInv >= 0.0 {
        MulNonNegative(a, dphiDhInv);
      }
    }
    a * dphiDhInv * 0.5
  }

  /** RootTerm is computed from the same intermediate values as the loop body of N_p_. */
  lemma RootTermSteps(m: Libm, p: int, h: real, etad: real, etadd: real, thetaD: real, sigmaA: real,
                      a: real, dphiDhInv: real)
    requires a == Attenuation(m, p, h, GammaI(m, h), GammaT(m, h, etad), etad, etadd, thetaD, sigmaA)
    requires dphiDhInv == DphiDhInv(m, p, h, etad)
    ensures RootTerm(m, p, h, etad, etadd, thetaD, sigmaA) == a * dphiDhInv * 0.5
  {
    assert RootTerm(m, p, h, etad, etadd, thetaD, sigmaA) == Contribution(a, dphiDhInv);
    ContributionProduct(a, dphiDhInv);
  }

  /** Proof helper: the summand is the product as the loop body of N_p_ writes it. */
  lemma ContributionProduct(a: real, dphiDhInv: real)
    ensures Contribution(a, dphiDhInv) == a * dphiDhInv * 0.5
  {
  }

  /** The contributions of the roots hs, summed in order. */
  function SumTerms(m: Libm, p: int, hs: seq<real>, etad: real, etadd: real, thetaD: real, sigmaA: real): real {
    if |hs| == 0 then 0.0
    else SumTerms(m, p, hs[..|hs| - 1], etad, etadd, thetaD, sigmaA) + RootTerm(m, p, hs[|hs| - 1], etad, etadd, thetaD, sigmaA)
  }

  /** The value N_p_ returns: the sum over the roots h_ finds. */
  function ModeN(m: Libm, p: int, thetaD: real, phi: real, eta: real, sigmaA: real): real {
    var etad := EtaD(m, eta, thetaD);
    SumTerms(m, p, Roots(m, p, phi, etad), etad, EtaDD(m, eta, thetaD), thetaD, sigmaA)
  }

  /** N_p_: solves for the roots into a 3-slot buffer and accumulates their terms. */
  method Np(m: Libm, p: int, thetaD: real, phi: real, eta: real, sigmaA: real) returns (np: real)
    ensures np == ModeN(m, p, thetaD, phi, eta, sigmaA)
  {
    var etad := EtaD(m, eta, thetaD);
    var etadd := EtaDD(m, eta, thetaD);
    var hSolutions := new real[3];
    var numSolutions := H(m, hSolutions, p, phi, etad);
    np := 0.0;
    var i := 0;
    while i < numSolutions
      invariant 0 <= i <= numSolutions <= hSolutions.Length
      invariant hSolutions[..numSolutions] == Roots(m, p, phi, etad)
      invariant np == SumTerms(m, p, hSolutions[..i], etad, etadd, thetaD, sigmaA)
    {
      var h := hSolutions[i];
      var gammaI := GammaI(m, h);
      var gammaT := GammaT(m, h, etad);
      var dphiDhInv := DphiDhInv(m, p, h, etad);
      var a := Attenuation(m, p, h, gammaI, gammaT, etad, etadd, thetaD, sigmaA);
      assert hSolutions[..i + 1][..i] == hSolutions[..i];
      RootTermSteps(m, p, h, etad, etadd, thetaD, sigmaA, a, dphiDhInv);
      assert SumTerms(m, p, hSolutions[..i + 1], etad, etadd, thetaD, sigmaA)
          == np + RootTerm(m, p, h, etad, etadd, thetaD, sigmaA);
      np := np + a * dphiDhInv * 0.5;
      i := i + 1;
    }
  }

  lemma {:induction false} SumTermsNonNegative(m: Libm, p: int, hs: seq<real>, etad: real, etadd: real,
                                               thetaD: real, sigmaA: real)
    requires m.Valid()
    ensures SumTerms(m, p, hs, etad, etadd, thetaD, sigmaA) >= 0.0
    decreases |hs|
  {
    if |hs| > 0 {
      SumTermsNonNegative(m, p, hs[..|hs| - 1], etad, etadd, thetaD, sigmaA);
    }
  }

  /** Every azimuthal term is non-negative. */
  lemma ModeNNonNegative(m: Libm, p: int, thetaD: real, phi: real, eta: real, sigmaA: real)
    requires m.Valid()
    ensures ModeN(m, p, thetaD, phi, eta, sigmaA) >= 0.0
  {
    var etad := EtaD(m, eta, thetaD);
    SumTermsNonNegative(m, p, Roots(m, p, phi, etad), etad, EtaDD(m, eta, thetaD), thetaD, sigmaA);
  }

  /** For p = 0 the closed-form root makes N_p_ a single term. */
  lemma ModeNReflection(m: Libm, thetaD: real, phi: real, eta: real, sigmaA: real)
    ensures ModeN(m, 0, thetaD, phi, eta, sigmaA)
         == RootTerm(m, 0, m.sin(-phi / 2.0), EtaD(m, eta, thetaD), EtaDD(m, eta, thetaD), thetaD, sigmaA)
  {
    var etad := EtaD(m, eta, thetaD);
    var etadd := EtaDD(m, eta, thetaD);
    var hs := Roots(m, 0, phi, etad);
    assert hs == [m.sin(-phi / 2.0)];
    assert hs[..0] == [];
    assert SumTerms(m, 0, hs, etad, etadd, thetaD, sigmaA)
        == SumTerms(m, 0, [], etad, etadd, thetaD, sigmaA) + RootTerm(m, 0, hs[0], etad, etadd, thetaD, sigmaA);
  }

  // ---------------------------------------------------------------------------
  // Longitudinal lobes and their sum

  /** gaussian: the normal density with mean mu and deviation sigma at x. */
  function Gaussian(m: Libm, x: real, mu: real, sigma: real): (g: real)
    ensures m.Valid() && sigma > 0.0 ==> g > 0.0
  {
    var a := m.div(1.0, m.sqrt(2.0 * Pi));
    m.div(m.exp(m.div(-(x - mu) * (x - mu) * 0.5, sigma * sigma)) * a, sigma)
  }

  /** The density is symmetric about its mean. */
  lemma GaussianSymmetric(m: Libm, x: real, mu: real, sigma: real)
    ensures Gaussian(m, x, mu, sigma) == Gaussian(m, 2.0 * mu - x, mu, sigma)
  {
    var d := 2.0 * mu - x - mu;
    assert d == -(x - mu);
    assert -d * d * 0.5 == -(x - mu) * (x - mu) * 0.5;
  }

  /** One mode term of AFMarschner: gain times longitudinal times azimuthal factor,
      clamped below at 0; the clamp is inactive when all three factors are
      non-negative. */
  function ClampedLobe(intensity: real, longitudinal: real, azimuthal: real): (v: real)
    ensures v >= 0.0
    ensures v >= intensity * longitudinal * azimuthal
    ensures v == intensity * longitudinal * azimuthal || v == 0.0
    ensures intensity >= 0.0 && longitudinal >= 0.0 && azimuthal >= 0.0 ==> v == intensity * longitudinal * azimuthal
  {
    assert intensity >= 0.0 && longitudinal >= 0.0 && azimuthal >= 0.0 ==>
      intensity * longitudinal * azimuthal >= 0.0
    by {
      if intensity >= 0.0 && longitudinal >= 0.0 && azimuthal >= 0.0 {
        LobeNonNegative(intensity, longitudinal, azimuthal);
      }
    }
    Max(intensity * longitudinal * azimuthal, 0.0)
  }

  /** Proof helper for the product intensity * M * N of one lobe. */
  lemma LobeNonNegative(intensity: real, longitudinal: real, azimuthal: real)
    requires intensity >= 0.0 && longitudinal >= 0.0 && azimuthal >= 0.0
    ensures intensity * longitudinal * azimuthal >= 0.0
  {
    MulNonNegative(intensity, longitudinal);
    MulNonNegative(intensity * longitudinal, azimuthal);
  }

  /** The three clamped mode terms of AFMarschner, their azimuthal factors and the
      normalisation scale. */
  datatype Lobes = Lobes(r: real, tt: real, trt: real, mR: real, mTT: real, mTRT: real,
                         nR: real, nTT: real, nTRT: real, scale: real) {
    /** R + TT + TRT, before normalisation. */
    function Sum(): real {
      r + tt + trt
    }

    /** (R + TT + TRT) * scale: with clamped lobes and a scale in (0, 10] it lies
        between 0 and ten times the plain sum. */
    function Normalised(): (v: real)
      ensures r >= 0.0 && tt >= 0.0 && trt >= 0.0 && 0.0 < scale <= 10.0 ==> 0.0 <= v <= 10.0 * Sum()
    {
      if r >= 0.0 && tt >= 0.0 && trt >= 0.0 && 0.0 < scale <= 10.0 then
        MulNonNegative(Sum(), scale);
        MulNonNegative(Sum(), 10.0 - scale);
        Sum() * scale
      else
        Sum() * scale
    }
  }

  /** The floor of cos^2(theta_d) under the normalisation. */
  const ScaleFloor: real := 0.1

  /** The three clamped lobes and the normalisation factor, from the longitudinal
      terms M_R, M_TT, M_TRT, the azimuthal terms N_R, N_TT, N_TRT and cos(theta_d). */
  function CombineLobes(hp: HairParams, mR: real, mTT: real, mTRT: real,
                        nR: real, nTT: real, nTRT: real, cosThetaD: real): (l: Lobes)
    ensures l.mR == mR && l.mTT == mTT && l.mTRT == mTRT
    ensures l.nR == nR && l.nTT == nTT && l.nTRT == nTRT
    ensures l.r >= 0.0 && l.tt >= 0.0 && l.trt >= 0.0
    ensures 0.0 < l.scale <= 10.0
    ensures -1.0 <= cosThetaD <= 1.0 ==> l.scale >= 1.0
  {
    var r := ClampedLobe(hp.intensityR, mR, nR);
    var tt := ClampedLobe(hp.intensityTT, mTT, nTT);
    var trt := ClampedLobe(hp.intensityTRT, mTRT, nTRT);
    var denom := Max(cosThetaD * cosThetaD, ScaleFloor);
    ScaleBounds(cosThetaD, denom);
    Lobes(r, tt, trt, mR, mTT, mTRT, nR, nTT, nTRT, 1.0 / denom)
  }

  /** The lobes of AFMarschner at one pair of directions (on-the-fly N_R, N_TT and
      N_TRT, i.e. without the approximate distribution). */
  function MarschnerLobes(m: Libm, phi: real, thetaD: real, thetaH: real, hp: HairParams): (l: Lobes)
    ensures l.mR == Gaussian(m, thetaH, hp.longitudinalShiftR, hp.longitudinalWidthR)
    ensures l.mTT == Gaussian(m, thetaH, hp.longitudinalShiftTT, hp.longitudinalWidthTT)
    ensures l.mTRT == Gaussian(m, thetaH, hp.longitudinalShiftTRT, hp.longitudinalWidthTRT)
    ensures l.nR == ModeN(m, 0, thetaD, phi, hp.eta, hp.sigmaA)
    ensures l.nTT == ModeN(m, 1, thetaD, phi, hp.eta, hp.sigmaA)
    ensures l.nTRT == l.nR
    ensures l.r >= 0.0 && l.tt >= 0.0 && l.trt >= 0.0
    ensures 0.0 < l.scale <= 10.0
    ensures m.Valid() ==> l.scale >= 1.0
  {
    CombineLobes(hp,
      Gaussian(m, thetaH, hp.longitudinalShiftR, hp.longitudinalWidthR),
      Gaussian(m, thetaH, hp.longitudinalShiftTT, hp.longitudinalWidthTT),
      Gaussian(m, thetaH, hp.longitudinalShiftTRT, hp.longitudinalWidthTRT),
      ModeN(m, 0, thetaD, phi, hp.eta, hp.sigmaA),
      ModeN(m, 1, thetaD, phi, hp.eta, hp.sigmaA),
      ModeN(m, 0, thetaD, phi, hp.eta, hp.sigmaA),
      m.cos(thetaD))
  }

  /** The normalisation scale 1 / max(c^2, 0.1) lies in (0, 10], and it is at least 1
      when c is a cosine. */
  lemma ScaleBounds(c: real, denom: real)
    requires denom == Max(c * c, ScaleFloor)
    ensures 0.0 < 1.0 / denom <= 10.0
    ensures -1.0 <= c <= 1.0 ==> 1.0 / denom >= 1.0
  {
    if -1.0 <= c <= 1.0 {
      SquareUnit(c);
      assert 1.0 / denom - 1.0 == (1.0 - denom) / denom;
      DivNonNegative(1.0 - denom, denom);
    }
  }

  /** AFMarschner: the normalised sum of the three lobes. */
  function AFMarschner(m: Libm, phi: real, thetaD: real, thetaH: real, hp: HairParams): (v: real)
    ensures 0.0 <= v <= 10.0 * MarschnerLobes(m, phi, thetaD, thetaH, hp).Sum()
  {
    MarschnerLobes(m, phi, thetaD, thetaH, hp).Normalised()
  }

  /** With valid math functions, positive widths and non-negative gains the clamps
      of AFMarschner are inactive: each lobe is exactly gain * M * N. */
  lemma LobesUnclamped(m: Libm, phi: real, thetaD: real, thetaH: real, hp: HairParams, l: Lobes)
    requires m.Valid() && hp.WidthsPositive()
    requires hp.intensityR >= 0.0 && hp.intensityTT >= 0.0 && hp.intensityTRT >= 0.0
    requires l == MarschnerLobes(m, phi, thetaD, thetaH, hp)
    ensures l.r == hp.intensityR * l.mR * l.nR
    ensures l.tt == hp.intensityTT * l.mTT * l.nTT
    ensures l.trt == hp.intensityTRT * l.mTRT * l.nTRT
  {
    LobeFactorsNonNegative(m, phi, thetaD, thetaH, hp, l);
    assert l == CombineLobes(hp, l.mR, l.mTT, l.mTRT, l.nR, l.nTT, l.nTRT, m.cos(thetaD));
    CombineUnclamped(hp, l, m.cos(thetaD));
  }

  /** With valid math functions and positive widths the longitudinal and azimuthal
      factors of every lobe are non-negative. */
  lemma LobeFactorsNonNegative(m: Libm, phi: real, thetaD: real, thetaH: real, hp: HairParams, l: Lobes)
    requires m.Valid() && hp.WidthsPositive()
    requires l == MarschnerLobes(m, phi, thetaD, thetaH, hp)
    ensures l.mR > 0.0 && l.mTT > 0.0 && l.mTRT > 0.0
    ensures l.nR >= 0.0 && l.nTT >= 0.0 && l.nTRT >= 0.0
  {
    ModeNNonNegative(m, 0, thetaD, phi, hp.eta, hp.sigmaA);
    ModeNNonNegative(m, 1, thetaD, phi, hp.eta, hp.sigmaA);
  }

  lemma CombineUnclamped(hp: HairParams, l: Lobes, cosThetaD: real)
    requires hp.intensityR >= 0.0 && hp.intensityTT >= 0.0 && hp.intensityTRT >= 0.0
    requires l.mR >= 0.0 && l.mTT >= 0.0 && l.mTRT >= 0.0 && l.nR >= 0.0 && l.nTT >= 0.0 && l.nTRT >= 0.0
    requires l == CombineLobes(hp, l.mR, l.mTT, l.mTRT, l.nR, l.nTT, l.nTRT, cosThetaD)
    ensures l.r == hp.intensityR * l.mR * l.nR
    ensures l.tt == hp.intensityTT * l.mTT * l.nTT
    ensures l.trt == hp.intensityTRT * l.mTRT * l.nTRT
  {
  }

  // ---------------------------------------------------------------------------
  // Angles

  /** local_spherical: the azimuth (atan2 of the y and x coordinates) and the
      latitude (pi/2 minus the polar angle) of v in the frame (x, y, z). */
  function LocalSpherical(m: Libm, v: Vec3, x: Vec3, y: Vec3, z: Vec3): (s: Vec3)
    ensures s.z == 0.0
    ensures m.Valid() ==> -Pi <= s.x <= Pi && -Pi / 2.0 <= s.y <= Pi / 2.0
  {
    var xdash := Dot(v, x);
    var ydash := Dot(v, y);
    var zdash := Dot(v, z);
    var r := m.sqrt(xdash * xdash + ydash * ydash + zdash * zdash);
    Vec3(m.atan2(ydash, xdash), Pi * 0.5 - m.acos(ClampUnitAbs(m.div(zdash, r))), 0.0)
  }

  /** The relative azimuth of findAngles: |a - b|, brought into (-pi, pi] by one
      subtraction of 2 pi. */
  function WrapAzimuth(a: real, b: real): (phi: real)
    ensures phi == Abs(a - b) || phi == Abs(a - b) - 2.0 * Pi
    ensures Abs(a - b) <= Pi ==> phi == Abs(a - b)
    ensures -Pi <= a <= Pi && -Pi <= b <= Pi ==> -Pi < phi <= Pi
  {
    var phi := Abs(a - b);
    if phi > Pi then phi - 2.0 * Pi else phi
  }

  /** The out-parameters of findAngles. */
  datatype Angles = Angles(phi: real, thetaD: real, thetaH: real, thetaT: real)

  /** findAngles: the relative azimuth and the half-difference, half-sum and
      incident latitudes of the view and light directions in the fibre frame
      (V, W, U). */
  function FindAngles(m: Libm, vn: Vec3, ln: Vec3, u: Vec3, v: Vec3, w: Vec3): (a: Angles)
    ensures a.thetaT == LocalSpherical(m, ln, v, w, u).y
    ensures m.Valid() ==> -Pi < a.phi <= Pi
    ensures m.Valid() ==> 0.0 <= a.thetaD <= Pi / 2.0
    ensures m.Valid() ==> -Pi / 2.0 <= a.thetaH <= Pi / 2.0
  {
    var omegaO := LocalSpherical(m, vn, v, w, u);
    var omegaI := LocalSpherical(m, ln, v, w, u);
    var phi := WrapAzimuth(omegaO.x, omegaI.x);
    var thetaD0 := Abs(omegaO.y - omegaI.y) * 0.5;
    var thetaH := (omegaO.y + omegaI.y) * 0.5;
    var thetaD := if thetaD0 > Pi / 2.0 then thetaD0 - Pi else thetaD0;
    Angles(phi, thetaD, thetaH, omegaI.y)
  }
}
