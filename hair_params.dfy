/** The configuration records of shader.h: degToRad and the default parameters of
    the Marschner fiber model. */
module HairParams {
  import opened Numerics

  /** degToRad: degrees to radians. */
  function DegToRad(x: real): (r: real)
    ensures r * 180.0 == x * Pi
    ensures r > 0.0 <==> x > 0.0
  {
    x * Pi / 180.0
  }

  /** AFMarschnerHairParams: one intensity scale and one longitudinal Gaussian lobe
      (shift, width) per scattering mode R, TT and TRT, the parameters of the
      (inactive) glint term, and the fibre's material. */
  datatype HairParams = HairParams(
    intensityR: real,
    longitudinalShiftR: real,
    longitudinalWidthR: real,
    intensityTT: real,
    longitudinalShiftTT: real,
    longitudinalWidthTT: real,
    azimuthalWidthTT: real,
    intensityTRT: real,
    longitudinalShiftTRT: real,
    longitudinalWidthTRT: real,
    intensityG: real,
    azimuthalShiftG: real,
    azimuthalWidthG: real,
    attenuationFromRoot: real,
    eta: real,
    sigmaA: real,
    thickness: real)
  {
    /** Every longitudinal lobe has a positive width, the divisor of `Gaussian`. */
    predicate WidthsPositive() {
      longitudinalWidthR > 0.0 && longitudinalWidthTT > 0.0 && longitudinalWidthTRT > 0.0
    }
  }

  /** The default constructor of AFMarschnerHairParams. The TT and TRT lobes are
      derived from the R lobe. */
  function DefaultHairParams(): (hp: HairParams)
    ensures hp.longitudinalShiftR == DegToRad(-7.5) && hp.longitudinalWidthR == DegToRad(7.5)
    ensures hp.longitudinalShiftTT == -hp.longitudinalShiftR / 2.0
    ensures hp.longitudinalWidthTT == hp.longitudinalWidthR / 2.0
    ensures hp.longitudinalShiftTRT == -3.0 * hp.longitudinalShiftR / 2.0
    ensures hp.longitudinalWidthTRT == 2.0 * hp.longitudinalWidthR
    ensures hp.WidthsPositive()
    ensures hp.intensityR == 5.0 && hp.intensityTT == 0.5 && hp.intensityTRT == 0.5
    ensures hp.eta == 1.55 && hp.sigmaA == 0.2 && hp.thickness == 0.2
  {
    var shiftR := DegToRad(-7.5);
    var widthR := DegToRad(7.5);
    HairParams(
      intensityR := 5.0,
      longitudinalShiftR := shiftR,
      longitudinalWidthR := widthR,
      intensityTT := 0.5,
      longitudinalShiftTT := -shiftR / 2.0,
      longitudinalWidthTT := widthR / 2.0,
      azimuthalWidthTT := 3.0,
      intensityTRT := 0.5,
      longitudinalShiftTRT := -3.0 * shiftR / 2.0,
      longitudinalWidthTRT := 2.0 * widthR,
      intensityG := 1.0,
      azimuthalShiftG := DegToRad(30.0),
      azimuthalWidthG := DegToRad(10.0),
      attenuationFromRoot := 1.0,
      eta := 1.55,
      thickness := 0.2,
      sigmaA := 0.2)
  }
}
