/** The three shaders of the viewer: a specular highlight, the Kajiya-Kay fibre model
    and the Marschner fibre model. Each shader's parameters are a value of the
    `Shader` datatype, one constructor per shader class. `BaseShader` is the object
    whose `Sample` method the mesh builder calls: like the virtual `sample` of the
    C++ classes, it first clamps the parameters in place and then shades. */
module Shaders {
  import opened Numerics
  import opened Vectors
  import opened HairParams
  import opened Marschner

  // ---------------------------------------------------------------------------
  // Specular
  // ---------------------------------------------------------------------------

  /** The base of SpecularShader::sample: the cosine between the view direction and
      the mirror image of the light direction, clamped at 0 for lights behind the
      surface. */
  function SpecularBase(light: Vec3, out: Vec3, normal: Vec3): (l: real)
    ensures l >= 0.0
    ensures l >= Dot(out, Reflect(Neg(light), normal))
    ensures l == 0.0 || l == Dot(out, Reflect(Neg(light), normal))
  {
    var lSpecular := Dot(out, Reflect(Neg(light), normal));
    if lSpecular < 0.0 then 0.0 else lSpecular
  }

  /** Reflection in a unit normal keeps the length of a vector. */
  lemma ReflectPreservesLength(i: Vec3, n: Vec3)
    requires Dot(n, n) == 1.0
    ensures Dot(Reflect(i, n), Reflect(i, n)) == Dot(i, i)
  {
    var d := Dot(n, i);
    var r := Reflect(i, n);
    assert r == Vec3(i.x - n.x * (d * 2.0), i.y - n.y * (d * 2.0), i.z - n.z * (d * 2.0));
    calc {
      Dot(r, r);
      (i.x - n.x * (d * 2.0)) * (i.x - n.x * (d * 2.0))
        + (i.y - n.y * (d * 2.0)) * (i.y - n.y * (d * 2.0))
        + (i.z - n.z * (d * 2.0)) * (i.z - n.z * (d * 2.0));
      Dot(i, i) - 4.0 * d * (n.x * i.x + n.y * i.y + n.z * i.z)
        + 4.0 * d * d * (n.x * n.x + n.y * n.y + n.z * n.z);
      Dot(i, i) - 4.0 * d * d + 4.0 * d * d * Dot(n, n);
      Dot(i, i);
    }
  }

  /** Looking exactly along the mirror direction of the light, the specular base is
      the squared length of the light direction (1 for a unit light). */
  lemma MirrorSpecular(light: Vec3, normal: Vec3)
    requires Dot(normal, normal) == 1.0
    ensures SpecularBase(light, Reflect(Neg(light), normal), normal) == Dot(light, light)
  {
    ReflectPreservesLength(Neg(light), normal);
    assert Dot(Neg(light), Neg(light)) == Dot(light, light);
  }

  /** SpecularShader::sample after its parameter check: the clamped base raised to the
      specular exponent. */
  function SpecularShade(m: Libm, specFactor: real, light: Vec3, out: Vec3, normal: Vec3): (v: real)
    ensures m.Valid() ==> v >= 0.0
  {
    m.pow(SpecularBase(light, out, normal), specFactor)
  }

  // ---------------------------------------------------------------------------
  // Kajiya-Kay
  // ---------------------------------------------------------------------------

  /** sqrt(1 - c^2) with the argument clamped at 0 first, as KajiyaKayDiffuse and
      KajiyaKaySpecular compute the sine of the angle to the tangent; the square root
      is only taken of a positive value. */
  function SineFromCosine(m: Libm, c: real): (s: real)
    ensures 1.0 - c * c <= 0.0 ==> s == 0.0
    ensures 1.0 - c * c > 0.0 ==> s == m.sqrt(1.0 - c * c)
    ensures m.Valid() ==> s >= 0.0
    ensures m.Valid() ==> (s == 0.0 <==> c * c >= 1.0)
  {
    var s := 1.0 - c * c;
    var s := if s < 0.0 then 0.0 else s;
    if s > 0.0 then m.sqrt(s) else s
  }

  /** KajiyaKayDiffuse: the sine of the angle between the tangent and the normalised
      light direction. */
  function KajiyaKayDiffuse(m: Libm, tangent: Vec3, light: Vec3): (df: real)
    ensures m.Valid() ==> df >= 0.0
    ensures m.Valid() ==>
      (df == 0.0 <==> Dot(tangent, Normalize(m, light)) * Dot(tangent, Normalize(m, light)) >= 1.0)
  {
    SineFromCosine(m, Dot(tangent, Normalize(m, light)))
  }

  /** KajiyaKaySpecular: sin(t, l) sin(t, v) - cos(t, l) cos(t, v), clamped at 0. */
  function KajiyaKaySpecular(m: Libm, tangent: Vec3, light: Vec3, view: Vec3): (k: real)
    ensures k >= 0.0
    ensures k >= KajiyaKayDiffuse(m, tangent, light) * SineFromCosine(m, Dot(view, tangent))
                 - Dot(Normalize(m, light), tangent) * Dot(view, tangent)
    ensures k == 0.0
         || k == KajiyaKayDiffuse(m, tangent, light) * SineFromCosine(m, Dot(view, tangent))
                 - Dot(Normalize(m, light), tangent) * Dot(view, tangent)
  {
    var sintl := KajiyaKayDiffuse(m, tangent, light);
    var vt := Dot(view, tangent);
    var sinte := SineFromCosine(m, vt);
    var kspec := sintl * sinte - Dot(Normalize(m, light), tangent) * vt;
    if kspec < 0.0 then 0.0 else kspec
  }

  /** For directions the normalisation leaves unchanged, the Kajiya-Kay specular term
      is symmetric in the light and the view direction. */
  lemma KajiyaKaySpecularReciprocal(m: Libm, tangent: Vec3, light: Vec3, view: Vec3)
    requires Normalize(m, light) == light && Normalize(m, view) == view
    ensures KajiyaKaySpecular(m, tangent, light, view) == KajiyaKaySpecular(m, tangent, view, light)
  {
    var cl := Dot(tangent, light);
    var cv := Dot(tangent, view);
    assert Dot(view, tangent) == cv && Dot(light, tangent) == cl;
    var sl := SineFromCosine(m, cl);
    var sv := SineFromCosine(m, cv);
    assert KajiyaKaySpecular(m, tangent, light, view) == Max(sl * sv - cl * cv, 0.0);
    assert KajiyaKaySpecular(m, tangent, view, light) == Max(sv * sl - cv * cl, 0.0);
  }

  /** KajiyaKayShader::sample after its parameter check: kd times the diffuse term plus
      ks times the specular term raised to the exponent. The view direction is the
      outgoing direction as given, and the normal is not used. */
  function KajiyaKayShade(m: Libm, tangent: Vec3, specFactor: real, kd: real, ks: real,
                          light: Vec3, out: Vec3): (v: real)
    ensures m.Valid() && kd >= 0.0 && ks >= 0.0 ==> v >= 0.0
  {
    var ss := m.pow(KajiyaKaySpecular(m, tangent, light, out), specFactor);
    var diffuse := KajiyaKayDiffuse(m, tangent, light);
    assert m.Valid() && kd >= 0.0 && ks >= 0.0 ==> kd * diffuse + ks * ss >= 0.0 by {
      if m.Valid() && kd >= 0.0 && ks >= 0.0 {
        WeightedSumNonNegative(kd, diffuse, ks, ss);
      }
    }
    kd * diffuse + ks * ss
  }

  /** Proof helper for kd * diffuse + ks * specular of KajiyaKayShader::sample. */
  lemma WeightedSumNonNegative(a: real, x: real, b: real, y: real)
    requires a >= 0.0 && x >= 0.0 && b >= 0.0 && y >= 0.0
    ensures a * x + b * y >= 0.0
  {
    MulNonNegative(a, x);
    MulNonNegative(b, y);
  }

  // ---------------------------------------------------------------------------
  // Marschner
  // ---------------------------------------------------------------------------

  /** The fibre frame and the normalised directions of AFMarschnerShader::sample: U
      along the tangent, V along the normal, W = U x V, the reversed view direction
      and the light direction. */
  function MarschnerAngles(m: Libm, tangent: Vec3, light: Vec3, out: Vec3, normal: Vec3): (a: Angles)
    ensures m.Valid() ==> -Pi < a.phi <= Pi
    ensures m.Valid() ==> 0.0 <= a.thetaD <= Pi / 2.0
    ensures m.Valid() ==> -Pi / 2.0 <= a.thetaH <= Pi / 2.0
  {
    var u := Normalize(m, tangent);
    var v := Normalize(m, normal);
    var w := Normalize(m, Cross(u, v));
    FindAngles(m, Normalize(m, Neg(out)), Normalize(m, light), u, v, w)
  }

  /** AFMarschnerShader::sample: AFMarschner at the angles of the two directions. */
  function MarschnerShade(m: Libm, tangent: Vec3, hp: HairParams, light: Vec3, out: Vec3, normal: Vec3): (v: real)
    ensures var a := MarschnerAngles(m, tangent, light, out, normal);
      0.0 <= v <= 10.0 * MarschnerLobes(m, a.phi, a.thetaD, a.thetaH, hp).Sum()
  {
    var a := MarschnerAngles(m, tangent, light, out, normal);
    AFMarschner(m, a.phi, a.thetaD, a.thetaH, hp)
  }

  // ---------------------------------------------------------------------------
  // The shader parameters and their in-place check
  // ---------------------------------------------------------------------------

  /** The parameters of one shader object: one constructor per class deriving from
      BaseShader. The Marschner shader's hair parameters are held by value. */
  datatype Shader =
    | SpecularShader(specFactor: real)
    | KajiyaKayShader(tangent: Vec3, specFactor: real, kd: real, ks: real)
    | AFMarschnerShader(tangent: Vec3, hp: HairParams)
  {
    /** The parameters the "parameter check" of `sample` enforces. */
    predicate ParamsChecked() {
      match this
      case SpecularShader(specFactor) => specFactor >= 0.0
      case KajiyaKayShader(_, specFactor, kd, ks) => specFactor >= 0.0 && kd >= 0.0 && ks >= 0.0
      case AFMarschnerShader(_, _) => true
    }

    /** The parameter check of `sample`: every exponent and weight raised to at least
        0. It keeps the shader kind and the tangent, leaves non-negative values alone
        and leaves checked parameters unchanged, so a second check changes nothing. */
    function Checked(): (s: Shader)
      ensures s.ParamsChecked()
      ensures ParamsChecked() ==> s == this
      ensures s.SpecularShader? == SpecularShader? && s.KajiyaKayShader? == KajiyaKayShader?
      ensures SpecularShader? ==>
        && s.specFactor >= specFactor
        && (specFactor >= 0.0 ==> s.specFactor == specFactor)
      ensures KajiyaKayShader? ==>
        && s.tangent == tangent
        && s.specFactor >= specFactor && s.kd >= kd && s.ks >= ks
        && (specFactor >= 0.0 ==> s.specFactor == specFactor)
        && (kd >= 0.0 ==> s.kd == kd) && (ks >= 0.0 ==> s.ks == ks)
      ensures AFMarschnerShader? ==> s == this
    {
      match this
      case SpecularShader(specFactor) =>
        SpecularShader(Max(specFactor, 0.0))
      case KajiyaKayShader(tangent, specFactor, kd, ks) =>
        KajiyaKayShader(tangent, Max(specFactor, 0.0), Max(kd, 0.0), Max(ks, 0.0))
      case AFMarschnerShader(_, _) =>
        this
    }

    /** The shading arm of each class's `sample`, on parameters as they are. */
    function Shade(m: Libm, light: Vec3, out: Vec3, normal: Vec3): (v: real)
      ensures m.Valid() && ParamsChecked() ==> v >= 0.0
      ensures AFMarschnerShader? ==> v >= 0.0
    {
      match this
      case SpecularShader(specFactor) =>
        SpecularShade(m, specFactor, light, out, normal)
      case KajiyaKayShader(tangent, specFactor, kd, ks) =>
        KajiyaKayShade(m, tangent, specFactor, kd, ks, light, out)
      case AFMarschnerShader(tangent, hp) =>
        MarschnerShade(m, tangent, hp, light, out, normal)
    }
  }

  /** The in-place parameter check is idempotent. */
  lemma CheckedIdempotent(s: Shader)
    ensures s.Checked().Checked() == s.Checked()
  {
  }

  /** SpecularShader(): spec_factor 5. */
  function DefaultSpecularShader(): (s: Shader)
    ensures s.SpecularShader? && s.specFactor == 5.0
    ensures s.ParamsChecked()
  {
    SpecularShader(5.0)
  }

  /** KajiyaKayShader(): tangent (0, 0, 1), spec_factor 25, kd = ks = 0.3. */
  function DefaultKajiyaKayShader(): (s: Shader)
    ensures s.KajiyaKayShader? && s.tangent == Vec3(0.0, 0.0, 1.0)
    ensures s.specFactor == 25.0 && s.kd == 0.3 && s.ks == 0.3
    ensures s.ParamsChecked()
  {
    KajiyaKayShader(Vec3(0.0, 0.0, 1.0), 25.0, 0.3, 0.3)
  }

  /** AFMarschnerShader(): tangent (0, 0, 1) and default hair parameters. */
  function DefaultAFMarschnerShader(): (s: Shader)
    ensures s.AFMarschnerShader? && s.tangent == Vec3(0.0, 0.0, 1.0)
    ensures s.hp == DefaultHairParams() && s.hp.WidthsPositive()
    ensures s.ParamsChecked()
  {
    AFMarschnerShader(Vec3(0.0, 0.0, 1.0), DefaultHairParams())
  }

  /** A shader object. `samples` counts the calls of `Sample`. */
  class BaseShader {
    var shader: Shader
    ghost var samples: nat

    constructor Specular()
      ensures shader == DefaultSpecularShader() && samples == 0
    {
      shader := DefaultSpecularShader();
      samples := 0;
    }

    constructor KajiyaKay()
      ensures shader == DefaultKajiyaKayShader() && samples == 0
    {
      shader := DefaultKajiyaKayShader();
      samples := 0;
    }

    constructor AFMarschner()
      ensures shader == DefaultAFMarschnerShader() && samples == 0
    {
      shader := DefaultAFMarschnerShader();
      samples := 0;
    }

    /** sample: clamp the parameters in place, then shade with the clamped values; the
        intensity is never negative. */
    method Sample(m: Libm, light: Vec3, out: Vec3, normal: Vec3) returns (intensity: real)
      modifies this
      ensures shader == old(shader).Checked()
      ensures samples == old(samples) + 1
      ensures intensity == shader.Shade(m, light, out, normal)
      ensures m.Valid() || shader.AFMarschnerShader? ==> intensity >= 0.0
    {
      shader := shader.Checked();
      samples := samples + 1;
      intensity := shader.Shade(m, light, out, normal);
    }
  }
}
