/** The meshes the viewer draws: a ground quad and the BRDF hemisphere, a grid of
    shader samples over longitude and latitude closed by one apex vertex. Vertex
    normals are the averages of the face normals of the triangles around each
    vertex. */
module Meshes {
  import opened Numerics
  import opened Vectors
  import opened Shaders

  /** The largest `int` of the source. */
  const IntMax: int := 0x7fff_ffff

  const Up: Vec3 := Vec3(0.0, 1.0, 0.0)

  // ---------------------------------------------------------------------------
  // Triangles and the mesh object
  // ---------------------------------------------------------------------------

  /** glm::uvec3 as a triangle: three vertex indices. */
  datatype Tri = Tri(a: nat, b: nat, c: nat) {
    predicate Has(v: nat) {
      a == v || b == v || c == v
    }

    predicate InRange(n: nat) {
      a < n && b < n && c < n
    }

    /** How many of the three corners are vertex v. */
    function Corners(v: nat): (k: nat)
      ensures k <= 3
      ensures k > 0 <==> Has(v)
    {
      (if a == v then 1 else 0) + (if b == v then 1 else 0) + (if c == v then 1 else 0)
    }
  }

  /** Every index of every triangle is below n. */
  predicate AllInRange(tris: seq<Tri>, n: nat) {
    forall i :: 0 <= i < |tris| ==> tris[i].InRange(n)
  }

  /** std::vector::resize: the first n elements are kept, new slots hold `fill`. */
  function Resized<T>(s: seq<T>, n: nat, fill: T): (r: seq<T>)
    ensures |r| == n
    ensures forall i :: 0 <= i < n ==> r[i] == (if i < |s| then s[i] else fill)
  {
    if n <= |s| then s[..n] else s + seq(n - |s|, _ => fill)
  }

  /** Mesh: triangle indices, vertex positions and vertex normals. */
  class Mesh {
    var indices: seq<Tri>
    var vertices: seq<Vec3>
    var normals: seq<Vec3>

    constructor()
      ensures indices == [] && vertices == [] && normals == []
    {
      indices := [];
      vertices := [];
      normals := [];
    }

    method Clear()
      modifies this
      ensures indices == [] && vertices == [] && normals == []
    {
      indices := [];
      vertices := [];
      normals := [];
    }
  }

  // ---------------------------------------------------------------------------
  // updateNormals
  // ---------------------------------------------------------------------------

  /** The number of triangle corners in `tris` that are vertex v: the weight
      updateNormals divides by. */
  function CornerCount(tris: seq<Tri>, v: nat): nat {
    if tris == [] then 0 else CornerCount(tris[..|tris| - 1], v) + tris[|tris| - 1].Corners(v)
  }

  /** A vertex has a positive weight exactly when some triangle uses it. */
  lemma {:induction false} CornerCountPositive(tris: seq<Tri>, v: nat)
    ensures CornerCount(tris, v) > 0 <==> exists i :: 0 <= i < |tris| && tris[i].Has(v)
  {
    if tris != [] {
      var n := |tris| - 1;
      var prefix := tris[..n];
      CornerCountPositive(prefix, v);
      if CornerCount(tris, v) > 0 {
        if CornerCount(prefix, v) > 0 {
          var i :| 0 <= i < |prefix| && prefix[i].Has(v);
          assert tris[i] == prefix[i];
        } else {
          assert tris[n].Has(v);
        }
      } else {
        forall i | 0 <= i < |tris|
          ensures !tris[i].Has(v)
        {
          if i < n {
            assert tris[i] == prefix[i];
          }
        }
      }
    }
  }

  /** The normalised face normal of a triangle, cross(v1 - v0, v2 - v0). */
  function FaceNormal(m: Libm, verts: seq<Vec3>, t: Tri): Vec3
    requires t.InRange(|verts|)
  {
    var v0 := verts[t.a];
    Normalize(m, Cross(Sub(verts[t.b], v0), Sub(verts[t.c], v0)))
  }

  /** Adding a face normal n at each corner of t that is vertex v, corner by corner. */
  function AddAtCorners(acc: Vec3, n: Vec3, t: Tri, v: nat): Vec3 {
    var s0 := if t.a == v then Add(acc, n) else acc;
    var s1 := if t.b == v then Add(s0, n) else s0;
    if t.c == v then Add(s1, n) else s1
  }

  /** The accumulated face normals at vertex v, triangle by triangle. */
  function NormalSum(m: Libm, verts: seq<Vec3>, tris: seq<Tri>, v: nat): Vec3
    requires AllInRange(tris, |verts|)
  {
    if tris == [] then Zero
    else
      var last := tris[|tris| - 1];
      AddAtCorners(NormalSum(m, verts, tris[..|tris| - 1], v), FaceNormal(m, verts, last), last, v)
  }

  /** The vertex normal updateNormals computes: the accumulated face normals divided
      by the vertex's weight. */
  function VertexNormal(m: Libm, verts: seq<Vec3>, tris: seq<Tri>, v: nat): Vec3
    requires AllInRange(tris, |verts|)
  {
    DivScalar(m, NormalSum(m, verts, tris, v), CornerCount(tris, v) as real)
  }

  lemma AllInRangePrefix(tris: seq<Tri>, n: nat, k: nat)
    requires AllInRange(tris, n) && k <= |tris|
    ensures AllInRange(tris[..k], n)
  {
    assert forall i :: 0 <= i < k ==> tris[..k][i] == tris[i];
  }

  /** The three corner updates of one triangle in updateNormals add its face normal
      and 1 at every corner, once per corner even when corners coincide. */
  lemma AccumulateCorners(n0: seq<Vec3>, n1: seq<Vec3>, n2: seq<Vec3>, n3: seq<Vec3>,
                          w0: seq<int>, w1: seq<int>, w2: seq<int>, w3: seq<int>, t: Tri, n: Vec3)
    requires t.InRange(|n0|) && |w0| == |n0|
    requires n1 == n0[t.a := Add(n0[t.a], n)] && n2 == n1[t.b := Add(n1[t.b], n)] && n3 == n2[t.c := Add(n2[t.c], n)]
    requires w1 == w0[t.a := w0[t.a] + 1] && w2 == w1[t.b := w1[t.b] + 1] && w3 == w2[t.c := w2[t.c] + 1]
    ensures |n3| == |n0| && |w3| == |w0|
    ensures forall v :: 0 <= v < |n0| ==> n3[v] == AddAtCorners(n0[v], n, t, v)
    ensures forall v :: 0 <= v < |w0| ==> w3[v] == w0[v] + t.Corners(v)
  {
  }

  /** One more triangle adds to the sums of the prefix before it. */
  lemma AccumulateStep(m: Libm, verts: seq<Vec3>, tris: seq<Tri>, t: nat)
    requires AllInRange(tris, |verts|) && t < |tris|
    ensures AllInRange(tris[..t], |verts|) && AllInRange(tris[..t + 1], |verts|)
    ensures forall v: nat :: CornerCount(tris[..t + 1], v) == CornerCount(tris[..t], v) + tris[t].Corners(v)
    ensures forall v: nat ::
              NormalSum(m, verts, tris[..t + 1], v)
              == AddAtCorners(NormalSum(m, verts, tris[..t], v), FaceNormal(m, verts, tris[t]), tris[t], v)
  {
    AllInRangePrefix(tris, |verts|, t);
    AllInRangePrefix(tris, |verts|, t + 1);
    assert tris[..t + 1][..t] == tris[..t];
    assert tris[..t + 1][t] == tris[t];
  }

  /** updateNormals: one normal per vertex, the average of the face normals of the
      triangles at that vertex; vertices and indices are left alone. */
  method UpdateNormals(mesh: Mesh, m: Libm)
    modifies mesh
    requires AllInRange(mesh.indices, |mesh.vertices|)
    ensures mesh.vertices == old(mesh.vertices) && mesh.indices == old(mesh.indices)
    ensures |mesh.normals| == |mesh.vertices|
    ensures forall v :: 0 <= v < |mesh.normals| ==>
      mesh.normals[v] == VertexNormal(m, mesh.vertices, mesh.indices, v)
  {
    ResetNormals(mesh);
    var weights := AccumulateFaces(mesh, m);
    AverageNormals(mesh, m, weights);
  }

  /** First phase of updateNormals: as many normals as vertices, all zero. */
  method ResetNormals(mesh: Mesh)
    modifies mesh
    ensures mesh.vertices == old(mesh.vertices) && mesh.indices == old(mesh.indices)
    ensures mesh.normals == seq(|mesh.vertices|, _ => Zero)
  {
    mesh.normals := Resized(mesh.normals, |mesh.vertices|, Zero);
    var i := 0;
    while i < |mesh.normals|
      invariant 0 <= i <= |mesh.normals| == |mesh.vertices|
      invariant forall j :: 0 <= j < i ==> mesh.normals[j] == Zero
      invariant mesh.vertices == old(mesh.vertices) && mesh.indices == old(mesh.indices)
    {
      mesh.normals := mesh.normals[i := Zero];
      i := i + 1;
    }
  }

  /** Second phase of updateNormals: every triangle adds its face normal at its
      corners, and the weights count the corners at each vertex. */
  method AccumulateFaces(mesh: Mesh, m: Libm) returns (weights: seq<int>)
    modifies mesh
    requires AllInRange(mesh.indices, |mesh.vertices|)
    requires mesh.normals == seq(|mesh.vertices|, _ => Zero)
    ensures mesh.vertices == old(mesh.vertices) && mesh.indices == old(mesh.indices)
    ensures |mesh.normals| == |weights| == |mesh.vertices|
    ensures forall v :: 0 <= v < |weights| ==> weights[v] == CornerCount(mesh.indices, v)
    ensures forall v :: 0 <= v < |mesh.normals| ==>
      mesh.normals[v] == NormalSum(m, mesh.vertices, mesh.indices, v)
  {
    weights := seq(|mesh.vertices|, _ => 0);
    var t := 0;
    while t < |mesh.indices|
      invariant 0 <= t <= |mesh.indices|
      invariant |mesh.normals| == |weights| == |mesh.vertices|
      invariant mesh.vertices == old(mesh.vertices) && mesh.indices == old(mesh.indices)
      invariant forall v :: 0 <= v < |weights| ==> weights[v] == CornerCount(mesh.indices[..t], v)
      invariant forall v :: 0 <= v < |mesh.normals| ==>
        mesh.normals[v] == NormalSum(m, mesh.vertices, mesh.indices[..t], v)
    {
      weights := AddFace(mesh, m, weights, t);
      AccumulateStep(m, mesh.vertices, mesh.indices, t);
      t := t + 1;
    }
    assert mesh.indices[..t] == mesh.indices;
  }

  /** The body of the triangle loop of updateNormals for triangle t: its face normal
      is added to the normals of its three corners and their weights go up by one,
      in place. */
  method AddFace(mesh: Mesh, m: Libm, weights: seq<int>, t: nat) returns (newWeights: seq<int>)
    modifies mesh
    requires AllInRange(mesh.indices, |mesh.vertices|) && t < |mesh.indices|
    requires |mesh.normals| == |weights| == |mesh.vertices|
    ensures mesh.vertices == old(mesh.vertices) && mesh.indices == old(mesh.indices)
    ensures |mesh.normals| == |newWeights| == |mesh.vertices|
    ensures forall v :: 0 <= v < |newWeights| ==> newWeights[v] == weights[v] + mesh.indices[t].Corners(v)
    ensures forall v :: 0 <= v < |mesh.normals| ==>
      mesh.normals[v] == AddAtCorners(old(mesh.normals)[v], FaceNormal(m, mesh.vertices, mesh.indices[t]),
                                      mesh.indices[t], v)
  {
    var tri := mesh.indices[t];
    var v0 := mesh.vertices[tri.a];
    var v1 := mesh.vertices[tri.b];
    var v2 := mesh.vertices[tri.c];
    var e1 := Sub(v1, v0);
    var e2 := Sub(v2, v0);
    var n := Normalize(m, Cross(e1, e2));
    ghost var n0 := mesh.normals;
    mesh.normals := mesh.normals[tri.a := Add(mesh.normals[tri.a], n)];
    ghost var n1 := mesh.normals;
    mesh.normals := mesh.normals[tri.b := Add(mesh.normals[tri.b], n)];
    ghost var n2 := mesh.normals;
    mesh.normals := mesh.normals[tri.c := Add(mesh.normals[tri.c], n)];
    newWeights := weights[tri.a := weights[tri.a] + 1];
    ghost var w1 := newWeights;
    newWeights := newWeights[tri.b := newWeights[tri.b] + 1];
    ghost var w2 := newWeights;
    newWeights := newWeights[tri.c := newWeights[tri.c] + 1];
    AccumulateCorners(n0, n1, n2, mesh.normals, weights, w1, w2, newWeights, tri, n);
  }

  /** Last phase of updateNormals: every sum is divided by its corner count. */
  method AverageNormals(mesh: Mesh, m: Libm, weights: seq<int>)
    modifies mesh
    requires AllInRange(mesh.indices, |mesh.vertices|)
    requires |mesh.normals| == |weights| == |mesh.vertices|
    requires forall v :: 0 <= v < |weights| ==> weights[v] == CornerCount(mesh.indices, v)
    requires forall v :: 0 <= v < |mesh.normals| ==>
      mesh.normals[v] == NormalSum(m, mesh.vertices, mesh.indices, v)
    ensures mesh.vertices == old(mesh.vertices) && mesh.indices == old(mesh.indices)
    ensures |mesh.normals| == |mesh.vertices|
    ensures forall v :: 0 <= v < |mesh.normals| ==>
      mesh.normals[v] == VertexNormal(m, mesh.vertices, mesh.indices, v)
  {
    var v := 0;
    while v < |mesh.normals|
      invariant 0 <= v <= |mesh.normals| == |weights| == |mesh.vertices|
      invariant mesh.vertices == old(mesh.vertices) && mesh.indices == old(mesh.indices)
      invariant forall j :: 0 <= j < v ==> mesh.normals[j] == VertexNormal(m, mesh.vertices, mesh.indices, j)
      invariant forall j :: v <= j < |mesh.normals| ==> mesh.normals[j] == NormalSum(m, mesh.vertices, mesh.indices, j)
    {
      mesh.normals := mesh.normals[v := DivScalar(m, mesh.normals[v], weights[v] as real)];
      v := v + 1;
    }
  }

  // ---------------------------------------------------------------------------
  // createGround
  // ---------------------------------------------------------------------------

  function GroundVertices(scale: real, eps: real): seq<Vec3> {
    [Vec3(-scale, -eps, -scale), Vec3(-scale, -eps, scale),
     Vec3(scale, -eps, -scale), Vec3(scale, -eps, scale)]
  }

  function GroundTriangles(): seq<Tri> {
    [Tri(0, 1, 2), Tri(1, 3, 2)]
  }

  /** createGround: a square of half-width `scale` at height -eps, facing up. */
  method CreateGround(mesh: Mesh, scale: real, eps: real := 0.01)
    modifies mesh
    ensures mesh.vertices == GroundVertices(scale, eps)
    ensures mesh.normals == [Up, Up, Up, Up]
    ensures mesh.indices == GroundTriangles()
  {
    mesh.Clear();
    // vertices, y up
    mesh.vertices := Resized(mesh.vertices, 4, Zero);
    mesh.vertices := mesh.vertices[0 := Vec3(-scale, -eps, -scale)];
    mesh.vertices := mesh.vertices[1 := Vec3(-scale, -eps, scale)];
    mesh.vertices := mesh.vertices[2 := Vec3(scale, -eps, -scale)];
    mesh.vertices := mesh.vertices[3 := Vec3(scale, -eps, scale)];
    // normals
    mesh.normals := Resized(mesh.normals, 4, Zero);
    var i := 0;
    while i < 4
      invariant 0 <= i <= 4 && |mesh.normals| == 4
      invariant forall j :: 0 <= j < i ==> mesh.normals[j] == Up
      invariant mesh.vertices == GroundVertices(scale, eps) && mesh.indices == []
    {
      mesh.normals := mesh.normals[i := Up];
      i := i + 1;
    }
    // indices
    mesh.indices := Resized(mesh.indices, 2, Tri(0, 0, 0));
    mesh.indices := mesh.indices[0 := Tri(0, 1, 2)];
    mesh.indices := mesh.indices[1 := Tri(1, 3, 2)];
  }

  /** The ground quad: every index is one of its 4 vertices, the corner vertices 0 and
      3 belong to one triangle and the diagonal vertices 1 and 2 to both, and both
      triangles wind counterclockwise seen from above (their face normals point up). */
  lemma GroundWellFormed(scale: real, eps: real)
    requires scale != 0.0
    ensures AllInRange(GroundTriangles(), 4)
    ensures CornerCount(GroundTriangles(), 0) == 1 && CornerCount(GroundTriangles(), 1) == 2
    ensures CornerCount(GroundTriangles(), 2) == 2 && CornerCount(GroundTriangles(), 3) == 1
    ensures forall i :: 0 <= i < 2 ==>
      var t := GroundTriangles()[i];
      var vs := GroundVertices(scale, eps);
      var n := Cross(Sub(vs[t.b], vs[t.a]), Sub(vs[t.c], vs[t.a]));
      n.x == 0.0 && n.y > 0.0 && n.z == 0.0
  {
    var ts := GroundTriangles();
    assert ts[..1] == [Tri(0, 1, 2)] && ts[..1][..0] == [];
    assert scale * scale > 0.0 by {
      if scale > 0.0 { MulPositive(scale, scale); } else { MulPositive(-scale, -scale); }
    }
  }

  // ---------------------------------------------------------------------------
  // createBRDFMesh
  // ---------------------------------------------------------------------------

  /** n_theta: a quarter of n_phi (integer division), at least 1. */
  function NTheta(nPhi: nat): (n: nat)
    ensures n >= 1
    ensures nPhi >= 4 ==> 4 * n <= nPhi < 4 * n + 4
    ensures nPhi < 4 ==> n == 1
  {
    if nPhi / 4 < 1 then 1 else nPhi / 4
  }

  /** glm::mat3(rot) by its columns: the rotation that takes (0, 1, 0) to the up
      direction. */
  datatype Mat3 = Mat3(c0: Vec3, c1: Vec3, c2: Vec3)

  /** Matrix times column vector. */
  function Apply(r: Mat3, v: Vec3): Vec3 {
    Add(Add(Scale(r.c0, v.x), Scale(r.c1, v.y)), Scale(r.c2, v.z))
  }

  /** The rotated sample position of grid vertex (iPhi, iTheta): longitude
      2 pi iPhi / nPhi and latitude (pi / 2) iTheta / nTheta on a sphere of radius
      `scale`. */
  function GridPos(m: Libm, rot: Mat3, scale: real, nPhi: nat, nTheta: nat, iPhi: nat, iTheta: nat): Vec3
    requires nPhi > 0 && nTheta > 0
  {
    var phiRad := 2.0 * Pi * (iPhi as real) / (nPhi as real);
    var thetaRad := 0.5 * Pi * (iTheta as real) / (nTheta as real);
    var x := scale * m.cos(thetaRad) * m.sin(phiRad);
    var y := scale * m.sin(thetaRad);
    var z := scale * m.cos(thetaRad) * m.cos(phiRad);
    Apply(rot, Vec3(x, y, z))
  }

  /** The rotated position of the apex, straight above the centre. */
  function ApexPos(rot: Mat3, scale: real): Vec3 {
    Apply(rot, Vec3(0.0, scale, 0.0))
  }

  /** A stored vertex: the sample position scaled by the intensity the shader returns
      for it. */
  function Sampled(m: Libm, s: Shader, lightDir: Vec3, upDir: Vec3, pos: Vec3): Vec3 {
    Scale(pos, s.Shade(m, lightDir, pos, upDir))
  }

  /** The triangles of grid cell (iPhi, iTheta): two below the top row, one apex
      triangle in the top row. Column iPhi is joined to column (iPhi + 1) % nPhi. */
  function CellTriangles(nPhi: nat, nTheta: nat, iPhi: nat, iTheta: nat): (r: seq<Tri>)
    requires nPhi > 0
    ensures |r| == if iTheta + 1 != nTheta then 2 else 1
    ensures r[0].a == iPhi * nTheta + iTheta
    ensures iTheta + 1 == nTheta ==> r[0].c == nPhi * nTheta
  {
    var iPhi2 := (iPhi + 1) % nPhi;
    var iTheta2 := iTheta + 1;
    if iTheta2 != nTheta then
      var idx0 := iPhi * nTheta + iTheta;
      var idx1 := iPhi2 * nTheta + iTheta;
      var idx2 := iPhi * nTheta + iTheta2;
      var idx3 := iPhi2 * nTheta + iTheta2;
      [Tri(idx0, idx1, idx2), Tri(idx1, idx3, idx2)]
    else
      var idx0 := iPhi * nTheta + iTheta;
      var idx1 := iPhi2 * nTheta + iTheta;
      [Tri(idx0, idx1, nPhi * nTheta)]
  }

  /** The triangles of the first k cells of column iPhi. */
  function ColumnTriangles(nPhi: nat, nTheta: nat, iPhi: nat, k: nat): seq<Tri>
    requires nPhi > 0
  {
    if k == 0 then [] else ColumnTriangles(nPhi, nTheta, iPhi, k - 1) + CellTriangles(nPhi, nTheta, iPhi, k - 1)
  }

  /** The triangles of the first k columns. */
  function GridTriangles(nPhi: nat, nTheta: nat, k: nat): seq<Tri>
    requires nPhi > 0
  {
    if k == 0 then [] else GridTriangles(nPhi, nTheta, k - 1) + ColumnTriangles(nPhi, nTheta, k - 1, nTheta)
  }

  /** All triangles of the hemisphere with nPhi columns. */
  function BRDFTriangles(nPhi: nat): seq<Tri> {
    if nPhi == 0 then [] else GridTriangles(nPhi, NTheta(nPhi), nPhi)
  }

  /** A grid index decodes back to its column and row. */
  lemma GridIndexDivMod(iPhi: nat, iTheta: nat, nTheta: nat)
    requires iTheta < nTheta
    ensures (iPhi * nTheta + iTheta) / nTheta == iPhi
    ensures (iPhi * nTheta + iTheta) % nTheta == iTheta
  {
    var k := iPhi * nTheta + iTheta;
    var q := k / nTheta;
    var r := k % nTheta;
    assert k == q * nTheta + r;
    assert (iPhi - q) * nTheta == r - iTheta;
    if iPhi > q {
      assert (iPhi - q) * nTheta >= nTheta by { MulAtLeast(iPhi - q, nTheta); }
    } else if iPhi < q {
      assert (q - iPhi) * nTheta >= nTheta by { MulAtLeast(q - iPhi, nTheta); }
    }
  }

  lemma MulAtLeast(a: int, b: nat)
    requires a >= 1
    ensures a * b >= b
  {
    assert a * b == (a - 1) * b + b;
    assert (a - 1) * b >= 0;
  }

  /** The column and the row of index k in a grid of columns of nTheta vertices. */
  function Column(nTheta: nat, k: nat): nat
    requires nTheta > 0
  {
    k / nTheta
  }

  function Row(nTheta: nat, k: nat): nat
    requires nTheta > 0
  {
    k % nTheta
  }

  /** The index iPhi nTheta + iTheta of grid vertex (iPhi, iTheta) of an nPhi x nTheta
      grid: below nPhi nTheta, and it decodes back to its column and row, so
      different grid vertices have different indices. */
  function GridIndex(nPhi: nat, nTheta: nat, iPhi: nat, iTheta: nat): (k: nat)
    requires iPhi < nPhi && iTheta < nTheta
    ensures k < nPhi * nTheta
    ensures Column(nTheta, k) == iPhi && Row(nTheta, k) == iTheta
  {
    GridIndexBound(iPhi, iTheta, nPhi, nTheta);
    GridIndexDivMod(iPhi, iTheta, nTheta);
    iPhi * nTheta + iTheta
  }

  /** Every index below nPhi nTheta is the index of the grid vertex at its column and
      row: together with GridIndex's contract, the grid vertices and the indices
      0 .. nPhi nTheta - 1 correspond one to one. */
  lemma GridIndexSurjective(nPhi: nat, nTheta: nat)
    requires nTheta > 0
    ensures forall k: nat :: k < nPhi * nTheta ==>
      Column(nTheta, k) < nPhi && Row(nTheta, k) < nTheta && GridIndex(nPhi, nTheta, Column(nTheta, k), Row(nTheta, k)) == k
  {
    forall k: nat | k < nPhi * nTheta
      ensures Column(nTheta, k) < nPhi && Row(nTheta, k) < nTheta && GridIndex(nPhi, nTheta, Column(nTheta, k), Row(nTheta, k)) == k
    {
      ColumnInGrid(nPhi, nTheta, k);
    }
  }

  lemma ColumnInGrid(nPhi: nat, nTheta: nat, k: nat)
    requires nTheta > 0 && k < nPhi * nTheta
    ensures k / nTheta < nPhi
  {
    var q := k / nTheta;
    if q >= nPhi {
      assert q * nTheta >= nPhi * nTheta by { MulMonotone(nPhi, q, nTheta); }
    }
  }

  lemma GridIndexBound(iPhi: nat, iTheta: nat, nPhi: nat, nTheta: nat)
    requires iPhi < nPhi && iTheta < nTheta
    ensures iPhi * nTheta + iTheta < nPhi * nTheta
  {
    MulMonotone(iPhi + 1, nPhi, nTheta);
    assert (iPhi + 1) * nTheta == iPhi * nTheta + nTheta;
  }

  lemma MulMonotone(a: nat, b: nat, c: nat)
    requires a <= b
    ensures a * c <= b * c
  {
    assert b * c == a * c + (b - a) * c;
    assert (b - a) * c >= 0;
  }

  /** The last column is joined to column 0. */
  lemma PhiWraps(nPhi: nat, nTheta: nat, iTheta: nat)
    requires nPhi > 0
    ensures CellTriangles(nPhi, nTheta, nPhi - 1, iTheta)[0].b == iTheta
  {
  }

  /** n_phi (2 n_theta - 1) triangles: 2 per cell below the top row and one apex
      triangle per column. */
  lemma BRDFTriangleCount(nPhi: nat)
    ensures |BRDFTriangles(nPhi)| == nPhi * (2 * NTheta(nPhi) - 1)
  {
    if nPhi > 0 {
      GridTriangleCount(nPhi, NTheta(nPhi), nPhi);
    }
  }

  lemma {:induction false} ColumnTriangleCount(nPhi: nat, nTheta: nat, iPhi: nat, k: nat)
    requires nPhi > 0 && k <= nTheta
    ensures |ColumnTriangles(nPhi, nTheta, iPhi, k)| == if k == nTheta && k > 0 then 2 * k - 1 else 2 * k
  {
    if k > 0 {
      ColumnTriangleCount(nPhi, nTheta, iPhi, k - 1);
    }
  }

  lemma {:induction false} GridTriangleCount(nPhi: nat, nTheta: nat, k: nat)
    requires nPhi > 0 && nTheta > 0
    ensures |GridTriangles(nPhi, nTheta, k)| == k * (2 * nTheta - 1)
  {
    if k > 0 {
      GridTriangleCount(nPhi, nTheta, k - 1);
      ColumnTriangleCount(nPhi, nTheta, k - 1, nTheta);
      assert k * (2 * nTheta - 1) == (k - 1) * (2 * nTheta - 1) + (2 * nTheta - 1);
    }
  }

  /** The triangles of a cell in column iPhi < nPhi and row iTheta < nTheta index
      vertices of the grid or the apex. */
  lemma CellInRange(nPhi: nat, nTheta: nat, iPhi: nat, iTheta: nat)
    requires nPhi > 0 && iPhi < nPhi && iTheta < nTheta
    ensures AllInRange(CellTriangles(nPhi, nTheta, iPhi, iTheta), nPhi * nTheta + 1)
  {
    var iPhi2 := (iPhi + 1) % nPhi;
    GridIndexBound(iPhi, iTheta, nPhi, nTheta);
    GridIndexBound(iPhi2, iTheta, nPhi, nTheta);
    if iTheta + 1 != nTheta {
      GridIndexBound(iPhi, iTheta + 1, nPhi, nTheta);
      GridIndexBound(iPhi2, iTheta + 1, nPhi, nTheta);
    }
  }

  lemma {:induction false} ColumnInRange(nPhi: nat, nTheta: nat, iPhi: nat, k: nat)
    requires nPhi > 0 && iPhi < nPhi && k <= nTheta
    ensures AllInRange(ColumnTriangles(nPhi, nTheta, iPhi, k), nPhi * nTheta + 1)
  {
    if k > 0 {
      ColumnInRange(nPhi, nTheta, iPhi, k - 1);
      CellInRange(nPhi, nTheta, iPhi, k - 1);
      AllInRangeConcat(ColumnTriangles(nPhi, nTheta, iPhi, k - 1), CellTriangles(nPhi, nTheta, iPhi, k - 1), nPhi * nTheta + 1);
    }
  }

  lemma {:induction false} GridInRange(nPhi: nat, nTheta: nat, k: nat)
    requires nPhi > 0 && k <= nPhi
    ensures AllInRange(GridTriangles(nPhi, nTheta, k), nPhi * nTheta + 1)
  {
    if k > 0 {
      GridInRange(nPhi, nTheta, k - 1);
      ColumnInRange(nPhi, nTheta, k - 1, nTheta);
      AllInRangeConcat(GridTriangles(nPhi, nTheta, k - 1), ColumnTriangles(nPhi, nTheta, k - 1, nTheta), nPhi * nTheta + 1);
    }
  }

  lemma AllInRangeConcat(s: seq<Tri>, t: seq<Tri>, n: nat)
    requires AllInRange(s, n) && AllInRange(t, n)
    ensures AllInRange(s + t, n)
  {
    forall i | 0 <= i < |s + t|
      ensures (s + t)[i].InRange(n)
    {
      if i >= |s| {
        assert (s + t)[i] == t[i - |s|];
      }
    }
  }

  /** Every index of the hemisphere's triangles is a vertex: below n_phi n_theta + 1. */
  lemma BRDFIndicesInRange(nPhi: nat)
    ensures AllInRange(BRDFTriangles(nPhi), nPhi * NTheta(nPhi) + 1)
  {
    if nPhi > 0 {
      GridInRange(nPhi, NTheta(nPhi), nPhi);
    }
  }

  lemma {:induction false} ColumnHasCell(nPhi: nat, nTheta: nat, iPhi: nat, k: nat, iTheta: nat)
    requires nPhi > 0 && iTheta < k
    ensures CellTriangles(nPhi, nTheta, iPhi, iTheta)[0] in ColumnTriangles(nPhi, nTheta, iPhi, k)
  {
    if iTheta < k - 1 {
      ColumnHasCell(nPhi, nTheta, iPhi, k - 1, iTheta);
    }
  }

  lemma {:induction false} GridHasColumn(nPhi: nat, nTheta: nat, k: nat, iPhi: nat, t: Tri)
    requires nPhi > 0 && iPhi < k
    requires t in ColumnTriangles(nPhi, nTheta, iPhi, nTheta)
    ensures t in GridTriangles(nPhi, nTheta, k)
  {
    if iPhi < k - 1 {
      GridHasColumn(nPhi, nTheta, k - 1, iPhi, t);
    }
  }

  lemma TriangleInWeight(tris: seq<Tri>, t: Tri, v: nat)
    requires t in tris && t.Has(v)
    ensures CornerCount(tris, v) > 0
  {
    var i :| 0 <= i < |tris| && tris[i] == t;
    CornerCountPositive(tris, v);
  }

  /** With at least one column every vertex, the apex included, belongs to some
      triangle, so no weight of updateNormals is 0. */
  lemma BRDFEveryVertexReferenced(nPhi: nat)
    requires nPhi >= 1
    ensures forall v: nat :: v < nPhi * NTheta(nPhi) + 1 ==> CornerCount(BRDFTriangles(nPhi), v) > 0
  {
    var nTheta := NTheta(nPhi);
    var tris := BRDFTriangles(nPhi);
    GridIndexSurjective(nPhi, nTheta);
    forall v: nat | v < nPhi * nTheta + 1
      ensures CornerCount(tris, v) > 0
    {
      if v < nPhi * nTheta {
        var iPhi, iTheta := Column(nTheta, v), Row(nTheta, v);
        assert iPhi < nPhi && iTheta < nTheta && GridIndex(nPhi, nTheta, iPhi, iTheta) == v;
        var t := CellTriangles(nPhi, nTheta, iPhi, iTheta)[0];
        ColumnHasCell(nPhi, nTheta, iPhi, nTheta, iTheta);
        GridHasColumn(nPhi, nTheta, nPhi, iPhi, t);
        TriangleInWeight(tris, t, v);
      } else {
        var t := CellTriangles(nPhi, nTheta, 0, nTheta - 1)[0];
        ColumnHasCell(nPhi, nTheta, 0, nTheta, nTheta - 1);
        GridHasColumn(nPhi, nTheta, nPhi, 0, t);
        TriangleInWeight(tris, t, v);
      }
    }
  }

  /** The vertex loop of createBRDFMesh: sample the shader at every grid position and
      store the position scaled by the intensity at the vertex's grid index. The
      vertices have room for the apex, which is left for the caller. */
  method SampleGrid(mesh: Mesh, shader: BaseShader, m: Libm, rot: Mat3, lightDir: Vec3,
                    scale: real, nPhi: nat, nTheta: nat, upDir: Vec3)
    modifies mesh, shader
    requires nTheta >= 1
    ensures |mesh.vertices| == nPhi * nTheta + 1
    ensures forall k: nat :: 0 < nPhi && k < nPhi * nTheta ==>
      mesh.vertices[k] == Sampled(m, old(shader.shader).Checked(), lightDir, upDir,
                                  GridPos(m, rot, scale, nPhi, nTheta, Column(nTheta, k), Row(nTheta, k)))
    ensures mesh.indices == old(mesh.indices) && mesh.normals == old(mesh.normals)
    ensures shader.shader.Checked() == old(shader.shader).Checked()
    ensures nPhi > 0 ==> shader.shader == old(shader.shader).Checked()
    ensures shader.samples == old(shader.samples) + nPhi * nTheta
  {
    ghost var s := old(shader.shader).Checked();
    mesh.vertices := Resized(mesh.vertices, nPhi * nTheta + 1, Zero);
    var iPhi := 0;
    while iPhi < nPhi
      invariant 0 <= iPhi <= nPhi && iPhi * nTheta <= nPhi * nTheta
      invariant |mesh.vertices| == nPhi * nTheta + 1
      invariant mesh.indices == old(mesh.indices) && mesh.normals == old(mesh.normals)
      invariant shader.shader.Checked() == s
      invariant iPhi > 0 ==> shader.shader == s
      invariant shader.samples == old(shader.samples) + iPhi * nTheta
      invariant forall k: nat :: 0 < nPhi && k < iPhi * nTheta ==>
        mesh.vertices[k] == Sampled(m, s, lightDir, upDir, GridPos(m, rot, scale, nPhi, nTheta, Column(nTheta, k), Row(nTheta, k)))
    {
      var iTheta := 0;
      while iTheta < nTheta
        invariant 0 <= iTheta <= nTheta && iPhi * nTheta + iTheta <= nPhi * nTheta
        invariant |mesh.vertices| == nPhi * nTheta + 1
        invariant mesh.indices == old(mesh.indices) && mesh.normals == old(mesh.normals)
        invariant shader.shader.Checked() == s
        invariant iPhi > 0 || iTheta > 0 ==> shader.shader == s
        invariant shader.samples == old(shader.samples) + iPhi * nTheta + iTheta
        invariant forall k: nat :: k < iPhi * nTheta + iTheta ==>
          mesh.vertices[k] == Sampled(m, s, lightDir, upDir, GridPos(m, rot, scale, nPhi, nTheta, Column(nTheta, k), Row(nTheta, k)))
      {
        var pos := GridPos(m, rot, scale, nPhi, nTheta, iPhi, iTheta);
        var intensity := shader.Sample(m, lightDir, pos, upDir);
        mesh.vertices := mesh.vertices[GridIndex(nPhi, nTheta, iPhi, iTheta) := Scale(pos, intensity)];
        iTheta := iTheta + 1;
      }
      assert (iPhi + 1) * nTheta == iPhi * nTheta + nTheta;
      MulMonotone(iPhi + 1, nPhi, nTheta);
      iPhi := iPhi + 1;
    }
  }

  lemma ConcatAssoc(a: seq<Tri>, b: seq<Tri>, c: seq<Tri>)
    ensures (a + b) + c == a + (b + c)
  {
  }

  /** The body of the inner loop of createBRDFMesh for cell (iPhi, iTheta): appends the cell's triangles. */
  method AddCell(mesh: Mesh, nPhi: nat, nTheta: nat, iPhi: nat, iPhi2: nat, iTheta: nat)
    modifies mesh
    requires nPhi > 0 && iPhi2 == (iPhi + 1) % nPhi
    ensures mesh.indices == old(mesh.indices) + CellTriangles(nPhi, nTheta, iPhi, iTheta)
    ensures mesh.vertices == old(mesh.vertices) && mesh.normals == old(mesh.normals)
  {
    var iTheta2 := iTheta + 1;
    if iTheta2 != nTheta {
      var idx0 := iPhi * nTheta + iTheta;
      var idx1 := iPhi2 * nTheta + iTheta;
      var idx2 := iPhi * nTheta + iTheta2;
      var idx3 := iPhi2 * nTheta + iTheta2;
      mesh.indices := mesh.indices + [Tri(idx0, idx1, idx2)];
      mesh.indices := mesh.indices + [Tri(idx1, idx3, idx2)];
    } else {
      // top
      var idx0 := iPhi * nTheta + iTheta;
      var idx1 := iPhi2 * nTheta + iTheta;
      var idx2 := nPhi * nTheta;
      mesh.indices := mesh.indices + [Tri(idx0, idx1, idx2)];
    }
  }

  /** The index loop of createBRDFMesh: append the triangles of every cell, column by
      column. */
  method RegisterIndices(mesh: Mesh, nPhi: nat, nTheta: nat)
    modifies mesh
    requires nTheta == NTheta(nPhi) && mesh.indices == []
    ensures mesh.indices == BRDFTriangles(nPhi)
    ensures mesh.vertices == old(mesh.vertices) && mesh.normals == old(mesh.normals)
  {
    var iPhi := 0;
    while iPhi < nPhi
      invariant 0 <= iPhi <= nPhi
      invariant mesh.vertices == old(mesh.vertices) && mesh.normals == old(mesh.normals)
      invariant nPhi > 0 ==> mesh.indices == GridTriangles(nPhi, nTheta, iPhi)
      invariant nPhi == 0 ==> mesh.indices == []
    {
      var iPhi2 := (iPhi + 1) % nPhi;
      var iTheta := 0;
      while iTheta < nTheta
        invariant 0 <= iTheta <= nTheta
        invariant mesh.vertices == old(mesh.vertices) && mesh.normals == old(mesh.normals)
        invariant mesh.indices == GridTriangles(nPhi, nTheta, iPhi) + ColumnTriangles(nPhi, nTheta, iPhi, iTheta)
      {
        AddCell(mesh, nPhi, nTheta, iPhi, iPhi2, iTheta);
        ConcatAssoc(GridTriangles(nPhi, nTheta, iPhi), ColumnTriangles(nPhi, nTheta, iPhi, iTheta),
                    CellTriangles(nPhi, nTheta, iPhi, iTheta));
        iTheta := iTheta + 1;
      }
      iPhi := iPhi + 1;
    }
  }

  /** The vertex phase of createBRDFMesh: the grid, then the apex at index
      n_phi * n_theta, each sample position scaled by its intensity; sample is
      called n_phi * n_theta + 1 times. */
  method SampleVertices(mesh: Mesh, shader: BaseShader, m: Libm, rot: Mat3, lightDir: Vec3,
                        scale: real, nPhi: nat, nTheta: nat, upDir: Vec3)
    modifies mesh, shader
    requires nTheta >= 1
    ensures |mesh.vertices| == nPhi * nTheta + 1
    ensures forall iPhi: nat, iTheta: nat :: iPhi < nPhi && iTheta < nTheta ==>
      mesh.vertices[GridIndex(nPhi, nTheta, iPhi, iTheta)]
      == Sampled(m, old(shader.shader).Checked(), lightDir, upDir, GridPos(m, rot, scale, nPhi, nTheta, iPhi, iTheta))
    ensures mesh.vertices[nPhi * nTheta]
      == Sampled(m, old(shader.shader).Checked(), lightDir, upDir, ApexPos(rot, scale))
    ensures mesh.indices == old(mesh.indices) && mesh.normals == old(mesh.normals)
    ensures shader.shader == old(shader.shader).Checked()
    ensures shader.samples == old(shader.samples) + nPhi * nTheta + 1
  {
    SampleGrid(mesh, shader, m, rot, lightDir, scale, nPhi, nTheta, upDir);
    // the top one
    var topPos := ApexPos(rot, scale);
    var intensity := shader.Sample(m, lightDir, topPos, upDir);
    mesh.vertices := mesh.vertices[nPhi * nTheta := Scale(topPos, intensity)];
  }

  /** createBRDFMesh: the hemisphere of shader intensities for the light at
      `lightPos`, with the sphere's pole along the up direction (`rot` is the rotation
      glm::orientation builds from up_dir). */
  method CreateBRDFMesh(mesh: Mesh, shader: BaseShader, m: Libm, rot: Mat3, lightPos: Vec3,
                        scale: real, nPhi: int, upDir: Vec3 := Up)
    modifies mesh, shader
    requires nPhi >= 0
    requires nPhi * NTheta(nPhi) + 1 <= IntMax
    ensures var nTheta := NTheta(nPhi);
      && |mesh.vertices| == nPhi * nTheta + 1
      && (forall iPhi: nat, iTheta: nat :: iPhi < nPhi && iTheta < nTheta ==>
            mesh.vertices[GridIndex(nPhi, nTheta, iPhi, iTheta)]
            == Sampled(m, old(shader.shader).Checked(), Normalize(m, lightPos), upDir,
                       GridPos(m, rot, scale, nPhi, nTheta, iPhi, iTheta)))
      && mesh.vertices[nPhi * nTheta]
         == Sampled(m, old(shader.shader).Checked(), Normalize(m, lightPos), upDir, ApexPos(rot, scale))
    ensures mesh.indices == BRDFTriangles(nPhi)
    ensures AllInRange(mesh.indices, |mesh.vertices|)
    ensures |mesh.normals| == |mesh.vertices|
    ensures forall v :: 0 <= v < |mesh.normals| ==>
      mesh.normals[v] == VertexNormal(m, mesh.vertices, mesh.indices, v)
    ensures shader.shader == old(shader.shader).Checked()
    ensures shader.samples == old(shader.samples) + nPhi * NTheta(nPhi) + 1
  {
    mesh.Clear();
    var lightDir := Normalize(m, lightPos);
    var nTheta := NTheta(nPhi);

    // vertices
    SampleVertices(mesh, shader, m, rot, lightDir, scale, nPhi, nTheta, upDir);
    // register indices
    RegisterIndices(mesh, nPhi, nTheta);
    BRDFIndicesInRange(nPhi);
    // normals
    UpdateNormals(mesh, m);
  }
}
