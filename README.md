# brdfview shading and mesh core in Dafny

brdfview renders a BRDF as a shape. It samples a shading model over a hemisphere of
out-directions and scales each sample position by the returned intensity. It then
turns the samples into a triangle mesh with per-vertex normals. This project models
the two pieces that carry that logic and proves their properties.

- **The shading evaluators.** These are the Blinn-style specular shader, the
  Kajiya–Kay fibre shader and the Marschner hair shader. The Marschner shader has
  several parts:
  - the angle decomposition;
  - the azimuthal root solve per scattering mode: closed form for R, bisection for
    TT and TRT;
  - the Fresnel, absorption and Jacobian terms;
  - the Gaussian longitudinal lobes and the clamped normalisation scale.
- **The mesh builders.** These are `Mesh` with `clear`, `updateNormals`,
  `createGround` and `createBRDFMesh`.

The model works over `real`. The math library (sin, cos, asin, acos, sqrt, exp, pow,
atan2, and division by a possibly zero value) is a parameter `m: Libm`. The proofs use
only the range facts in `Libm.Valid` (for example `sqrt(x) >= 0` and
`atan2 ∈ [-π, π]`). Most non-negativity results hold under `m.Valid()`. The clamps,
counts, index arithmetic and state changes hold for any `m`.

Modules, in dependency order:

| module | file | contents |
|---|---|---|
| `Numerics` | numerics.dfy | `Libm`, π, `Max`/`Min`/`Abs`, small real-arithmetic lemmas |
| `Vectors` | vectors.dfy | `Vec3` with the glm operations used (add, dot, cross, reflect, normalize) |
| `HairParams` | hair_params.dfy | `degToRad` and the `AFMarschnerHairParams` defaults |
| `RootSolver` | root_solver.dfy | `sign`, `ClampUnitAbs`, `binsearch` and `h_`: the bisection as a function, the loop as a method proved against it, and the solution buffer written in place |
| `Marschner` | marschner.dfy | `Fresnel`, `F_`, `A_`, `dphi_dh_inv_`, `N_p_` (a loop over the solution buffer), `gaussian`, `AFMarschner`, `local_spherical`, `findAngles` |
| `Shaders` | shaders.dfy | the three `sample` bodies, the `Shader` datatype (one arm per subclass) and the class `BaseShader`, whose `Sample` clamps its parameters in place |
| `Meshes` | mesh.dfy | `Mesh` as a class with three `seq` fields, `updateNormals`, `createGround`, `createBRDFMesh` and their index arithmetic |

## Model

| member | source | states |
|---|---|---|
| HairParams.DegToRad | src/shader.h:42 | r·180 = x·π, so r = x·π/180; r is positive exactly when x is |
| HairParams.DefaultHairParams | src/shader.h:43-63 | the R shift is degToRad(−7.5) and the R width degToRad(7.5); the TT shift is −R/2 and its width R/2; the TRT shift is −3R/2 and its width 2R; all three widths are strictly positive; the intensities are 5, 0.5, 0.5; eta = 1.55, sigma_a = 0.2, thickness = 0.2 |
| RootSolver.Sign | src/shader.cpp:74-76 | the result is exactly one of −1, 0, 1; it is 1 iff x > 0 and −1 iff x < 0 |
| RootSolver.ClampUnitAbs | src/shader.cpp:70-72 | the result lies in [−1, 1]; inputs inside are unchanged and inputs outside go to the nearer bound |
| RootSolver.HalveShrinks | src/shader.cpp:87-93 | one bisection step replaces exactly one endpoint by the midpoint, stays inside the old interval and halves the width |
| RootSolver.Steps | src/shader.cpp:87 | the bisection from step i takes at most 28 − i more steps |
| RootSolver.BisectInside | src/shader.cpp:87-93 | the final interval of the bisection lies inside the starting one (nested intervals) |
| RootSolver.HalvedHalf | src/shader.cpp:88 | halving k times commutes with one halving |
| RootSolver.HalvedMonotone | src/shader.cpp:88 | halving k times preserves ≤ between widths |
| RootSolver.BisectHalves | src/shader.cpp:87-93 | the final width is the starting width halved once per step taken |
| RootSolver.BisectStopsEarly | src/shader.cpp:87 | if the loop stops before the 28-step cap, the width is at most 1e-7 |
| RootSolver.TwoHalvedAtCap | src/shader.cpp:87 | 28 halvings of width 2 come below 1e-7 |
| RootSolver.BisectConverges | src/shader.cpp:87-93 | every start interval of width ≤ 2 ends with width ≤ 1e-7, so the 28-step cap never stops such a search |
| RootSolver.TransmissionConverges | src/shader.cpp:105 | the p = 1 search over [−1, 1] always ends within 1e-7 |
| RootSolver.SymmetricConverges | src/shader.cpp:108-114 | when localmin = sqrt(4 − η′²)/sqrt(3) lies in [0, 1] (with the real sqrt, 1 ≤ η′ ≤ 2), all three p = 2 searches end within 1e-7 |
| RootSolver.BisectKeepsBracket | src/shader.cpp:89-92 | if the objective has opposite signs at the endpoints, in the orientation `decreasing` names, every later interval keeps them |
| RootSolver.SignChange | src/shader.cpp:86 | sign(f(lo))·sign(f(hi)) < 0 holds iff the endpoint values are strictly of opposite sign |
| RootSolver.RootIn | src/shader.cpp:86-95 | at most one root is produced; exactly one iff the endpoint signs strictly differ; the root lies in the original interval |
| RootSolver.RootInBracketed | src/shader.cpp:86-94 | for a correctly oriented sign change, the stored root is the midpoint of a final interval that still brackets a sign change |
| RootSolver.BisectStep | src/shader.cpp:87-93 | proof helper for the loop of `binsearch`: a step that passes the loop guard continues from the halved interval |
| RootSolver.BisectDone | src/shader.cpp:87 | proof helper for the loop guard of `binsearch`: a failed loop guard leaves the interval as it is |
| RootSolver.RootInFound | src/shader.cpp:94 | proof helper for `h[num_of_solutions] = (retmin + retmax) / 2`: on a sign change, the root is the midpoint of the bisection's result |
| RootSolver.Narrow | src/shader.cpp:87-93 | the loop's final (retmin, retmax) is the bisection of the starting interval |
| RootSolver.BinSearch | src/shader.cpp:78-96 | the count grows by 1 exactly when RootIn finds a root, and by 0 otherwise; only slot `numSolutions` of h is written, and it receives that root; nothing is written without a sign change |
| RootSolver.Roots | src/shader.cpp:98-118 | 1 solution sin(−phi/2) for p=0; 0 or 1 solutions in [−1, 1] for p=1; at most 3 solutions overall; none for any other p |
| RootSolver.SymmetricRoots | src/shader.cpp:108-114 | the three bracketed searches of p=2 give at most 3 solutions |
| RootSolver.PieceRoots | src/shader.cpp:110-113 | the searches over [−1, −e], [−e, e] and [e, 1] yield at most 3 roots, in that order |
| RootSolver.StoreRoot | src/shader.cpp:94 | storing a found root at the next free slot extends the stored prefix by it and keeps the rest of the buffer |
| RootSolver.StoreThree | src/shader.cpp:110-113 | three successive searches leave their roots, in order, as the buffer prefix and keep the rest |
| RootSolver.H | src/shader.cpp:98-118 | returns the number of solutions of `Roots`, writes them as the prefix of h and leaves the other slots alone; it needs only as many slots as `Roots` has, so the 3-slot buffer of `N_p_` always suffices |
| RootSolver.SymmetricH | src/shader.cpp:108-114 | the p=2 branch writes the `SymmetricRoots` solutions as the prefix of h and leaves the rest alone |
| Marschner.Fresnel | src/shader.cpp:120-126 | the reflectance lies in [0, 1]; min caps it at 1 and the square keeps it non-negative |
| Marschner.MeanFresnel | src/shader.cpp:128-132 | the mean of the two Fresnel terms lies in [0, 1] |
| Marschner.Transmittance | src/shader.cpp:139-140 | the absorption factor exp(…) is positive, and at most 1 for a non-negative absorption coefficient |
| Marschner.ExponentNonPositive | src/shader.cpp:139-140 | proof helper for the exponent of exp(…): −2σa/cos θd times a non-negative 1 + cos(2γt) is ≤ 0 for σa ≥ 0 and a cosine floored above 0 |
| Marschner.Attenuation | src/shader.cpp:134-148 | A lies in [0, 1] for p=0; it is ≥ 0 for every p, and ≤ 1 when sigma_a ≥ 0 |
| Marschner.AttenuationBounds | src/shader.cpp:146 | proof helper for (1−F)²·T (p = 1) and (1−F)²·F_inv·T² (p ≥ 2): for F, F_inv ∈ [0, 1] and T > 0 the product is ≥ 0, and ≤ 1 once T ≤ 1 |
| Marschner.DphiDhInv | src/shader.cpp:150-162 | the inverse Jacobian is non-negative for every mode, with the divisor floored at 1e-20 |
| Marschner.QuotientNonNegative | src/shader.cpp:160 | proof helper for the quotient of `dphi_dh_inv_`: a·b / d is ≥ 0 for a, b ≥ 0 and d > 0 |
| Marschner.Contribution | src/shader.cpp:185 | the summand A·(dphi/dh)⁻¹·0.5 is ≥ 0 for non-negative factors |
| Marschner.ContributionProduct | src/shader.cpp:185 | proof helper for A·(dphi/dh)⁻¹·0.5: the summand is that product |
| Marschner.RootTerm | src/shader.cpp:179-185 | each root's contribution to N_p is ≥ 0 |
| Marschner.RootTermSteps | src/shader.cpp:179-185 | proof helper for the loop body of `N_p_`: a root's contribution is A·(dphi/dh)⁻¹·0.5, with A and the Jacobian taken at γi = asin(h) and γt = asin(h/η′) |
| Marschner.Np | src/shader.cpp:165-194 | the loop over the solution buffer returns the sum of the root terms of `Roots` (ModeN) |
| Marschner.SumTermsNonNegative | src/shader.cpp:177-192 | a sum of root terms is ≥ 0 |
| Marschner.ModeNNonNegative | src/shader.cpp:165-194 | every mode term N_p is ≥ 0 |
| Marschner.ModeNReflection | src/shader.cpp:165-194 | the R mode term is the single root term at h = sin(−phi/2) |
| Marschner.Gaussian | src/shader.cpp:196-199 | the lobe is positive for a positive width |
| Marschner.GaussianSymmetric | src/shader.cpp:196-199 | the lobe is symmetric about its mean |
| Marschner.ClampedLobe | src/shader.cpp:229-230 | max(I·M·N, 0) is ≥ 0 and ≥ I·M·N; it is one of the two; it equals I·M·N when every factor is ≥ 0 |
| Marschner.LobeNonNegative | src/shader.cpp:229 | proof helper for I·M·N of one lobe: the product of non-negative factors is ≥ 0 |
| Marschner.Lobes.Normalised | src/shader.cpp:290 | (R + TT + TRT)·scale lies in [0, 10·(R + TT + TRT)] for non-negative lobes and scale ∈ (0, 10] |
| Marschner.CombineLobes | src/shader.cpp:229-284 | the R, TT and TRT lobes are each ≥ 0 after their clamps; 0 < scale ≤ 10; scale ≥ 1 when −1 ≤ cos θd ≤ 1 |
| Marschner.MarschnerLobes | src/shader.cpp:206-291 | the longitudinal terms are the three Gaussians with the hair parameters; N_R and N_TT are the mode terms for p=0 and p=1; the TRT azimuthal term is the p=0 term, not p=2; each lobe is ≥ 0 and 0 < scale ≤ 10 |
| Marschner.ScaleBounds | src/shader.cpp:284 | 1 / max(c², 0.1) lies in (0, 10] for every c, and it is ≥ 1 when −1 ≤ c ≤ 1 |
| Marschner.AFMarschner | src/shader.cpp:206-291 | the result lies between 0 and 10 times the sum of the clamped lobes |
| Marschner.LobesUnclamped | src/shader.cpp:229-276 | with valid math, positive widths and non-negative intensities, the clamps change nothing: each lobe is I·M·N |
| Marschner.LobeFactorsNonNegative | src/shader.cpp:213-268 | with valid math and positive widths, every M term is > 0 and every N term ≥ 0 |
| Marschner.CombineUnclamped | src/shader.cpp:229-276 | for non-negative factors, each combined lobe is exactly I·M·N |
| Marschner.LocalSpherical | src/shader.cpp:293-302 | the third component is 0; the longitude lies in [−π, π] and the latitude in [−π/2, π/2] |
| Marschner.WrapAzimuth | src/shader.cpp:311-312 | phi is \|a−b\| or \|a−b\| − 2π; no wrap when \|a−b\| ≤ π; phi ∈ (−π, π] for longitudes in [−π, π] |
| Marschner.FindAngles | src/shader.cpp:304-320 | theta_t is the light's latitude; phi ∈ (−π, π]; theta_d ∈ [0, π/2]; theta_h ∈ [−π/2, π/2] |
| Shaders.SpecularBase | src/shader.cpp:11-13 | the clamped dot(out, reflect(−light, n)) is ≥ 0 and ≥ the dot product, and it is one of the two |
| Shaders.ReflectPreservesLength | src/shader.cpp:11 | reflection about a unit normal preserves length |
| Shaders.MirrorSpecular | src/shader.cpp:11-13 | looking along the mirror direction gives the clamped term \|light\|² |
| Shaders.SpecularShade | src/shader.cpp:4-15 | the specular intensity is ≥ 0 |
| Shaders.SineFromCosine | src/shader.cpp:22-24 | sqrt(1 − c²) when that is positive, and 0 otherwise; the result is ≥ 0 and is 0 exactly when c² ≥ 1 |
| Shaders.KajiyaKayDiffuse | src/shader.cpp:19-26 | df ≥ 0, and df = 0 exactly when dot(tangent, normalize(light))² ≥ 1, i.e. ±1 for unit vectors |
| Shaders.KajiyaKaySpecular | src/shader.cpp:28-39 | kspec ≥ 0; it is ≥ sin_tl·sin_te − cos_tl·cos_te and equal to either that or 0 |
| Shaders.KajiyaKaySpecularReciprocal | src/shader.cpp:28-39 | for unit light and view, swapping them leaves the specular term unchanged |
| Shaders.KajiyaKayShade | src/shader.cpp:50-56 | kd·diffuse + ks·specular^spec_factor is ≥ 0 for non-negative kd and ks |
| Shaders.WeightedSumNonNegative | src/shader.cpp:55 | proof helper for kd·diffuse + ks·specular: a weighted sum of non-negative terms is ≥ 0 |
| Shaders.MarschnerAngles | src/shader.cpp:327-337 | the angles computed in the normalised (tangent, normal, binormal) frame lie in their ranges |
| Shaders.MarschnerShade | src/shader.cpp:324-340 | the Marschner intensity lies between 0 and 10 times its lobe sum |
| Shaders.Shader.Checked | src/shader.cpp:45-47 | after the clamp, every parameter is ≥ 0 and the tangent is untouched. Parameters already ≥ 0 are kept, so an already-checked shader is unchanged. Each parameter only grows. The variant is preserved. The Marschner shader has nothing to clamp. The specular clamp at line 8 follows the same rule |
| Shaders.CheckedIdempotent | src/shader.cpp:45-47 | checking twice is checking once |
| Shaders.Shader.Shade | src/shader.h:13-18 | dispatch to each variant's sample; the result is ≥ 0 for checked parameters, and always for the Marschner variant |
| Shaders.DefaultSpecularShader | src/shader.h:23 | spec_factor = 5, already within the clamp |
| Shaders.DefaultKajiyaKayShader | src/shader.h:32-33 | tangent (0,0,1), spec_factor 25, kd = ks = 0.3 |
| Shaders.DefaultAFMarschnerShader | src/shader.h:92-94 | tangent (0,0,1) and the default hair parameters, whose widths are positive |
| Shaders.BaseShader.Specular | src/shader.h:23 | a new specular shader with the defaults and no samples taken |
| Shaders.BaseShader.KajiyaKay | src/shader.h:32-33 | a new Kajiya–Kay shader with the defaults and no samples taken |
| Shaders.BaseShader.AFMarschner | src/shader.h:92-94 | a new Marschner shader owning the default hair parameters |
| Shaders.BaseShader.Sample | src/shader.cpp:41-57 | the fields are replaced by their clamped values (a second call leaves them unchanged) and one more sample is counted; the intensity is the variant's shading with the clamped parameters, and is ≥ 0; the specular (lines 4-15) and Marschner (lines 324-340) sample methods follow the same contract |
| Meshes.Tri.Corners | src/mesh.cpp:35-37 | the increment one triangle adds to a vertex's weight is ≤ 3, and positive iff the triangle uses the vertex |
| Meshes.Resized | src/mesh.cpp:10 | std::vector::resize: the new length, the old elements kept, and new slots filled |
| Meshes.Mesh.constructor | src/mesh.h:14 | a new mesh has empty indices, vertices and normals |
| Meshes.Mesh.Clear | src/mesh.h:16-20 | clear empties all three vectors |
| Meshes.CornerCountPositive | src/mesh.cpp:35-41 | a vertex's weight is positive iff some triangle uses it, which is when the division at line 41 is by a nonzero weight |
| Meshes.AllInRangePrefix | src/mesh.cpp:20-26 | proof helper for the triangle loop of `updateNormals`: every prefix of an in-range triangle list is in range |
| Meshes.AccumulateCorners | src/mesh.cpp:31-37 | the three in-place += and ++ at a triangle's corners add the face normal and the corner count at each vertex |
| Meshes.AccumulateStep | src/mesh.cpp:20-38 | processing one more triangle adds its corner counts to the weights and its face normal to the sums |
| Meshes.UpdateNormals | src/mesh.cpp:4-43 | vertices and indices are unchanged; normals has one entry per vertex, each the sum of its adjacent face normals divided by its weight |
| Meshes.ResetNormals | src/mesh.cpp:9-13 | normals is resized to the vertex count and zeroed; nothing else changes |
| Meshes.AddFace | src/mesh.cpp:21-37 | one triangle's pass adds its face normal at its three corners and their corner counts to the weights, and leaves vertices and indices alone |
| Meshes.AccumulateFaces | src/mesh.cpp:14-38 | each weight equals the number of triangle corners at that vertex, and each normal the sum of the face normals there |
| Meshes.AverageNormals | src/mesh.cpp:39-42 | each normal becomes its accumulated sum divided by its weight |
| Meshes.CreateGround | src/mesh.cpp:46-67 | the ground is exactly 4 vertices (±scale, −eps, ±scale), 4 normals (0,1,0) and triangles (0,1,2), (1,3,2); eps defaults to 0.01 (src/mesh.h:27) |
| Meshes.GroundWellFormed | src/mesh.cpp:52-66 | the ground's indices are in range, every vertex is used (weights 1, 2, 2, 1), and both triangles face +y (counter-clockwise seen from above) |
| Meshes.NTheta | src/mesh.cpp:78 | n_theta = max(n_phi/4, 1): it is ≥ 1, it is n_phi/4 under integer division when n_phi ≥ 4, and it is 1 otherwise |
| Meshes.CellTriangles | src/mesh.cpp:119-140 | a cell yields two triangles below the top row and one at the top; its first index is i_phi·n_theta + i_theta; an apex triangle's third index is n_phi·n_theta |
| Meshes.GridIndexDivMod | src/mesh.cpp:105 | the index i_phi·n_theta + i_theta decodes back to (i_phi, i_theta) by / and % |
| Meshes.GridIndex | src/mesh.cpp:105 | the index of grid vertex (i_phi, i_theta) is below n_phi·n_theta, and it decodes to (i_phi, i_theta), so distinct grid vertices get distinct slots |
| Meshes.GridIndexSurjective | src/mesh.cpp:90-106 | every slot below n_phi·n_theta is the index of some grid vertex, so each is written exactly once |
| Meshes.ColumnInGrid | src/mesh.cpp:91 | proof helper for the vertex loop of `createBRDFMesh`: a slot below n_phi·n_theta lies in a column below n_phi |
| Meshes.GridIndexBound | src/mesh.cpp:105 | grid indices lie below n_phi·n_theta |
| Meshes.PhiWraps | src/mesh.cpp:117 | the last column's neighbour (i_phi + 1) % n_phi is column 0 |
| Meshes.BRDFTriangleCount | src/mesh.cpp:116-141 | the mesh has exactly n_phi·(2·n_theta − 1) triangles |
| Meshes.ColumnTriangleCount | src/mesh.cpp:119-141 | a full column adds 2·n_theta − 1 triangles (2 per cell, 1 at the apex) |
| Meshes.GridTriangleCount | src/mesh.cpp:116-142 | k columns add k·(2·n_theta − 1) triangles |
| Meshes.CellInRange | src/mesh.cpp:122-139 | every index of a cell's triangles is < n_phi·n_theta + 1 |
| Meshes.ColumnInRange | src/mesh.cpp:119-141 | every index of a column's triangles is in range |
| Meshes.GridInRange | src/mesh.cpp:116-142 | every index of the first k columns' triangles is in range |
| Meshes.AllInRangeConcat | src/mesh.cpp:130-131 | proof helper for the `push_back` calls: appending in-range triangles keeps the list in range |
| Meshes.BRDFIndicesInRange | src/mesh.cpp:116-141 | every triangle index of the BRDF mesh is < n_phi·n_theta + 1 |
| Meshes.ColumnHasCell | src/mesh.cpp:119-130 | a column contains the first triangle of each of its cells |
| Meshes.GridHasColumn | src/mesh.cpp:116-142 | the grid contains every triangle of each of its columns |
| Meshes.TriangleInWeight | src/mesh.cpp:35-37 | a vertex used by a listed triangle gets a positive weight |
| Meshes.BRDFEveryVertexReferenced | src/mesh.cpp:116-141 | for n_phi ≥ 1, every vertex, apex included, is used by some triangle, so no weight divisor in updateNormals is zero |
| Meshes.SampleVertices | src/mesh.cpp:89-113 | vertices is sized n_phi·n_theta + 1; every grid slot and the apex slot n_phi·n_theta hold their sample positions scaled by the clamped shader's intensity; the shader is sampled n_phi·n_theta + 1 times; indices and normals are untouched |
| Meshes.SampleGrid | src/mesh.cpp:90-107 | vertices is sized n_phi·n_theta + 1; each grid slot holds its sample position scaled by the shader's intensity; the shader is sampled n_phi·n_theta times, and its parameters end clamped |
| Meshes.AddCell | src/mesh.cpp:119-140 | one cell's `push_back` calls append exactly that cell's triangles and nothing else changes |
| Meshes.RegisterIndices | src/mesh.cpp:115-142 | the push_back loop leaves exactly the BRDF triangle list in indices |
| Meshes.CreateBRDFMesh | src/mesh.cpp:71-146 | the BRDF mesh has n_phi·n_theta + 1 vertices, its full fill is spelled out below, and up_dir defaults to (0,1,0) (src/mesh.h:28-30) |

The fill that `Meshes.CreateBRDFMesh` establishes:
- grid vertex (i_phi, i_theta) is at index i_phi·n_theta + i_theta;
- each stored vertex is its sample position scaled by the intensity the clamped shader gives toward normalize(light_pos);
- the apex is at index n_phi·n_theta;
- indices is the BRDF triangle list, all in range;
- each normal is the averaged face normal;
- the shader's fields end clamped;
- sample is called exactly n_phi·n_theta + 1 times.

## Left out

- Floating point: everything is over `real`. Rounding, NaN and infinity propagation, and float-to-double promotion are not represented. The constants 1e-7, 1e-20, 1e-30 and 0.1 are kept exactly.
- The math library: sin, cos, asin, acos, sqrt, exp, pow and atan2 are fields of the `Libm` parameter. Only the range facts in `Libm.Valid` are assumed of them, so no numeric value is proved.
- Division by a value that may be zero goes through `Libm.div`, and it is exact only for a nonzero divisor. Examples are gaussian's σ, `x / etad` in the objective, and normalisation. What division by zero yields is left to the parameter.
- The debug macros `dumpifbadassertionf` and `dump` (src/shader.cpp:63-69) only print to stderr, so they are omitted.
- `rnd` (src/shader.cpp:201-203) draws from `rand()`. With `NUM_JITTER = 1` and `JITTER = 0`, each jitter loop is one `N_p_` call at the unjittered angles, and it is modelled as that call.
- The `af_marschner_hair_shader_approx_dist` branches are compiled out and are not modelled.
- `glm::orientation` and its 180-degree fallback (src/mesh.cpp:81-87) are a foreign library call. The rotation is the parameter `rot` (a 3×3 matrix) of `CreateBRDFMesh`.
- C++ `int` overflow and the `unsigned int` casts of indices: `CreateBRDFMesh` requires n_phi ≥ 0 and n_phi·n_theta + 1 ≤ 2³¹−1. Both are needed for the source's sizes and indices to mean what they say.
- `UpdateNormals` requires every triangle index to be below the vertex count. The source indexes out of bounds otherwise.
- For the BRDF mesh with n_phi = 0, the apex has weight 0, and its normal is `Libm.div` by 0, as in the source. This is why `BRDFEveryVertexReferenced` requires n_phi ≥ 1.
- The face-normal arithmetic is modelled with `Normalize` over the uninterpreted sqrt and div. Nothing is proved about the normals' directions except the ground's facing.
- `AFMarschnerShader` allocates `hp` with `new` and frees it in its destructor. In the model the hair parameters are a value field of the shader, so ownership and deallocation are not represented. The destructors of `Mesh` and the shaders are omitted for the same reason.
- The in-place parameter clamp of `SpecularShader::sample` and `KajiyaKayShader::sample` is modelled as the code does it: `BaseShader.Sample` rewrites the object's fields.
- `BaseShader.samples` is a ghost counter of `sample` calls. It exists only to state how often `createBRDFMesh` samples.
- Virtual dispatch over the `BaseShader` subclasses is a datatype with one arm per subclass. No other subclass is possible in the model.
- The `binsearch` lambda is the first-order datatype `Objective`, and its evaluation is `Objective.At`.
- `normals_weight` is a local `seq<int>` that `AccumulateFaces` returns. `binsearch`'s by-reference `num_of_solutions` is an in/out count.
- Several source functions are split into helper methods, each with its own contract:
  - the `binsearch` loop (`Narrow`);
  - the p = 2 branch of `h_` (`SymmetricH`);
  - the vertex and index phases of `createBRDFMesh` (`SampleVertices` with its grid loop `SampleGrid`, and `RegisterIndices` with its cell body `AddCell`);
  - the three phases of `updateNormals` (`ResetNormals`, `AccumulateFaces` with its loop body `AddFace`, `AverageNormals`).
- RootSolver.BisectConverges covers only start intervals at most 2 wide. The p = 1 bracket is always such an interval (`TransmissionConverges`). The p = 2 brackets are such intervals only when localmin ∈ [0, 1] (`SymmetricConverges`). The middle bracket [−localmin, localmin] is 2·localmin wide. With the real sqrt that exceeds 2 for η′ < 1, and for an arbitrary `Libm` it is unbounded. There the model proves only the 28-step cap (`Steps`) and nesting (`BisectInside`), not a final width of 1e-7.
- Shaders.KajiyaKayShade: states only non-negativity of its value, because pow is uninterpreted and only its sign is known.
- Shaders.SpecularShade: states only non-negativity, for the same reason.
- Marschner.AFMarschner: bounds the result by the lobe sum rather than restating it; Marschner.MarschnerLobes gives the exact lobes.
- Window, GL, camera, timing, file I/O and `main.cpp` are not part of this model.
