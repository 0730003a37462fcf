# Icosphere subdivision engine in Dafny

This project models the integer connectivity engine of the geodesic
icosphere generator `icosphere.py` and proves properties of it.
`subdivide_mesh` splits every edge of a triangle mesh into `nu` segments and
every face into `nu²` small triangles. It does this in four steps:

- It extracts the sorted, duplicate-free edge list.
- It builds a dictionary from each directed vertex pair to its edge id and
  direction.
- It builds a per-face triangulation template in reading order, and
  re-indexes it into the canonical order with `vertex_ordering`. The
  canonical order is: corners, then the A-B, A-C and B-C on-edge points, then
  the interior points.
- It stitches the global output. Each original vertex, edge and face owns one
  block of output slots. Each face writes its `nu²` rows of triangles.

The entry point `icosphere` starts from the fixed icosahedron. It may raise
`nu` to reach a requested vertex count. It returns the icosahedron itself when
`nu <= 1`, and its subdivision otherwise. When `nr_verts` raises `nu`, the
source's `nu` becomes a NumPy float and the call fails (see "Left out"). The
model follows the evidently intended integer `nu` on that path.

Modules, one per part of the program:

- `Mesh` (`mesh.dfy`): index triples, points over exact reals, and sequence
  helpers.
- `EdgeIndexer` (`edges.dfy`): edge extraction, the edge dictionary and the
  signed edge encoding.
- `SubdivisionTemplate` (`template.dfy`): `faces_template`,
  `vertex_ordering` and their composition.
- `Interpolation` (`interpolation.dfy`): on-edge points and `inside_points`
  over reals.
- `MeshSubdivider` (`subdivide.dfy`): `reverse`, the index layout, and
  `subdivide_mesh` as an imperative method over arrays, specified by value
  functions.
- `SubdivisionProperties` (`properties.dfy`): sizes, bounds, and where each
  output vertex sits.
- `AsWrittenLookup` (`aswritten.dfy`): the source's signed edge encoding,
  exactly as written.
- `Icosphere` (`icosphere.py`'s `icosahedron` and `icosphere`, in
  `icosphere.dfy`).

How the source's mechanics are modelled:

- The source's list-growing loops (`faces_template`, `vertex_ordering`,
  `inside_points`) and `subdivide_mesh`'s fill loops are methods with loop
  invariants. Each is proved equal to a value function, and the properties
  are proved about those functions.
- The direction of an edge is carried as a boolean (`EdgeRef.reversed`). The
  source's signed integer is modelled separately; see "Findings".

## Model

| member | source | states |
|---|---|---|
| EdgeIndexer.SortPair | icosphere.py:115 | a row-wise sort of a pair puts the smaller index first and keeps the same two indices |
| EdgeIndexer.Unique | icosphere.py:115 | row-wise unique yields a strictly ascending list with exactly the members of its input |
| EdgeIndexer.SortedUnique | icosphere.py:115 | two strictly ascending lists with the same members are equal, so the edge list is determined by the set of sides |
| EdgeIndexer.Sides | icosphere.py:114 | the stacked sides (a,b), then (b,c), then (a,c) of every face number 3F |
| EdgeIndexer.SortedSidesMembers | icosphere.py:114-115 | a pair is among the sorted stacked sides iff it is, up to order, a side of some face |
| EdgeIndexer.ExtractEdges | icosphere.py:114-115 | the edge list is strictly ascending, each edge has its smaller end first, and a pair is an edge iff it is a sorted side of some face |
| EdgeIndexer.NonDegenerateEdges | icosphere.py:114-115 | when no face repeats a corner, every edge (a,b) has a < b |
| EdgeIndexer.EdgesBelow | icosphere.py:114-118 | edge ends are below V when face corners are |
| EdgeIndexer.FirstEdge | icosphere.py:115 | when (0,1) is a side and no face repeats a corner, edge 0 is (0,1) |
| EdgeIndexer.LookupKeys | icosphere.py:125-130 | the dictionary holds a key exactly for each edge and its reversal |
| EdgeIndexer.LookupIdsBelow | icosphere.py:128-130 | every stored id is below E |
| EdgeIndexer.LookupResolves | icosphere.py:128-130 | for edge i = (a,b), the key (a,b) resolves to (i, forward) and the key (b,a) to (i, reversed) |
| EdgeIndexer.LookupSide | icosphere.py:125-130 | both directions of a face side resolve to the same edge, which is that side sorted, and the direction flag is set exactly when the side runs from the larger to the smaller index |
| EdgeIndexer.BuildEdgeLookup | icosphere.py:125-130 | the loop over the edges builds exactly the dictionary EdgeLookup |
| EdgeIndexer.SignedRoundTrip | icosphere.py:130 | decoding the signed value with abs gives the id back; the sign test e < 0 recovers the direction except when the id is 0 |
| EdgeIndexer.SignedZeroLost | icosphere.py:130 | with edge 0 = (0,1), the key (1,0) is reversed but its signed value fails the test e < 0 |
| SubdivisionTemplate.TnClosed | icosphere.py:190 | the row offset is i(i+1)/2 |
| SubdivisionTemplate.CountClosed | icosphere.py:217 | a face has (nu+1)(nu+2)/2 lattice points, (nu-1)(nu-2)/2 of them interior |
| SubdivisionTemplate.CountSplit | icosphere.py:159 | the lattice points are 3 corners, 3(nu-1) on-edge points and the interior points |
| SubdivisionTemplate.PtInjective | icosphere.py:176-184 | reading-order numbering gives different lattice points different numbers |
| SubdivisionTemplate.PtInverse | icosphere.py:176-184 | every number is the reading-order number of a lattice point |
| SubdivisionTemplate.PtBelowCount | icosphere.py:176-184 | a lattice point (r,c) has a number below (nu+1)(nu+2)/2 iff r <= nu |
| SubdivisionTemplate.SqClosed | icosphere.py:189-196 | layer i adds 2i+1 triangles, nu² in total |
| SubdivisionTemplate.TemplateSize | icosphere.py:187-198 | the template has nu² triangles |
| SubdivisionTemplate.TemplateBelow | icosphere.py:187-198 | every local index lies in [0, (nu+1)(nu+2)/2) |
| SubdivisionTemplate.LayerShape | icosphere.py:192-196 | layer i alternates up and down triangles and ends with the unpaired up triangle |
| SubdivisionTemplate.TemplateAt | icosphere.py:189-196 | row i² + 2q is the up triangle (i,q) and row i² + 2q + 1 the down triangle (i,q) |
| SubdivisionTemplate.FacesTemplate | icosphere.py:174-198 | the nested loop with its appends produces exactly Template(nu) |
| SubdivisionTemplate.OrderingAt | icosphere.py:214-226 | vertex_ordering maps the reading-order number of lattice point (r,c) to that point's canonical position |
| SubdivisionTemplate.CanonInjective | icosphere.py:201-212 | canonical positions are below (nu+1)(nu+2)/2 and different points get different positions |
| SubdivisionTemplate.CanonOnto | icosphere.py:201-212 | every canonical position is taken by some lattice point |
| SubdivisionTemplate.OrderingIsPermutation | icosphere.py:214-226 | vertex_ordering is a permutation of [0, (nu+1)(nu+2)/2) |
| SubdivisionTemplate.OrderingEnds | icosphere.py:219-224 | the first entry is 0 and the last nu+1 entries are [1, 2nu+1, ..., 3nu-1, 2] |
| SubdivisionTemplate.RingStep | icosphere.py:220-223 | each loop round appends left[i], the inside slice i(i-1)/2 .. i(i+1)/2 and right[i] |
| SubdivisionTemplate.VertexOrdering | icosphere.py:201-226 | the loop produces exactly Ordering(nu), a permutation of the lattice positions |
| SubdivisionTemplate.ReorderedTemplate | icosphere.py:134 | ordering[template] has nu² rows, all indices below (nu+1)(nu+2)/2 |
| SubdivisionTemplate.ReorderedAt | icosphere.py:134 | helper lemma: unfolds ordering[template] at one row k (each index of template row k mapped through the ordering); ReorderedUp and ReorderedDown state the property |
| SubdivisionTemplate.ReorderedUp | icosphere.py:134 | after reordering, the up triangle (i,q) names the canonical positions of (i,q), (i+1,q), (i+1,q+1) |
| SubdivisionTemplate.ReorderedDown | icosphere.py:134 | after reordering, the down triangle (i,q) names the canonical positions of (i,q), (i+1,q+1), (i,q+1) |
| Interpolation.EdgePointAffine | icosphere.py:138-143 | on-edge point k is p + ((k+1)/nu)(q - p) |
| Interpolation.EdgePointFlip | icosphere.py:142-143 | point k from p to q is point nu-2-k from q to p |
| Interpolation.EdgePointIsLattice | icosphere.py:142-143 | on-edge point k of A-B is lattice point (k+1, 0) |
| Interpolation.EdgePointIsLatticeAC | icosphere.py:142-143 | on-edge point k of A-C is lattice point (k+1, k+1) |
| Interpolation.EdgePointIsLatticeBC | icosphere.py:142-143 | on-edge point k of B-C is lattice point (nu, k+1) |
| Interpolation.BaryCorners | icosphere.py:159 | lattice points (0,0), (nu,0), (nu,nu) are the corners A, B, C |
| Interpolation.Inside | icosphere.py:229-248 | inside_points returns i(i-1)/2 points for i = len(vAB) |
| Interpolation.InsidePointAt | icosphere.py:243-246 | interior point number (i-1)i/2 + k is element k of row i |
| Interpolation.InsidePoints | icosphere.py:229-248 | the nested loop produces exactly Inside(vAB, vAC) |
| Interpolation.InsideLattice | icosphere.py:243-246 | given the on-edge points of A-B and A-C, interior point (r-2)(r-1)/2 + c-1 is lattice point (r, c) |
| MeshSubdivider.Reverse | icosphere.py:166-171 | reverse keeps length and elements (as a multiset), and element k is v[k] or v[len-1-k] by the flag |
| MeshSubdivider.ReverseTwice | icosphere.py:166-171 | reversing twice with the same flag is the identity |
| MeshSubdivider.CountIsEnd | icosphere.py:120 | the allocated vertex count equals the end of the last face's interior block |
| MeshSubdivider.ClosedMeshCount | icosphere.py:96-97 | with 2E = 3F the vertex count is V + F(nu+1)(nu-1)/2 |
| MeshSubdivider.SideRefIs | icosphere.py:153-155 | a face side u -> v resolves to the edge SortPair(u,v), the same edge both ways, reversed iff u > v |
| MeshSubdivider.WalkBack | icosphere.py:156-158 | walking a side backwards gives its on-edge ids in reverse order |
| MeshSubdivider.LocalIndices | icosphere.py:159 | VEF has (nu+1)(nu+2)/2 entries |
| MeshSubdivider.LatticeCorners | icosphere.py:159 | VEF at the canonical corner positions holds the face's corners A, B, C |
| MeshSubdivider.LatticeSides | icosphere.py:156-159 | VEF at the canonical positions of the side points holds the A-B, A-C and B-C walks |
| MeshSubdivider.LatticeInterior | icosphere.py:151-159 | VEF at interior point (r,c) holds the id T start + (r-2)(r-1)/2 + c-1 |
| MeshSubdivider.FaceRowUp | icosphere.py:160 | face f's up sub-triangle (i,q) joins the global ids of lattice points (i,q), (i+1,q), (i+1,q+1) |
| MeshSubdivider.FaceRowDown | icosphere.py:160 | face f's down sub-triangle (i,q) joins the global ids of lattice points (i,q), (i+1,q+1), (i,q+1) |
| MeshSubdivider.FaceBlockAt | icosphere.py:160 | helper lemma: unfolds face f's block at one row t (reordered-template row t relabelled with VEF); FaceRowUp, FaceRowDown and SubFaceRow state the property |
| MeshSubdivider.WriteEdgePoints | icosphere.py:141-143 | the inner loop writes w[-1-k]·p + w[k]·q at start + k for every k and leaves every later slot as it was |
| MeshSubdivider.EdgeWeights | icosphere.py:138 | w has nu-1 entries, w[j] = (j+1)/nu |
| MeshSubdivider.FillEdge | icosphere.py:140-143 | one round of the edge loop appends edge e's block right after the blocks of edges 0 .. e-1 and leaves every slot past the edge region as it was |
| MeshSubdivider.FillEdgePoints | icosphere.py:138-143 | the edge loop leaves the input vertices followed by every edge's block of on-edge points, and every slot past the edge region as it was |
| MeshSubdivider.WriteFaceRows | icosphere.py:160 | face f writes rows f·nu² .. (f+1)·nu²-1, extending the output by its block, and leaves every later row as it was |
| MeshSubdivider.FaceInteriorPoints | icosphere.py:162 | inside_points on the points read at AB and AC, once the input, edge and earlier interior regions are filled, gives face f's interior points |
| MeshSubdivider.WriteFaceInterior | icosphere.py:162 | face f writes its interior points into its own block after all earlier ones, and leaves every later slot as it was |
| MeshSubdivider.StitchFace | icosphere.py:148-162 | one round of the face loop extends both outputs by face f's blocks and leaves everything after those blocks as it was |
| MeshSubdivider.StitchFaces | icosphere.py:148-162 | the face loop produces exactly SubVertices and SubFaces |
| MeshSubdivider.SideWalk | icosphere.py:153-158 | looking a side up in the dictionary and reversing its edge block gives Walk |
| MeshSubdivider.FaceLocalIndices | icosphere.py:151-159 | the per-face index assembly yields exactly LocalIndices and the two walks |
| MeshSubdivider.SubdivideMesh | icosphere.py:90-164 | subdivide_mesh returns exactly SubVertices and SubFaces |
| SubdivisionProperties.SubdivisionSizes | icosphere.py:119-120 | the output has V + E(nu-1) + F(nu-1)(nu-2)/2 vertices and F·nu² faces |
| SubdivisionProperties.SubFaceRow | icosphere.py:160 | output row f·nu² + t is template row t of face f relabelled with VEF |
| SubdivisionProperties.SubFaceUp | icosphere.py:160 | output row f·nu² + i² + 2q is the up triangle over lattice points (i,q), (i+1,q), (i+1,q+1) of face f |
| SubdivisionProperties.SubFaceDown | icosphere.py:160 | output row f·nu² + i² + 2q + 1 is the down triangle over (i,q), (i+1,q+1), (i,q+1) of face f |
| SubdivisionProperties.LocalIndicesBelow | icosphere.py:151-159 | every entry of VEF lies below the output vertex count |
| SubdivisionProperties.EdgeRegionBelow | icosphere.py:142-151 | the interior blocks start after the input vertices, and the first face's block starts no later than the end of the last one |
| SubdivisionProperties.InteriorBlockBelow | icosphere.py:151-152 | face f's interior block lies below the output vertex count |
| SubdivisionProperties.WalkBelow | icosphere.py:156-158 | every walked id lies within the on-edge region |
| SubdivisionProperties.SubFacesBelow | icosphere.py:160 | every subface index lies in [0, len(subvertices)) |
| SubdivisionProperties.SubVerticesPrefix | icosphere.py:122 | the output begins with the input vertices, then the edge blocks |
| SubdivisionProperties.InputVertex | icosphere.py:122 | the first V output vertices are the input vertices, unchanged |
| SubdivisionProperties.SideVertexAt | icosphere.py:142-158 | the id at position k of the walk u -> v holds on-edge point k from u to v |
| SubdivisionProperties.InteriorRegion | icosphere.py:151-162 | slot k of face f's interior block holds interior point k of that face |
| SubdivisionProperties.InteriorVertexIsLattice | icosphere.py:151-162 | the interior slot of lattice point (r,c) holds the barycentric point (r,c) of the face |
| SubdivisionProperties.CornerVertices | icosphere.py:159 | the ids of the three corner lattice points hold the face's corners |
| SubdivisionProperties.SideABVertices | icosphere.py:156-159 | lattice points (r,0) hold the barycentric point (r,0) |
| SubdivisionProperties.SideACVertices | icosphere.py:157-159 | lattice points (r,r) hold the barycentric point (r,r) |
| SubdivisionProperties.SideBCVertices | icosphere.py:158-159 | lattice points (nu,c) hold the barycentric point (nu,c) |
| SubdivisionProperties.SubVertexAt | icosphere.py:138-162 | for every face and every lattice point (r,c), the global id is in range and holds A + (r/nu)(B-A) + (c/nu)(C-B): faces and vertices agree |
| AsWrittenLookup.AsWrittenWalk | icosphere.py:153-158 | the walk as the source writes it, from abs(e) and e < 0, has nu-1 ids |
| AsWrittenLookup.AsWrittenAgrees | icosphere.py:156-158 | except for edge 0 walked backwards, the as-written walk is the intended one |
| AsWrittenLookup.AsWrittenEdgeZero | icosphere.py:153-158 | when edge 0 is (0,1), the as-written walk 1 -> 0 equals the walk 0 -> 1; from nu = 3 on it is not the reverse of it |
| AsWrittenLookup.TetrahedronEdgeZero | icosphere.py:130 | for a tetrahedron whose face (1,0,2) walks edge 0 backwards, nu = 3: the as-written walk is [4,5], the intended one [5,4] |
| AsWrittenLookup.AsWrittenSidesAgree | icosphere.py:153-158 | when vertex 0 is only ever a first corner, no queried side is edge 0 backwards and all as-written walks are the intended ones |
| Icosphere.IcoFaces | icosphere.py:81-85 | the 20 faces use vertices below 12, repeat no corner, and vertex 0 is never a second or third corner |
| Icosphere.IcoEdgeList | icosphere.py:114-118 | the icosahedron's extracted edge list is the 30 listed edges, E = 30, and edge 0 is (0,1) |
| Icosphere.IcoWalksAsWritten | icosphere.py:153-155 | on the icosahedron, no face queries edge 0 backwards, so the source's signed encoding gives the intended walks |
| Icosphere.IcoSizes | icosphere.py:119-120 | the subdivided icosahedron has 12 + 10(nu+1)(nu-1) vertices and 20·nu² faces |
| Icosphere.IcoClosedCount | icosphere.py:96-97 | V + E(nu-1) + F(nu-1)(nu-2)/2 with V = 12, E = 30, F = 20 is 12 + 10(nu+1)(nu-1) |
| Icosphere.IcoCountGrows | icosphere.py:58-61 | the vertex count grows with nu |
| Icosphere.MinNu | icosphere.py:58-60 | nu_min is at least 1, reaches nr_verts vertices, and no smaller nu >= 1 does |
| Icosphere.MinNuIsCeilSqrt | icosphere.py:60 | nu_min is the least positive integer whose square reaches max(1 + (nr_verts-12)/10, 1), i.e. its ceiling square root |
| Icosphere.ChooseNu | icosphere.py:59-61 | the chosen nu is at least the requested one; with nr_verts it reaches nr_verts vertices, and when raised it is the least such |
| Icosphere.ChooseNuForHundred | icosphere.py:59-61 | nr_verts = 100 from nu = 1 gives nu = 4 (162 vertices; nu = 3 has 92) |
| Icosphere.IcoVertices | icosphere.py:74-78 | the 12 vertices are six directions scaled by 1/norm followed by their negations |
| Icosphere.IcoUnitVertices | icosphere.py:74-78 | with norm exactly sqrt(1 + phi²), every vertex has squared length 1 |
| Icosphere.IcosphereMesh | icosphere.py:34-68 | the facade returns the icosahedron when the chosen nu <= 1 and its subdivision otherwise, with 12 + 10(nu+1)(nu-1) vertices and 20·nu² faces |

## Left out

- The vertex coordinates are exact reals. Floating-point rounding of the
  interpolation weights (icosphere.py:138, 244) is not modelled.
- The projection onto the unit sphere with `np.sqrt` (icosphere.py:66) is not
  modelled.
- Icosphere.IcosphereMesh: returns the vertices before the sphere projection
  of icosphere.py:66. When nu > 1, they are the subdivided points, not their
  normalised versions.
- Icosphere.IcoVertices: `phi = (1+sqrt(5))/2` and `sqrt(1+phi²)` are taken as
  parameters `phi` and `norm`, because square roots are not available over
  Dafny's reals. IcoUnitVertices states unit length under the exact relation
  `norm² = 1 + phi²`.
- The float computation of `nu_min` with `np.ceil`/`np.sqrt` (icosphere.py:60)
  is replaced by its integer meaning, the least `nu >= 1` with
  `10nu² + 2 >= nr_verts`. MinNuIsCeilSqrt states that the two agree in exact
  arithmetic.
- When `nr_verts` raises `nu` (icosphere.py:60-61), `nu` becomes the
  `np.float64` `nu_min`.
  - It is then passed as a float into the shape `(F*nu**2, 3)` of `np.empty`
    at icosphere.py:119.
  - NumPy rejects a float shape with a `TypeError`, so, for example,
    `icosphere(nr_verts=100)` never returns a mesh.
  - Icosphere.ChooseNu and Icosphere.IcosphereMesh model the evidently
    intended integer `nu` on that path. They return the mesh for `nu = 4`
    where the source raises. This failure is not modelled.
- `np.unique`, `np.sort`, `np.r_` and fancy indexing (icosphere.py:114-115,
  134, 159-160) are modelled as plain sequence operations. `ordering[template]`
  is element-wise composition.
- The dictionary of dictionaries (icosphere.py:125-130) is one map keyed by
  the directed pair. The empty inner dictionaries created for every vertex
  (icosphere.py:126-127) carry no information and are not modelled.
- `subdivide_mesh`'s preconditions `nu >= 1` and face indices in `[0, V)` are
  requires clauses. The source leaves such inputs unguarded.
- The plotting code (icosphere.py:252-310) is not part of this model.
  `example_in_matplotlib.py` and `test_icosphere.py` are not part of this
  model either.
- The `icosphere` docstring's shapes (icosphere.py:49-50) disagree with the
  code. It gives `20+10(nu+1)(nu-1)/2` vertices and `10n²` faces. The code
  gives `12+10(nu+1)(nu-1)` and `20nu²`, and the model follows the code.

## Findings

| source | as written | input that shows it | evidently intended | confidence | as-written member | corrected member |
|---|---|---|---|---|---|---|
| icosphere.py:130 | the reversed direction of edge i is stored as `-i` (read back at icosphere.py:156-158), so for edge 0 the stored value is `0` and `eAB<0` never flags it; a face walking edge 0 backwards gets its on-edge ids in forward order | the tetrahedron (1,0,2), (0,1,3), (0,3,2), (1,2,3) with nu = 3: face 0 walks edge 0 = (0,1) from 1 to 0 and gets [4,5] instead of [5,4], so it disagrees with face 1 about which point is which | the direction is recorded separately from the id, and walking an edge backwards always reverses its ids | not executed; proved for the model | AsWrittenLookup.AsWrittenWalk (counterexample AsWrittenLookup.TetrahedronEdgeZero, general case AsWrittenLookup.AsWrittenEdgeZero) | MeshSubdivider.Walk (proved by MeshSubdivider.WalkBack to reverse when walked backwards) |

The defect never shows on the icosahedron table. Vertex 0 is never a second
or third corner there, so edge 0 is never queried backwards
(Icosphere.IcoWalksAsWritten).
