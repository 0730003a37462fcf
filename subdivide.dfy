/** subdivide_mesh: the subdivided mesh of a triangle mesh with frequency nu.

    The output vertex list is laid out in blocks: the V input vertices, then
    nu-1 on-edge points per edge (edge e owns V + e(nu-1) .. V + (e+1)(nu-1) - 1),
    then (nu-1)(nu-2)/2 interior points per face. The output face list holds
    nu*nu small triangles per face, face f in rows f*nu*nu .. (f+1)*nu*nu - 1:
    the per-face template, renumbered to the face's canonical local ids and
    then to global vertex indices. */
module MeshSubdivider {
  import opened Mesh
  import opened SubdivisionTemplate
  import opened EdgeIndexer
  import opened Interpolation

  // ---------------------------------------------------------------------
  // reverse

  /** reverse(vector, flag): the vector read backwards when flag is set. */
  function Reverse<T>(v: seq<T>, flag: bool): (r: seq<T>)
    ensures |r| == |v| && multiset(r) == multiset(v)
    ensures forall k :: 0 <= k < |v| ==> r[k] == v[if flag then |v| - 1 - k else k]
  {
    assert forall k :: 0 <= k < |v| ==> Reversed(v)[k] == v[|v| - 1 - k] by {
      forall k | 0 <= k < |v|
        ensures Reversed(v)[k] == v[|v| - 1 - k]
      {
        ReversedAt(v, k);
      }
    }
    if flag then Reversed(v) else v
  }

  /** Reversing twice with the same flag gives the vector back. */
  lemma ReverseTwice<T>(v: seq<T>, flag: bool)
    ensures Reverse(Reverse(v, flag), flag) == v
  {
    if flag {
      ReversedInvolution(v);
    }
  }

  // ---------------------------------------------------------------------
  // Index layout

  /** Output vertex count as the source allocates it: V + E(nu-1) + F(nu-1)(nu-2)/2. */
  function SubvertexCount(V: nat, E: nat, F: nat, nu: nat): int {
    V + E * (nu - 1) + F * (nu - 1) * (nu - 2) / 2
  }

  /** The ids of edge e's on-edge points, in stored direction: e(nu-1) + V + r. */
  function EdgeBlock(V: nat, nu: nat, e: nat): (s: seq<nat>)
    requires nu >= 1
    ensures |s| == nu - 1
  {
    seq(nu - 1, k requires 0 <= k < nu - 1 => e * (nu - 1) + V + k)
  }

  /** First id of face f's interior points: f(nu-1)(nu-2)/2 + E(nu-1) + V. */
  function InteriorStart(V: nat, E: nat, nu: nat, f: nat): nat
    requires nu >= 1
  {
    f * InnerCount(nu) + E * (nu - 1) + V
  }

  /** The ids of face f's interior points (the source's T). */
  function InteriorBlock(V: nat, E: nat, nu: nat, f: nat): (s: seq<nat>)
    requires nu >= 1
    ensures |s| == InnerCount(nu)
  {
    assert (f + 1) * InnerCount(nu) == f * InnerCount(nu) + InnerCount(nu);
    Range(InteriorStart(V, E, nu, f), InteriorStart(V, E, nu, f + 1))
  }

  lemma InnerDouble(nu: nat)
    requires nu >= 1
    ensures 2 * InnerCount(nu) == (nu - 1) * (nu - 2)
  {
    if nu >= 2 {
      TnDouble(nu - 2);
    }
  }

  /** The source's f*(nu-1)*(nu-2)//2 is f interior blocks: (nu-1)(nu-2) is even. */
  lemma HalfProduct(f: nat, nu: nat)
    requires nu >= 1
    ensures f * (nu - 1) * (nu - 2) / 2 == f * InnerCount(nu)
  {
    InnerDouble(nu);
    assert f * (nu - 1) * (nu - 2) == f * ((nu - 1) * (nu - 2));
    assert f * (2 * InnerCount(nu)) == 2 * (f * InnerCount(nu));
    Halve(f * (nu - 1) * (nu - 2), f * InnerCount(nu));
  }

  /** The allocated vertex count is where face F's interior block would start. */
  lemma CountIsEnd(V: nat, E: nat, F: nat, nu: nat)
    requires nu >= 1
    ensures SubvertexCount(V, E, F, nu) == InteriorStart(V, E, nu, F)
  {
    HalfProduct(F, nu);
  }

  /** For a closed mesh (every edge shared by two faces, 2E = 3F) the vertex
      count is V + F(nu+1)(nu-1)/2, as documented. */
  lemma ClosedMeshCount(V: nat, E: nat, F: nat, nu: nat)
    requires nu >= 1 && 2 * E == 3 * F
    ensures SubvertexCount(V, E, F, nu) == V + F * (nu + 1) * (nu - 1) / 2
  {
    CountIsEnd(V, E, F, nu);
    var m := nu - 1;
    var I := InnerCount(nu);
    InnerDouble(nu);
    SharedEdgeTerm(E, F, m);
    ScaleDouble(F, I, m * (m - 1));
    ClosedTotal(F, m, nu);
    Halve(F * (nu + 1) * (nu - 1), E * m + F * I);
  }

  lemma SharedEdgeTerm(E: nat, F: nat, m: nat)
    requires 2 * E == 3 * F
    ensures 2 * (E * m) == 3 * (F * m)
  {
    assert 2 * (E * m) == (2 * E) * m;
    assert (3 * F) * m == 3 * (F * m);
  }

  lemma ScaleDouble(F: nat, I: nat, x: int)
    requires 2 * I == x
    ensures 2 * (F * I) == F * x
  {
    assert 2 * (F * I) == F * (2 * I);
  }

  lemma ClosedTotal(F: nat, m: nat, nu: nat)
    requires m + 1 == nu
    ensures 3 * (F * m) + F * (m * (m - 1)) == F * (nu + 1) * (nu - 1)
  {
    assert F * (m * (m - 1)) == (F * m) * (m - 1);
    assert 3 * (F * m) + (F * m) * (m - 1) == (F * m) * (m + 2);
    assert (F * m) * (m + 2) == F * (nu + 1) * (nu - 1);
  }

  lemma BlockBelow(i: nat, n: nat, w: nat, k: nat)
    requires i < n && k < w
    ensures i * w + k < n * w
  {
    assert n * w == (n - 1 - i) * w + i * w + w;
  }

  lemma BlockMono(i: nat, n: nat, w: nat)
    requires i <= n
    ensures i * w <= n * w
  {
    assert n * w == (n - i) * w + i * w;
  }

  // ---------------------------------------------------------------------
  // Stitching: the local ids of one face

  /** Each queried side of face f is an edge. */
  lemma FaceSides(faces: seq<Tri>, f: nat)
    requires f < |faces|
    ensures SortPair((faces[f].a, faces[f].b)) in ExtractEdges(faces)
    ensures SortPair((faces[f].a, faces[f].c)) in ExtractEdges(faces)
    ensures SortPair((faces[f].b, faces[f].c)) in ExtractEdges(faces)
  {
    var t := faces[f];
    assert SortPair((t.a, t.b)) in SortedSidesOf(t);
    assert SortPair((t.b, t.c)) in SortedSidesOf(t);
    assert SortPair((t.a, t.c)) in SortedSidesOf(t);
  }

  /** The lookup entry for the directed side u -> v (edge_indices[u][v]). */
  function SideRef(faces: seq<Tri>, u: nat, v: nat): (r: EdgeRef)
    requires SortPair((u, v)) in ExtractEdges(faces)
    ensures r.id < |ExtractEdges(faces)|
  {
    var edges := ExtractEdges(faces);
    LookupKeys(edges, (u, v));
    LookupIdsBelow(edges, (u, v));
    EdgeLookup(edges)[(u, v)]
  }

  /** For faces without repeated corners, the side u -> v resolves to the
      edge {u, v}, reversed exactly when u > v. */
  lemma SideRefIs(faces: seq<Tri>, u: nat, v: nat)
    requires forall f :: 0 <= f < |faces| ==> NonDegenerate(faces[f])
    requires SortPair((u, v)) in ExtractEdges(faces) && u != v
    ensures ExtractEdges(faces)[SideRef(faces, u, v).id] == SortPair((u, v))
    ensures SideRef(faces, u, v).id == SideRef(faces, v, u).id
    ensures SideRef(faces, u, v).reversed == (u > v)
  {
    NonDegenerateEdges(faces);
    assert SortPair((v, u)) == SortPair((u, v));
    LookupSide(ExtractEdges(faces), u, v);
  }

  /** The ids of the on-edge points met walking from u to v (the source's
      reverse(abs(e)*(nu-1)+V+r, e<0), with the direction kept as a flag). */
  function Walk(V: nat, faces: seq<Tri>, nu: nat, u: nat, v: nat): (w: seq<nat>)
    requires nu >= 1 && SortPair((u, v)) in ExtractEdges(faces)
    ensures |w| == nu - 1
  {
    var r := SideRef(faces, u, v);
    Reverse(EdgeBlock(V, nu, r.id), r.reversed)
  }

  /** Two faces that meet along an edge see the same on-edge points, in
      opposite orders when they walk it in opposite directions. */
  lemma WalkBack(V: nat, faces: seq<Tri>, nu: nat, u: nat, v: nat)
    requires nu >= 1 && forall f :: 0 <= f < |faces| ==> NonDegenerate(faces[f])
    requires SortPair((u, v)) in ExtractEdges(faces) && u != v
    ensures SortPair((v, u)) in ExtractEdges(faces)
    ensures Walk(V, faces, nu, v, u) == Reversed(Walk(V, faces, nu, u, v))
  {
    assert SortPair((v, u)) == SortPair((u, v));
    SideRefIs(faces, u, v);
    SideRefIs(faces, v, u);
    var block := EdgeBlock(V, nu, SideRef(faces, u, v).id);
    if u < v {
      assert Walk(V, faces, nu, v, u) == Reversed(block);
    } else {
      ReversedInvolution(block);
      assert Walk(V, faces, nu, u, v) == Reversed(block);
    }
  }

  /** The walks along the three sides of face f, as the source queries
      them: A to B, A to C and B to C. */
  function WalkAB(V: nat, faces: seq<Tri>, nu: nat, f: nat): (w: seq<nat>)
    requires nu >= 1 && f < |faces|
    ensures |w| == nu - 1
  {
    FaceSides(faces, f);
    Walk(V, faces, nu, faces[f].a, faces[f].b)
  }

  function WalkAC(V: nat, faces: seq<Tri>, nu: nat, f: nat): (w: seq<nat>)
    requires nu >= 1 && f < |faces|
    ensures |w| == nu - 1
  {
    FaceSides(faces, f);
    Walk(V, faces, nu, faces[f].a, faces[f].c)
  }

  function WalkBC(V: nat, faces: seq<Tri>, nu: nat, f: nat): (w: seq<nat>)
    requires nu >= 1 && f < |faces|
    ensures |w| == nu - 1
  {
    FaceSides(faces, f);
    Walk(V, faces, nu, faces[f].b, faces[f].c)
  }

  /** VEF: the global ids of face f's lattice points in canonical order:
      corners, A-B walk, A-C walk, B-C walk, interior block. */
  function LocalIndices(V: nat, faces: seq<Tri>, nu: nat, f: nat): (vef: seq<nat>)
    requires nu >= 1 && f < |faces|
    ensures |vef| == Count(nu)
  {
    var t := faces[f];
    CountSplit(nu);
    [t.a, t.b, t.c] + WalkAB(V, faces, nu, f) + WalkAC(V, faces, nu, f)
      + WalkBC(V, faces, nu, f) + InteriorBlock(V, |ExtractEdges(faces)|, nu, f)
  }

  /** The global id of lattice point (r, c) of face f. */
  function LatticeVertex(V: nat, faces: seq<Tri>, nu: nat, f: nat, r: nat, c: nat): nat
    requires nu >= 1 && f < |faces| && c <= r <= nu
  {
    CanonInjective(nu, r, c, r, c);
    LocalIndices(V, faces, nu, f)[Canon(nu, r, c)]
  }

  /** Relabelling a small triangle given by three canonical positions with
      VEF yields the global ids of those three lattice points. */
  lemma ComposeLattice(V: nat, faces: seq<Tri>, nu: nat, f: nat, r1: nat, c1: nat, r2: nat, c2: nat, r3: nat, c3: nat)
    requires nu >= 1 && f < |faces| && c1 <= r1 <= nu && c2 <= r2 <= nu && c3 <= r3 <= nu
    ensures TriBelow(Tri(Canon(nu, r1, c1), Canon(nu, r2, c2), Canon(nu, r3, c3)), |LocalIndices(V, faces, nu, f)|)
    ensures Compose(LocalIndices(V, faces, nu, f), Tri(Canon(nu, r1, c1), Canon(nu, r2, c2), Canon(nu, r3, c3)))
         == Tri(LatticeVertex(V, faces, nu, f, r1, c1), LatticeVertex(V, faces, nu, f, r2, c2), LatticeVertex(V, faces, nu, f, r3, c3))
  {
    CanonInjective(nu, r1, c1, r1, c1);
    CanonInjective(nu, r2, c2, r2, c2);
    CanonInjective(nu, r3, c3, r3, c3);
  }

  /** Row k = i*i + 2q of the reordered template, relabelled with face f's
      VEF, is the upward triangle (i, q), (i+1, q), (i+1, q+1) of that face. */
  lemma FaceRowUp(V: nat, faces: seq<Tri>, nu: nat, f: nat, i: nat, q: nat, k: nat)
    requires f < |faces| && i < nu && q <= i && k == Sq(i) + 2 * q
    ensures k < Sq(nu) && TriBelow(ReorderedTemplate(nu)[k], |LocalIndices(V, faces, nu, f)|)
    ensures Compose(LocalIndices(V, faces, nu, f), ReorderedTemplate(nu)[k])
         == Tri(LatticeVertex(V, faces, nu, f, i, q), LatticeVertex(V, faces, nu, f, i + 1, q), LatticeVertex(V, faces, nu, f, i + 1, q + 1))
  {
    var tri := Tri(Canon(nu, i, q), Canon(nu, i + 1, q), Canon(nu, i + 1, q + 1));
    assert k < Sq(nu) && ReorderedTemplate(nu)[k] == tri by {
      ReorderedUp(nu, i, q, k);
    }
    ComposeLattice(V, faces, nu, f, i, q, i + 1, q, i + 1, q + 1);
  }

  /** Row k = i*i + 2q + 1 of the reordered template, relabelled with face f's
      VEF, is the downward triangle (i, q), (i+1, q+1), (i, q+1) of that face. */
  lemma FaceRowDown(V: nat, faces: seq<Tri>, nu: nat, f: nat, i: nat, q: nat, k: nat)
    requires f < |faces| && i < nu && q < i && k == Sq(i) + 2 * q + 1
    ensures k < Sq(nu) && TriBelow(ReorderedTemplate(nu)[k], |LocalIndices(V, faces, nu, f)|)
    ensures Compose(LocalIndices(V, faces, nu, f), ReorderedTemplate(nu)[k])
         == Tri(LatticeVertex(V, faces, nu, f, i, q), LatticeVertex(V, faces, nu, f, i + 1, q + 1), LatticeVertex(V, faces, nu, f, i, q + 1))
  {
    var tri := Tri(Canon(nu, i, q), Canon(nu, i + 1, q + 1), Canon(nu, i, q + 1));
    assert k < Sq(nu) && ReorderedTemplate(nu)[k] == tri by {
      ReorderedDown(nu, i, q, k);
    }
    ComposeLattice(V, faces, nu, f, i, q, i + 1, q + 1, i, q + 1);
  }

  /** The corners of face f = (a, b, c) are lattice points (0, 0), (nu, 0)
      and (nu, nu). */
  lemma LatticeCorners(V: nat, faces: seq<Tri>, nu: nat, f: nat)
    requires nu >= 1 && f < |faces|
    ensures LatticeVertex(V, faces, nu, f, 0, 0) == faces[f].a
    ensures LatticeVertex(V, faces, nu, f, nu, 0) == faces[f].b
    ensures LatticeVertex(V, faces, nu, f, nu, nu) == faces[f].c
  {
    var t := faces[f];
    var vef := LocalIndices(V, faces, nu, f);
    var head: seq<nat> := [t.a, t.b, t.c];
    var sides := head + WalkAB(V, faces, nu, f) + WalkAC(V, faces, nu, f) + WalkBC(V, faces, nu, f);
    assert vef == sides + InteriorBlock(V, |ExtractEdges(faces)|, nu, f);
    assert vef[0] == t.a && vef[1] == t.b && vef[2] == t.c;
    assert Canon(nu, 0, 0) == 0 && Canon(nu, nu, 0) == 1 && Canon(nu, nu, nu) == 2;
  }

  /** Point k of each side walk is the lattice point k+1 steps along that
      side: (k+1, 0) on A-B, (k+1, k+1) on A-C, (nu, k+1) on B-C. */
  lemma LatticeSides(V: nat, faces: seq<Tri>, nu: nat, f: nat, k: nat)
    requires f < |faces| && k + 1 < nu
    ensures LatticeVertex(V, faces, nu, f, k + 1, 0) == WalkAB(V, faces, nu, f)[k]
    ensures LatticeVertex(V, faces, nu, f, k + 1, k + 1) == WalkAC(V, faces, nu, f)[k]
    ensures LatticeVertex(V, faces, nu, f, nu, k + 1) == WalkBC(V, faces, nu, f)[k]
  {
    var t := faces[f];
    var m := nu - 1;
    var ab := WalkAB(V, faces, nu, f);
    var ac := WalkAC(V, faces, nu, f);
    var bc := WalkBC(V, faces, nu, f);
    var ins := InteriorBlock(V, |ExtractEdges(faces)|, nu, f);
    var vef := LocalIndices(V, faces, nu, f);
    var head: seq<nat> := [t.a, t.b, t.c];
    assert vef == head + ab + ac + bc + ins;
    assert vef[3 + k] == ab[k] by {
      assert (head + ab)[3 + k] == ab[k];
    }
    assert vef[3 + m + k] == ac[k] by {
      assert (head + ab + ac)[3 + m + k] == ac[k];
    }
    assert vef[3 + 2 * m + k] == bc[k];
  }

  /** Interior lattice point (r, c) of face f is slot Pt(r-2, c-1) of the
      face's interior block: the interior points are numbered in reading order. */
  lemma LatticeInterior(V: nat, faces: seq<Tri>, nu: nat, f: nat, r: nat, c: nat)
    requires f < |faces| && 0 < c < r < nu
    ensures LatticeVertex(V, faces, nu, f, r, c) == InteriorStart(V, |ExtractEdges(faces)|, nu, f) + Pt(r - 2, c - 1)
  {
    var t := faces[f];
    CountSplit(nu);
    InterioriBelow(nu, r, c);
    var ins := InteriorBlock(V, |ExtractEdges(faces)|, nu, f);
    var edgeIds := [t.a, t.b, t.c] + WalkAB(V, faces, nu, f) + WalkAC(V, faces, nu, f) + WalkBC(V, faces, nu, f);
    assert |edgeIds| == 3 + 3 * (nu - 1);
    assert LocalIndices(V, faces, nu, f) == edgeIds + ins;
    assert (edgeIds + ins)[|edgeIds| + Pt(r - 2, c - 1)] == ins[Pt(r - 2, c - 1)];
  }

  // ---------------------------------------------------------------------
  // The output, block by block

  /** VEF[reordered_template]: the nu*nu small triangles of face f, in global ids. */
  function FaceSubfaces(V: nat, faces: seq<Tri>, nu: nat, f: nat): (s: seq<Tri>)
    requires nu >= 1 && f < |faces|
    ensures |s| == Sq(nu)
  {
    var vef := LocalIndices(V, faces, nu, f);
    var rt := ReorderedTemplate(nu);
    seq(|rt|, t requires 0 <= t < |rt| => Compose(vef, rt[t]))
  }

  function FaceBlocks(V: nat, faces: seq<Tri>, nu: nat): (b: seq<seq<Tri>>)
    requires nu >= 1
    ensures |b| == |faces| && Uniform(b, Sq(nu))
  {
    seq(|faces|, f requires 0 <= f < |faces| => FaceSubfaces(V, faces, nu, f))
  }

  /** Row t of face f's block is template row t relabelled with VEF. */
  lemma FaceBlockAt(V: nat, faces: seq<Tri>, nu: nat, f: nat, t: nat)
    requires nu >= 1 && f < |faces| && t < Sq(nu)
    ensures TriBelow(ReorderedTemplate(nu)[t], |LocalIndices(V, faces, nu, f)|)
    ensures FaceBlocks(V, faces, nu)[f][t] == Compose(LocalIndices(V, faces, nu, f), ReorderedTemplate(nu)[t])
  {
    assert FaceBlocks(V, faces, nu)[f] == FaceSubfaces(V, faces, nu, f);
  }

  /** The output face list: the rows of face 0, then of face 1, and so on. */
  function SubFaces(V: nat, faces: seq<Tri>, nu: nat): seq<Tri>
    requires nu >= 1
  {
    Concat(FaceBlocks(V, faces, nu))
  }

  /** Every edge names two vertices below n. */
  predicate EdgesWithin(edges: seq<Edge>, n: nat) {
    forall k :: 0 <= k < |edges| ==> edges[k].0 < n && edges[k].1 < n
  }

  /** The on-edge points of edge e = (p, q), in stored direction:
      w[-1-k]*p + w[k]*q for k = 0 .. nu-2. */
  function EdgePoints(vertices: seq<Point>, edges: seq<Edge>, nu: nat, e: nat): (pts: seq<Point>)
    requires nu >= 1 && EdgesWithin(edges, |vertices|) && e < |edges|
    ensures |pts| == nu - 1
  {
    var edge := edges[e];
    seq(nu - 1, k requires 0 <= k < nu - 1 => EdgePoint(nu, vertices[edge.0], vertices[edge.1], k))
  }

  /** The edge blocks of the output vertex list, edge by edge. */
  function EdgeBlocks(vertices: seq<Point>, edges: seq<Edge>, nu: nat): (b: seq<seq<Point>>)
    requires nu >= 1 && EdgesWithin(edges, |vertices|)
    ensures |b| == |edges| && Uniform(b, nu - 1)
  {
    seq(|edges|, e requires 0 <= e < |edges| => EdgePoints(vertices, edges, nu, e))
  }

  /** The edges of the mesh lie within its vertices. */
  lemma ExtractedWithin(faces: seq<Tri>, n: nat)
    requires FacesBelow(faces, n)
    ensures EdgesWithin(ExtractEdges(faces), n)
  {
    EdgesBelow(faces, n);
  }

  function EdgeBlocksOf(vertices: seq<Point>, faces: seq<Tri>, nu: nat): (b: seq<seq<Point>>)
    requires nu >= 1 && FacesBelow(faces, |vertices|)
    ensures |b| == |ExtractEdges(faces)| && Uniform(b, nu - 1)
  {
    ExtractedWithin(faces, |vertices|);
    EdgeBlocks(vertices, ExtractEdges(faces), nu)
  }

  /** subvertices[AB,:] for the side u -> v: its on-edge points in walking order. */
  function WalkPoints(vertices: seq<Point>, faces: seq<Tri>, nu: nat, u: nat, v: nat): (pts: seq<Point>)
    requires nu >= 1 && FacesBelow(faces, |vertices|) && SortPair((u, v)) in ExtractEdges(faces)
    ensures |pts| == nu - 1
  {
    var r := SideRef(faces, u, v);
    Reverse(EdgeBlocksOf(vertices, faces, nu)[r.id], r.reversed)
  }

  /** inside_points(subvertices[AB,:], subvertices[AC,:]): face f's interior points. */
  function FaceInterior(vertices: seq<Point>, faces: seq<Tri>, nu: nat, f: nat): (pts: seq<Point>)
    requires nu >= 1 && FacesBelow(faces, |vertices|) && f < |faces|
    ensures |pts| == InnerCount(nu)
  {
    var t := faces[f];
    FaceSides(faces, f);
    Interpolation.Inside(WalkPoints(vertices, faces, nu, t.a, t.b), WalkPoints(vertices, faces, nu, t.a, t.c))
  }

  function InteriorBlocksOf(vertices: seq<Point>, faces: seq<Tri>, nu: nat): (b: seq<seq<Point>>)
    requires nu >= 1 && FacesBelow(faces, |vertices|)
    ensures |b| == |faces| && Uniform(b, InnerCount(nu))
  {
    seq(|faces|, f requires 0 <= f < |faces| => FaceInterior(vertices, faces, nu, f))
  }

  /** The output vertex list: the input vertices, the edge blocks, the face blocks. */
  function SubVertices(vertices: seq<Point>, faces: seq<Tri>, nu: nat): seq<Point>
    requires nu >= 1 && FacesBelow(faces, |vertices|)
  {
    vertices + Concat(EdgeBlocksOf(vertices, faces, nu)) + Concat(InteriorBlocksOf(vertices, faces, nu))
  }

  // ---------------------------------------------------------------------
  // subdivide_mesh

  /** Reading the output's prefix pre + Concat(blocks) at the id of slot k of
      block e gives that slot. */
  lemma BlockRead<T>(s: seq<T>, pre: seq<T>, blocks: seq<seq<T>>, w: nat, e: nat, k: nat)
    requires Uniform(blocks, w) && e < |blocks| && k < w
    requires |pre| + |Concat(blocks)| <= |s| && s[..|pre| + |Concat(blocks)|] == pre + Concat(blocks)
    ensures e * w + |pre| + k < |s| && s[e * w + |pre| + k] == blocks[e][k]
  {
    ConcatAt(blocks, w, e, k);
    var j := e * w + |pre| + k;
    assert s[j] == (pre + Concat(blocks))[j];
  }

  /** Gathering the output at a (possibly reversed) block of ids gives the
      (possibly reversed) block. */
  lemma GatherBlock<T>(s: seq<T>, pre: seq<T>, blocks: seq<seq<T>>, nu: nat, e: nat, flag: bool)
    requires nu >= 1 && Uniform(blocks, nu - 1) && e < |blocks|
    requires |pre| + |Concat(blocks)| <= |s| && s[..|pre| + |Concat(blocks)|] == pre + Concat(blocks)
    ensures forall i :: 0 <= i < nu - 1 ==> Reverse<nat>(EdgeBlock(|pre|, nu, e), flag)[i] < |s|
    ensures Gather(s, Reverse<nat>(EdgeBlock(|pre|, nu, e), flag)) == Reverse(blocks[e], flag)
  {
    var ids := Reverse<nat>(EdgeBlock(|pre|, nu, e), flag);
    forall i | 0 <= i < nu - 1
      ensures ids[i] < |s| && s[ids[i]] == Reverse(blocks[e], flag)[i]
    {
      var k := if flag then nu - 2 - i else i;
      BlockRead(s, pre, blocks, nu - 1, e, k);
    }
  }

  /** Reading the edge region of the output at the ids of a walk gives the
      walk's points. */
  lemma GatherWalk(s: seq<Point>, vertices: seq<Point>, faces: seq<Tri>, nu: nat, u: nat, v: nat)
    requires nu >= 1 && FacesBelow(faces, |vertices|) && SortPair((u, v)) in ExtractEdges(faces)
    requires |vertices| + |Concat(EdgeBlocksOf(vertices, faces, nu))| <= |s|
    requires s[..|vertices| + |Concat(EdgeBlocksOf(vertices, faces, nu))|] == vertices + Concat(EdgeBlocksOf(vertices, faces, nu))
    ensures forall i :: 0 <= i < nu - 1 ==> Walk(|vertices|, faces, nu, u, v)[i] < |s|
    ensures Gather(s, Walk(|vertices|, faces, nu, u, v)) == WalkPoints(vertices, faces, nu, u, v)
  {
    var r := SideRef(faces, u, v);
    GatherBlock(s, vertices, EdgeBlocksOf(vertices, faces, nu), nu, r.id, r.reversed);
  }

  /** The on-edge points of one edge p-q, w[-1-k]*p + w[k]*q, written from
      position start on. */
  method WriteEdgePoints(sv: array<Point>, start: nat, w: seq<real>, p: Point, q: Point,
                         ghost prefix: seq<Point>, ghost block: seq<Point>)
    modifies sv
    requires |block| == |w| && start + |w| <= sv.Length
    requires forall k :: 0 <= k < |w| ==> block[k] == Mix(w[|w| - 1 - k], p, w[k], q)
    requires sv[..start] == prefix
    ensures sv[..start + |w|] == prefix + block
    ensures sv[start + |w|..] == old(sv[start + |w|..])
  {
    for k := 0 to |w|
      invariant sv[..start + k] == prefix + block[..k]
      invariant sv[start + |w|..] == old(sv[start + |w|..])
    {
      sv[start + k] := Mix(w[|w| - 1 - k], p, w[k], q);
      assert block[..k + 1] == block[..k] + [block[k]];
      assert sv[..start + k + 1] == sv[..start + k] + [sv[start + k]];
    }
    assert block[..|w|] == block;
  }

  /** Block e holds the mixes of edge e's endpoints by the weights w,
      read from both ends. */
  lemma EdgeBlockMix(vertices: seq<Point>, edges: seq<Edge>, nu: nat, e: nat, w: seq<real>)
    requires nu >= 1 && EdgesWithin(edges, |vertices|) && e < |edges|
    requires |w| == nu - 1 && forall j :: 0 <= j < |w| ==> w[j] == (j + 1) as real / nu as real
    ensures |EdgeBlocks(vertices, edges, nu)[e]| == |w|
    ensures forall k :: 0 <= k < |w| ==>
      EdgeBlocks(vertices, edges, nu)[e][k] == Mix(w[|w| - 1 - k], vertices[edges[e].0], w[k], vertices[edges[e].1])
  {
    var block := EdgeBlocks(vertices, edges, nu)[e];
    assert block == EdgePoints(vertices, edges, nu, e);
    forall k | 0 <= k < |w|
      ensures block[k] == Mix(w[|w| - 1 - k], vertices[edges[e].0], w[k], vertices[edges[e].1])
    {
      assert w[|w| - 1 - k] == Weight(nu, nu - 2 - k);
    }
  }

  /** One round of the first loop of subdivide_mesh: edge e's nu-1 points
      go into its block, after the blocks of edges 0 .. e-1; the slots past
      the edge region are left as they were. */
  method FillEdge(sv: array<Point>, vertices: seq<Point>, edges: seq<Edge>, nu: nat, w: seq<real>, e: nat, start: nat)
    modifies sv
    requires nu >= 1 && EdgesWithin(edges, |vertices|) && e < |edges|
    requires |w| == nu - 1 && forall j :: 0 <= j < |w| ==> w[j] == (j + 1) as real / nu as real
    requires start == |vertices| + e * (nu - 1) && |vertices| + |edges| * (nu - 1) <= sv.Length
    requires sv[..start] == vertices + Concat(EdgeBlocks(vertices, edges, nu)[..e])
    ensures start + (nu - 1) == |vertices| + (e + 1) * (nu - 1) <= |vertices| + |edges| * (nu - 1)
    ensures sv[..start + (nu - 1)] == vertices + Concat(EdgeBlocks(vertices, edges, nu)[..e + 1])
    ensures forall j :: |vertices| + |edges| * (nu - 1) <= j < sv.Length ==> sv[j] == old(sv[j])
  {
    var edge := edges[e];
    ghost var blocks := EdgeBlocks(vertices, edges, nu);
    NextBlock(e, nu - 1);
    BlockMono(e + 1, |edges|, nu - 1);
    EdgeBlockMix(vertices, edges, nu, e, w);
    WriteEdgePoints(sv, start, w, vertices[edge.0], vertices[edge.1], vertices + Concat(blocks[..e]), blocks[e]);
    forall j | |vertices| + |edges| * (nu - 1) <= j < sv.Length
      ensures sv[j] == old(sv[j])
    {
      assert sv[j] == sv[start + |w|..][j - (start + |w|)];
    }
    PrefixSnoc(vertices, blocks, e);
  }

  /** w = np.arange(1, nu) / nu: the weights 1/nu, ..., (nu-1)/nu. */
  method EdgeWeights(nu: nat) returns (w: seq<real>)
    requires nu >= 1
    ensures |w| == nu - 1 && forall j :: 0 <= j < |w| ==> w[j] == (j + 1) as real / nu as real
  {
    w := seq(nu - 1, j requires 0 <= j < nu - 1 => (j + 1) as real / nu as real);
  }

  /** The first loop of subdivide_mesh: nu-1 interpolated points per edge,
      written into the edge's block, with w = [1/nu, ..., (nu-1)/nu]. */
  method FillEdgePoints(sv: array<Point>, vertices: seq<Point>, edges: seq<Edge>, nu: nat)
    modifies sv
    requires nu >= 1 && EdgesWithin(edges, |vertices|)
    requires |vertices| + |edges| * (nu - 1) <= sv.Length
    requires sv[..|vertices|] == vertices
    ensures sv[..|vertices| + |edges| * (nu - 1)] == vertices + Concat(EdgeBlocks(vertices, edges, nu))
    ensures sv[|vertices| + |edges| * (nu - 1)..] == old(sv[|vertices| + |edges| * (nu - 1)..])
  {
    var V := |vertices|;
    var E := |edges|;
    ghost var blocks := EdgeBlocks(vertices, edges, nu);
    var w := EdgeWeights(nu);
    ghost var n := V + E * (nu - 1);
    var start := V;
    assert blocks[..0] == [];
    for e := 0 to E
      invariant start == V + e * (nu - 1) <= n
      invariant sv[..start] == vertices + Concat(blocks[..e])
      invariant forall j :: n <= j < sv.Length ==> sv[j] == old(sv[j])
    {
      FillEdge(sv, vertices, edges, nu, w, e, start);
      start := start + (nu - 1);
    }
    assert blocks[..E] == blocks;
    assert sv[n..] == old(sv[n..]);
  }

  /** Slice assignment a[lo : lo + |vals|] = vals. */
  method SetSlice<T>(a: array<T>, lo: nat, vals: seq<T>)
    modifies a
    requires lo + |vals| <= a.Length
    ensures a[..] == old(a[..lo]) + vals + old(a[lo + |vals|..])
    ensures a[..lo + |vals|] == old(a[..lo]) + vals
  {
    forall j | 0 <= j < |vals| {
      a[lo + j] := vals[j];
    }
    assert a[..] == old(a[..lo]) + vals + old(a[lo + |vals|..]);
    assert a[..lo + |vals|] == a[..][..lo + |vals|];
  }

  /** One side of the face loop: e = edge_indices[u][v], then
      reverse(abs(e)*(nu-1)+V+r, e<0), with the direction kept as a flag. */
  method SideWalk(V: nat, faces: seq<Tri>, nu: nat, lookup: map<Edge, EdgeRef>, u: nat, v: nat) returns (w: seq<nat>)
    requires nu >= 1 && lookup == EdgeLookup(ExtractEdges(faces)) && SortPair((u, v)) in ExtractEdges(faces)
    ensures w == Walk(V, faces, nu, u, v)
  {
    LookupKeys(ExtractEdges(faces), (u, v));
    var e := lookup[(u, v)];
    w := Reverse(EdgeBlock(V, nu, e.id), e.reversed);
  }

  /** The connectivity half of one pass of the face loop: the three walks,
      T and VEF. */
  method FaceLocalIndices(V: nat, faces: seq<Tri>, nu: nat, lookup: map<Edge, EdgeRef>, f: nat)
      returns (vef: seq<nat>, ab: seq<nat>, ac: seq<nat>)
    requires nu >= 1 && f < |faces| && lookup == EdgeLookup(ExtractEdges(faces))
    ensures vef == LocalIndices(V, faces, nu, f)
    ensures ab == WalkAB(V, faces, nu, f) && ac == WalkAC(V, faces, nu, f)
  {
    var t := faces[f];
    var T := InteriorIds(V, |ExtractEdges(faces)|, nu, f);
    FaceSides(faces, f);
    ab := SideWalk(V, faces, nu, lookup, t.a, t.b);
    ac := SideWalk(V, faces, nu, lookup, t.a, t.c);
    var bc := SideWalk(V, faces, nu, lookup, t.b, t.c);
    vef := [t.a, t.b, t.c] + ab + ac + bc + T;
  }

  /** T = range(f*(nu-1)*(nu-2)//2 + E*(nu-1) + V, (f+1)*(nu-1)*(nu-2)//2 + E*(nu-1) + V). */
  method InteriorIds(V: nat, E: nat, nu: nat, f: nat) returns (T: seq<nat>)
    requires nu >= 1
    ensures T == InteriorBlock(V, E, nu, f)
  {
    HalfProduct(f, nu);
    HalfProduct(f + 1, nu);
    var lo := f * (nu - 1) * (nu - 2) / 2 + E * (nu - 1) + V;
    var hi := (f + 1) * (nu - 1) * (nu - 2) / 2 + E * (nu - 1) + V;
    assert lo == InteriorStart(V, E, nu, f) && hi == InteriorStart(V, E, nu, f + 1);
    T := Range(lo, hi);
  }

  /** Block i of width w ends where block i+1 starts. */
  lemma NextBlock(i: nat, w: nat)
    ensures (i + 1) * w == i * w + w
  {
  }

  /** Writes block f of a list laid out as prefix + blocks[0] + blocks[1] + ...,
      once the blocks before it are in place. */
  method AppendBlock<T>(a: array<T>, start: nat, end: nat, ghost prefix: seq<T>, ghost blocks: seq<seq<T>>, f: nat, vals: seq<T>)
    modifies a
    requires f < |blocks| && vals == blocks[f] && end == start + |vals| <= a.Length
    requires a[..start] == prefix + Concat(blocks[..f])
    ensures a[..end] == prefix + Concat(blocks[..f + 1])
    ensures a[end..] == old(a[end..])
  {
    SetSlice(a, start, vals);
    ConcatSnoc(blocks, f);
    assert a[end..] == a[..][end..];
  }

  /** The first start slots of s hold the input vertices, the edge blocks
      and the interior blocks of faces 0 .. f-1. */
  ghost predicate InteriorFilled(s: seq<Point>, vertices: seq<Point>, faces: seq<Tri>, nu: nat, f: nat, start: nat)
    requires nu >= 1 && FacesBelow(faces, |vertices|) && f <= |faces|
  {
    start <= |s| && s[..start] == vertices + Concat(EdgeBlocksOf(vertices, faces, nu)) + Concat(InteriorBlocksOf(vertices, faces, nu)[..f])
  }

  /** inside_points(subvertices[AB, :], subvertices[AC, :]), read from an
      output whose input and edge regions, and the interior blocks of the
      faces before f, are filled. */
  method FaceInteriorPoints(s: seq<Point>, vertices: seq<Point>, faces: seq<Tri>, nu: nat, ab: seq<nat>, ac: seq<nat>, f: nat, start: nat)
      returns (pts: seq<Point>)
    requires nu >= 1 && FacesBelow(faces, |vertices|) && f < |faces|
    requires ab == WalkAB(|vertices|, faces, nu, f) && ac == WalkAC(|vertices|, faces, nu, f)
    requires InteriorFilled(s, vertices, faces, nu, f, start)
    ensures pts == FaceInterior(vertices, faces, nu, f)
  {
    PrefixOfPrefix(s, start, vertices + Concat(EdgeBlocksOf(vertices, faces, nu)), Concat(InteriorBlocksOf(vertices, faces, nu)[..f]));
    var t := faces[f];
    FaceSides(faces, f);
    GatherWalk(s, vertices, faces, nu, t.a, t.b);
    GatherWalk(s, vertices, faces, nu, t.a, t.c);
    var vAB := Gather(s, ab);
    var vAC := Gather(s, ac);
    pts := InsidePoints(vAB, vAC);
  }

  /** Two lists that agree from n on agree from any later m on. */
  lemma SuffixOfSuffix<T>(s: seq<T>, t: seq<T>, n: nat, m: nat)
    requires n <= m <= |s| == |t| && s[n..] == t[n..]
    ensures s[m..] == t[m..]
  {
    assert s[m..] == s[n..][m - n..];
    assert t[m..] == t[n..][m - n..];
  }

  lemma PrefixOfPrefix<T>(s: seq<T>, n: nat, x: seq<T>, y: seq<T>)
    requires n <= |s| && s[..n] == x + y
    ensures |x| <= |s| && s[..|x|] == x
  {
    assert s[..|x|] == s[..n][..|x|];
  }

  /** subfaces[f*nu**2 : (f+1)*nu**2, :] = VEF[reordered_template]. */
  method WriteFaceRows(sf: array<Tri>, V: nat, faces: seq<Tri>, nu: nat, vef: seq<nat>, reordered: seq<Tri>, f: nat, base: nat)
    modifies sf
    requires nu >= 1 && f < |faces|
    requires vef == LocalIndices(V, faces, nu, f) && reordered == ReorderedTemplate(nu)
    requires base + Sq(nu) <= sf.Length
    requires sf[..base] == Concat(FaceBlocks(V, faces, nu)[..f])
    ensures sf[..base + Sq(nu)] == Concat(FaceBlocks(V, faces, nu)[..f + 1])
    ensures sf[base + Sq(nu)..] == old(sf[base + Sq(nu)..])
  {
    var rows := seq(|reordered|, j requires 0 <= j < |reordered| => Compose(vef, reordered[j]));
    assert rows == FaceBlocks(V, faces, nu)[f];
    AppendBlock(sf, base, base + Sq(nu), [], FaceBlocks(V, faces, nu), f, rows);
  }

  /** subvertices[T, :] = pts, with pts = inside_points(subvertices[AB, :],
      subvertices[AC, :]) the interior points of face f. */
  method WriteFaceInterior(sv: array<Point>, vertices: seq<Point>, faces: seq<Tri>, nu: nat,
                           pts: seq<Point>, f: nat, start: nat)
    modifies sv
    requires nu >= 1 && FacesBelow(faces, |vertices|) && f < |faces|
    requires pts == FaceInterior(vertices, faces, nu, f)
    requires start + InnerCount(nu) <= sv.Length
    requires InteriorFilled(sv[..], vertices, faces, nu, f, start)
    ensures InteriorFilled(sv[..], vertices, faces, nu, f + 1, start + InnerCount(nu))
    ensures sv[start + InnerCount(nu)..] == old(sv[start + InnerCount(nu)..])
  {
    AppendBlock(sv, start, start + InnerCount(nu), vertices + Concat(EdgeBlocksOf(vertices, faces, nu)),
                InteriorBlocksOf(vertices, faces, nu), f, pts);
  }

  /** The state of the face loop before face f: the input vertices, the edge
      blocks and the interior blocks of faces 0 .. f-1 are in place in sv, and
      the rows of faces 0 .. f-1 in sf. */
  ghost predicate Stitched(sv: seq<Point>, sf: seq<Tri>, vertices: seq<Point>, faces: seq<Tri>, nu: nat, f: nat)
    requires nu >= 1 && FacesBelow(faces, |vertices|) && f <= |faces|
  {
    InteriorFilled(sv, vertices, faces, nu, f, InteriorStart(|vertices|, |ExtractEdges(faces)|, nu, f))
    && 0 <= f * Sq(nu) <= |sf| && sf[..f * Sq(nu)] == Concat(FaceBlocks(|vertices|, faces, nu)[..f])
  }

  /** One pass of the face loop of subdivide_mesh: face f's local ids, its
      nu*nu rows of the face list, then its interior points. */
  method StitchFace(sv: array<Point>, sf: array<Tri>, vertices: seq<Point>, faces: seq<Tri>, nu: nat,
                    lookup: map<Edge, EdgeRef>, reordered: seq<Tri>, f: nat, start: nat, base: nat)
    modifies sv, sf
    requires nu >= 1 && FacesBelow(faces, |vertices|) && f < |faces|
    requires lookup == EdgeLookup(ExtractEdges(faces)) && reordered == ReorderedTemplate(nu)
    requires start == InteriorStart(|vertices|, |ExtractEdges(faces)|, nu, f) && base == f * Sq(nu)
    requires start + InnerCount(nu) <= sv.Length && base + Sq(nu) <= sf.Length
    requires Stitched(sv[..], sf[..], vertices, faces, nu, f)
    ensures Stitched(sv[..], sf[..], vertices, faces, nu, f + 1)
    ensures sv[start + InnerCount(nu)..] == old(sv[start + InnerCount(nu)..])
    ensures sf[base + Sq(nu)..] == old(sf[base + Sq(nu)..])
  {
    var vef, ab, ac := FaceLocalIndices(|vertices|, faces, nu, lookup, f);
    WriteFaceRows(sf, |vertices|, faces, nu, vef, reordered, f, base);
    var pts := FaceInteriorPoints(sv[..], vertices, faces, nu, ab, ac, f, start);
    WriteFaceInterior(sv, vertices, faces, nu, pts, f, start);
    StitchedNext(sv[..], sf[..], vertices, faces, nu, f, start, base);
  }

  /** The two blocks written for face f extend the state before face f to
      the state before face f + 1. */
  lemma StitchedNext(sv: seq<Point>, sf: seq<Tri>, vertices: seq<Point>, faces: seq<Tri>, nu: nat, f: nat, start: nat, base: nat)
    requires nu >= 1 && FacesBelow(faces, |vertices|) && f < |faces|
    requires start == InteriorStart(|vertices|, |ExtractEdges(faces)|, nu, f) && base == f * Sq(nu)
    requires InteriorFilled(sv, vertices, faces, nu, f + 1, start + InnerCount(nu)) && base + Sq(nu) <= |sf|
    requires sf[..base + Sq(nu)] == Concat(FaceBlocks(|vertices|, faces, nu)[..f + 1])
    ensures Stitched(sv, sf, vertices, faces, nu, f + 1)
  {
    assert InteriorStart(|vertices|, |ExtractEdges(faces)|, nu, f + 1) == start + InnerCount(nu) by {
      NextBlock(f, InnerCount(nu));
    }
    assert (f + 1) * Sq(nu) == base + Sq(nu) by {
      NextBlock(f, Sq(nu));
    }
  }

  /** The face loop of subdivide_mesh. */
  method StitchFaces(sv: array<Point>, sf: array<Tri>, vertices: seq<Point>, faces: seq<Tri>, nu: nat,
                     lookup: map<Edge, EdgeRef>, reordered: seq<Tri>)
    modifies sv, sf
    requires nu >= 1 && FacesBelow(faces, |vertices|)
    requires lookup == EdgeLookup(ExtractEdges(faces)) && reordered == ReorderedTemplate(nu)
    requires sv.Length == InteriorStart(|vertices|, |ExtractEdges(faces)|, nu, |faces|)
    requires sf.Length == |faces| * Sq(nu)
    requires Stitched(sv[..], sf[..], vertices, faces, nu, 0)
    ensures sv[..] == SubVertices(vertices, faces, nu)
    ensures sf[..] == SubFaces(|vertices|, faces, nu)
  {
    var V := |vertices|;
    var E := |ExtractEdges(faces)|;
    var F := |faces|;
    for f := 0 to F
      invariant Stitched(sv[..], sf[..], vertices, faces, nu, f)
    {
      BlockMono(f + 1, F, InnerCount(nu));
      BlockMono(f + 1, F, Sq(nu));
      NextBlock(f, InnerCount(nu));
      NextBlock(f, Sq(nu));
      StitchFace(sv, sf, vertices, faces, nu, lookup, reordered, f, InteriorStart(V, E, nu, f), f * Sq(nu));
    }
    assert InteriorBlocksOf(vertices, faces, nu)[..F] == InteriorBlocksOf(vertices, faces, nu);
    assert FaceBlocks(V, faces, nu)[..F] == FaceBlocks(V, faces, nu);
    assert sv[..] == sv[..InteriorStart(V, E, nu, F)];
    assert sf[..] == sf[..F * Sq(nu)];
  }

  /** reordered_template = ordering[template]. */
  method ReorderTemplate(nu: nat) returns (reordered: seq<Tri>)
    requires nu >= 1
    ensures reordered == ReorderedTemplate(nu)
  {
    var template := FacesTemplate(nu);
    var ordering := VertexOrdering(nu);
    TemplateBelow(nu);
    reordered := seq(|template|, t requires 0 <= t < |template| => Compose(ordering, template[t]));
  }

  /** Once the input vertices and the edge blocks are in place, the face loop
      can start. */
  lemma StitchedStart(sv: seq<Point>, sf: seq<Tri>, vertices: seq<Point>, faces: seq<Tri>, nu: nat)
    requires nu >= 1 && FacesBelow(faces, |vertices|)
    requires EdgesWithin(ExtractEdges(faces), |vertices|)
    requires |vertices| + |ExtractEdges(faces)| * (nu - 1) <= |sv|
    requires sv[..|vertices| + |ExtractEdges(faces)| * (nu - 1)] == vertices + Concat(EdgeBlocks(vertices, ExtractEdges(faces), nu))
    ensures Stitched(sv, sf, vertices, faces, nu, 0)
  {
    assert EdgeBlocksOf(vertices, faces, nu) == EdgeBlocks(vertices, ExtractEdges(faces), nu);
    assert InteriorBlocksOf(vertices, faces, nu)[..0] == [] && FaceBlocks(|vertices|, faces, nu)[..0] == [];
  }

  /** subdivide_mesh: allocates the output, copies the input vertices, builds
      the edge list, the lookup and the renumbered template, fills the edge
      blocks, then stitches face by face. */
  method SubdivideMesh(vertices: seq<Point>, faces: seq<Tri>, nu: nat) returns (subvertices: seq<Point>, subfaces: seq<Tri>)
    requires nu >= 1 && FacesBelow(faces, |vertices|)
    ensures subvertices == SubVertices(vertices, faces, nu)
    ensures subfaces == SubFaces(|vertices|, faces, nu)
  {
    var edges := ExtractEdges(faces);
    var F := |faces|;
    var V := |vertices|;
    var E := |edges|;
    SqClosed(nu);
    CountIsEnd(V, E, F, nu);
    BlockMono(0, F, InnerCount(nu));
    BlockMono(0, E, nu - 1);
    var nf := F * (nu * nu);
    var nv := V + E * (nu - 1) + F * (nu - 1) * (nu - 2) / 2;
    assert nv == InteriorStart(V, E, nu, F);
    var sf := new Tri[nf];
    var sv := new Point[nv];
    forall i | 0 <= i < V {
      sv[i] := vertices[i];
    }
    var lookup := BuildEdgeLookup(edges);
    var reordered := ReorderTemplate(nu);
    ExtractedWithin(faces, V);
    FillEdgePoints(sv, vertices, edges, nu);
    StitchedStart(sv[..], sf[..], vertices, faces, nu);
    StitchFaces(sv, sf, vertices, faces, nu, lookup, reordered);
    subvertices := sv[..];
    subfaces := sf[..];
  }
}
