/** The entry point of the generator: the regular icosahedron (its fixed
    face table and its vertex table), the choice of the subdivision
    frequency from a requested vertex count, and the facade that returns
    the icosahedron itself for nu <= 1 and its subdivision otherwise. */
module Icosphere {
  import opened Mesh
  import opened EdgeIndexer
  import opened MeshSubdivider
  import opened SubdivisionProperties
  import opened AsWrittenLookup

  datatype Option<T> = None | Some(value: T)

  // ---------------------------------------------------------------------
  // The icosahedron

  /** The 20 faces of the icosahedron. Vertex 0 is the first corner of the
      five faces around it and appears nowhere else. */
  function IcoFaces(): (faces: seq<Tri>)
    ensures |faces| == 20 && FacesBelow(faces, 12)
    ensures forall f :: 0 <= f < |faces| ==> NonDegenerate(faces[f])
    ensures forall f :: 0 <= f < |faces| ==> faces[f].b != 0 && faces[f].c != 0
  {
    [Tri(0, 5, 1), Tri(0, 3, 5), Tri(0, 2, 3), Tri(0, 4, 2), Tri(0, 1, 4),
     Tri(1, 5, 8), Tri(5, 3, 10), Tri(3, 2, 7), Tri(2, 4, 11), Tri(4, 1, 9),
     Tri(7, 11, 6), Tri(11, 9, 6), Tri(9, 8, 6), Tri(8, 10, 6), Tri(10, 7, 6),
     Tri(2, 11, 7), Tri(4, 9, 11), Tri(1, 8, 9), Tri(5, 10, 8), Tri(3, 7, 10)]
  }

  /** The 30 edges of the icosahedron in ascending order. */
  function IcoEdges(): seq<Edge> {
    [(0, 1), (0, 2), (0, 3), (0, 4), (0, 5), (1, 4), (1, 5), (1, 8), (1, 9), (2, 3),
     (2, 4), (2, 7), (2, 11), (3, 5), (3, 7), (3, 10), (4, 9), (4, 11), (5, 8), (5, 10),
     (6, 7), (6, 8), (6, 9), (6, 10), (6, 11), (7, 10), (7, 11), (8, 9), (8, 10), (9, 11)]
  }

  lemma IcoEdgesSorted(edges: seq<Edge>)
    requires edges == IcoEdges()
    ensures StrictlySorted(edges)
  {
    ChainSorted(edges);
  }

  /** Every listed edge is a side of some face. */
  lemma IcoEdgesAreSides(faces: seq<Tri>, edges: seq<Edge>)
    requires faces == IcoFaces() && edges == IcoEdges()
    ensures forall k :: 0 <= k < |edges| ==> IsFaceSide(faces, edges[k])
  {
    var w := [0, 2, 1, 3, 0, 4, 0, 5, 9, 2, 3, 7, 8, 1, 7, 6, 9, 8, 5, 6, 10, 12, 11, 13, 10, 14, 10, 12, 13, 11];
    forall k | 0 <= k < |edges|
      ensures IsFaceSide(faces, edges[k])
    {
      assert edges[k] in SortedSidesOf(faces[w[k]]);
    }
  }

  /** Every side of every face is listed. */
  lemma IcoSidesAreEdges(faces: seq<Tri>, edges: seq<Edge>)
    requires faces == IcoFaces() && edges == IcoEdges()
    ensures forall f :: 0 <= f < |faces| ==> forall p :: p in SortedSidesOf(faces[f]) ==> p in edges
  {
  }

  /** The edge list subdivide_mesh extracts from the icosahedron is the 30
      edges above; its first edge is (0, 1). */
  lemma IcoEdgeList(faces: seq<Tri>)
    requires faces == IcoFaces()
    ensures ExtractEdges(faces) == IcoEdges()
    ensures |ExtractEdges(faces)| == 30 && ExtractEdges(faces)[0] == (0, 1)
  {
    var edges := IcoEdges();
    IcoEdgesSorted(edges);
    IcoEdgesAreSides(faces, edges);
    IcoSidesAreEdges(faces, edges);
    forall p
      ensures p in ExtractEdges(faces) <==> p in edges
    {
      if p in edges {
        var k :| 0 <= k < |edges| && edges[k] == p;
      }
    }
    SortedUnique(ExtractEdges(faces), edges);
  }

  /** On the icosahedron no face walks edge 0 backwards, so the signed edge
      encoding of the source gives every face the intended on-edge walks. */
  lemma IcoWalksAsWritten(V: nat, faces: seq<Tri>, nu: nat, f: nat)
    requires faces == IcoFaces() && nu >= 1 && f < |faces|
    ensures SortPair((faces[f].a, faces[f].b)) in ExtractEdges(faces)
    ensures SortPair((faces[f].a, faces[f].c)) in ExtractEdges(faces)
    ensures SortPair((faces[f].b, faces[f].c)) in ExtractEdges(faces)
    ensures SideRef(faces, faces[f].a, faces[f].b).id != 0 || !SideRef(faces, faces[f].a, faces[f].b).reversed
    ensures SideRef(faces, faces[f].a, faces[f].c).id != 0 || !SideRef(faces, faces[f].a, faces[f].c).reversed
    ensures SideRef(faces, faces[f].b, faces[f].c).id != 0 || !SideRef(faces, faces[f].b, faces[f].c).reversed
    ensures AsWrittenWalk(V, faces, nu, faces[f].a, faces[f].b) == Walk(V, faces, nu, faces[f].a, faces[f].b)
    ensures AsWrittenWalk(V, faces, nu, faces[f].a, faces[f].c) == Walk(V, faces, nu, faces[f].a, faces[f].c)
    ensures AsWrittenWalk(V, faces, nu, faces[f].b, faces[f].c) == Walk(V, faces, nu, faces[f].b, faces[f].c)
  {
    assert IsFaceSide(faces, (0, 1)) by {
      IcoEdgeList(faces);
      assert (0, 1) in ExtractEdges(faces);
    }
    AsWrittenSidesAgree(V, faces, nu, f);
  }

  // ---------------------------------------------------------------------
  // Sizes and the choice of nu

  /** 12 + 10(nu+1)(nu-1): the vertex count of the icosphere of frequency nu. */
  function IcoCount(nu: int): int {
    12 + 10 * (nu + 1) * (nu - 1)
  }

  /** Subdividing the icosahedron with frequency nu gives 12 + 10(nu+1)(nu-1)
      vertices and 20 nu^2 faces. */
  lemma IcoSizes(vertices: seq<Point>, faces: seq<Tri>, nu: nat)
    requires |vertices| == 12 && faces == IcoFaces() && nu >= 1
    ensures |SubVertices(vertices, faces, nu)| == IcoCount(nu)
    ensures |SubFaces(12, faces, nu)| == 20 * (nu * nu)
  {
    var E := |ExtractEdges(faces)|;
    assert E == 30 by { IcoEdgeList(faces); }
    SubdivisionSizes(vertices, faces, nu);
    IcoClosedCount(nu);
  }

  /** The general count V + E(nu-1) + F(nu-1)(nu-2)/2 with V = 12, E = 30, F = 20. */
  lemma IcoClosedCount(nu: nat)
    requires nu >= 1
    ensures SubvertexCount(12, 30, 20, nu) == IcoCount(nu)
  {
    ClosedMeshCount(12, 30, 20, nu);
    var p := (nu + 1) * (nu - 1);
    assert 20 * (nu + 1) * (nu - 1) == 2 * (10 * p);
  }

  /** More frequency, more vertices. */
  lemma IcoCountGrows(m: int, n: int)
    requires 1 <= m <= n
    ensures IcoCount(m) <= IcoCount(n)
  {
    assert (n + 1) * (n - 1) - (m + 1) * (m - 1) == (n - m) * (n + m);
  }

  /** The least frequency from m on whose icosphere has at least nr
      vertices, when every frequency from 1 below m has too few. */
  function MinNuFrom(nr: int, m: int): (r: int)
    requires m >= 1 && forall k :: 1 <= k < m ==> IcoCount(k) < nr
    ensures r >= m && IcoCount(r) >= nr
    ensures forall k :: 1 <= k < r ==> IcoCount(k) < nr
    decreases nr - m
  {
    if IcoCount(m) >= nr then m
    else
      assert (m + 1) * (m - 1) >= m - 1;
      MinNuFrom(nr, m + 1)
  }

  /** The least frequency (at least 1) whose icosphere has at least nr
      vertices: the integer meaning of ceil(sqrt(max(1 + (nr - 12)/10, 1))). */
  function MinNu(nr: int): (r: int)
    ensures r >= 1 && IcoCount(r) >= nr
    ensures forall k :: 1 <= k < r ==> IcoCount(k) < nr
  {
    MinNuFrom(nr, 1)
  }

  /** MinNu(nr) is the ceiling of the square root of max(1 + (nr - 12)/10, 1):
      the least positive integer whose square reaches that value. */
  lemma MinNuIsCeilSqrt(nr: int)
    ensures var m := MinNu(nr); var x := if 1.0 + (nr - 12) as real / 10.0 < 1.0 then 1.0 else 1.0 + (nr - 12) as real / 10.0;
      (m * m) as real >= x && (m == 1 || ((m - 1) * (m - 1)) as real < x)
  {
    var m := MinNu(nr);
    assert IcoCount(m) == 10 * (m * m) + 2;
    if m > 1 {
      assert IcoCount(m - 1) == 10 * ((m - 1) * (m - 1)) + 2;
    }
  }

  /** The frequency the facade subdivides with: the requested nu, raised to
      the least frequency that reaches nrVerts vertices when one is given. */
  function ChooseNu(nu: int, nrVerts: Option<int>): (r: int)
    ensures r >= nu
    ensures nrVerts.None? ==> r == nu
    ensures nrVerts.Some? ==> r >= 1 && IcoCount(r) >= nrVerts.value
    ensures nrVerts.Some? && r > nu ==> forall k :: 1 <= k < r ==> IcoCount(k) < nrVerts.value
  {
    match nrVerts
    case None => nu
    case Some(nr) =>
      var m := MinNu(nr);
      if nu >= m then
        IcoCountGrows(m, nu);
        nu
      else m
  }

  /** Asking for 100 vertices from frequency 1 gives frequency 4 (162
      vertices; frequency 3 has 92). */
  lemma ChooseNuForHundred()
    ensures ChooseNu(1, Some(100)) == 4 && IcoCount(4) == 162 && IcoCount(3) == 92
  {
    assert MinNuFrom(100, 4) == 4;
  }

  // ---------------------------------------------------------------------
  // Vertices and the facade

  /** The six directions (0, 1, phi), (0, -1, phi), (1, phi, 0), (-1, phi, 0),
      (phi, 0, 1), (-phi, 0, 1); each has squared length 1 + phi^2. */
  function Directions(phi: real): (d: seq<Point>)
    ensures |d| == 6 && forall j :: 0 <= j < 6 ==> SqNorm(d[j]) == 1.0 + phi * phi
  {
    [Point(0.0, 1.0, phi), Point(0.0, -1.0, phi), Point(1.0, phi, 0.0),
     Point(-1.0, phi, 0.0), Point(phi, 0.0, 1.0), Point(-phi, 0.0, 1.0)]
  }

  /** The twelve vertices: the six directions divided by norm, then their
      negations. */
  function IcoVertices(phi: real, norm: real): (vs: seq<Point>)
    requires norm > 0.0
    ensures |vs| == 12
    ensures forall k :: 0 <= k < 6 ==> vs[k + 6] == Neg(vs[k])
  {
    var d := Directions(phi);
    var w := 1.0 / norm;
    seq(12, k requires 0 <= k < 12 => if k < 6 then Scale(w, d[k]) else Neg(Scale(w, d[k - 6])))
  }

  /** With norm exactly sqrt(1 + phi^2) every vertex lies on the unit sphere. */
  lemma IcoUnitVertices(phi: real, norm: real)
    requires norm > 0.0 && norm * norm == 1.0 + phi * phi
    ensures forall k :: 0 <= k < 12 ==> SqNorm(IcoVertices(phi, norm)[k]) == 1.0
  {
    var vs := IcoVertices(phi, norm);
    var d := Directions(phi);
    var w := 1.0 / norm;
    var n2 := 1.0 + phi * phi;
    assert w * w * n2 == 1.0;
    forall k | 0 <= k < 12
      ensures SqNorm(vs[k]) == 1.0
    {
      var j := if k < 6 then k else k - 6;
      UnitScaled(w, d[j], n2);
    }
  }

  /** Scaling a vector of squared length n2 by w with w^2 n2 = 1, or its
      negation, gives a unit vector. */
  lemma UnitScaled(w: real, p: Point, n2: real)
    requires SqNorm(p) == n2 && w * w * n2 == 1.0
    ensures SqNorm(Scale(w, p)) == 1.0 && SqNorm(Neg(Scale(w, p))) == 1.0
  {
    assert SqNorm(Scale(w, p)) == w * w * SqNorm(p);
  }

  /** The icosphere of frequency nu, or of the least frequency with at least
      nrVerts vertices when that is larger: the icosahedron itself when the
      frequency is at most 1, its subdivision otherwise. */
  method IcosphereMesh(phi: real, norm: real, nu: int, nrVerts: Option<int>) returns (vertices: seq<Point>, faces: seq<Tri>)
    requires norm > 0.0
    ensures var n := ChooseNu(nu, nrVerts);
      && (n <= 1 ==> vertices == IcoVertices(phi, norm) && faces == IcoFaces())
      && (n > 1 ==> vertices == SubVertices(IcoVertices(phi, norm), IcoFaces(), n))
      && (n > 1 ==> faces == SubFaces(12, IcoFaces(), n))
    ensures var n := ChooseNu(nu, nrVerts); n >= 1 ==> |vertices| == IcoCount(n) && |faces| == 20 * (n * n)
  {
    vertices := IcoVertices(phi, norm);
    faces := IcoFaces();
    var n := ChooseNu(nu, nrVerts);
    if n > 1 {
      IcoSizes(vertices, faces, n);
      vertices, faces := SubdivideMesh(vertices, faces, n);
    }
  }
}
