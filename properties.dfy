/** What the subdivided mesh is: its sizes, where every small triangle and
    every output vertex comes from, and that every output index names an
    output vertex. */
module SubdivisionProperties {
  import opened Mesh
  import opened SubdivisionTemplate
  import opened EdgeIndexer
  import opened Interpolation
  import opened MeshSubdivider

  // ---------------------------------------------------------------------
  // Sizes

  /** The output has V + E(nu-1) + F(nu-1)(nu-2)/2 vertices and F*nu*nu faces. */
  lemma SubdivisionSizes(vertices: seq<Point>, faces: seq<Tri>, nu: nat)
    requires nu >= 1 && FacesBelow(faces, |vertices|)
    ensures |SubVertices(vertices, faces, nu)| == SubvertexCount(|vertices|, |ExtractEdges(faces)|, |faces|, nu)
    ensures |SubFaces(|vertices|, faces, nu)| == |faces| * (nu * nu)
  {
    ConcatLength(EdgeBlocksOf(vertices, faces, nu), nu - 1);
    ConcatLength(InteriorBlocksOf(vertices, faces, nu), InnerCount(nu));
    ConcatLength(FaceBlocks(|vertices|, faces, nu), Sq(nu));
    SqClosed(nu);
    CountIsEnd(|vertices|, |ExtractEdges(faces)|, |faces|, nu);
  }

  // ---------------------------------------------------------------------
  // The faces

  /** Row j = f*nu*nu + t of the output faces is template triangle t of
      face f, renumbered to the face's global ids. */
  lemma SubFaceRow(V: nat, faces: seq<Tri>, nu: nat, f: nat, t: nat, j: nat)
    requires nu >= 1 && f < |faces| && t < Sq(nu) && j == f * Sq(nu) + t
    ensures j < |SubFaces(V, faces, nu)|
    ensures SubFaces(V, faces, nu)[j] == Compose(LocalIndices(V, faces, nu, f), ReorderedTemplate(nu)[t])
  {
    ConcatAtIndex(FaceBlocks(V, faces, nu), Sq(nu), f, t, j);
    FaceBlockAt(V, faces, nu, f, t);
  }

  /** The upward small triangle q of layer i of face f, in row
      j = f*nu*nu + i*i + 2q, joins lattice points (i, q), (i+1, q) and
      (i+1, q+1) of that face. */
  lemma SubFaceUp(V: nat, faces: seq<Tri>, nu: nat, f: nat, i: nat, q: nat, j: nat)
    requires f < |faces| && i < nu && q <= i && j == f * Sq(nu) + Sq(i) + 2 * q
    ensures j < |SubFaces(V, faces, nu)|
    ensures SubFaces(V, faces, nu)[j]
         == Tri(LatticeVertex(V, faces, nu, f, i, q), LatticeVertex(V, faces, nu, f, i + 1, q), LatticeVertex(V, faces, nu, f, i + 1, q + 1))
  {
    var k := Sq(i) + 2 * q;
    FaceRowUp(V, faces, nu, f, i, q, k);
    SubFaceRow(V, faces, nu, f, k, j);
  }

  /** The downward small triangle q of layer i of face f, in row
      j = f*nu*nu + i*i + 2q + 1, joins lattice points (i, q), (i+1, q+1)
      and (i, q+1) of that face. */
  lemma SubFaceDown(V: nat, faces: seq<Tri>, nu: nat, f: nat, i: nat, q: nat, j: nat)
    requires f < |faces| && i < nu && q < i && j == f * Sq(nu) + Sq(i) + 2 * q + 1
    ensures j < |SubFaces(V, faces, nu)|
    ensures SubFaces(V, faces, nu)[j]
         == Tri(LatticeVertex(V, faces, nu, f, i, q), LatticeVertex(V, faces, nu, f, i + 1, q + 1), LatticeVertex(V, faces, nu, f, i, q + 1))
  {
    var k := Sq(i) + 2 * q + 1;
    FaceRowDown(V, faces, nu, f, i, q, k);
    SubFaceRow(V, faces, nu, f, k, j);
  }

  /** Every global id of face f names an output vertex: it lies below
      InteriorStart(F), the output vertex count. */
  lemma LocalIndicesBelow(V: nat, faces: seq<Tri>, nu: nat, f: nat)
    requires nu >= 1 && FacesBelow(faces, V) && f < |faces|
    ensures IdsBelow(LocalIndices(V, faces, nu, f), InteriorStart(V, |ExtractEdges(faces)|, nu, |faces|))
  {
    var E := |ExtractEdges(faces)|;
    var n := InteriorStart(V, E, nu, |faces|);
    var t := faces[f];
    EdgeRegionBelow(V, E, nu, |faces|);
    var corners: seq<nat> := [t.a, t.b, t.c];
    assert IdsBelow(corners, n) by {
      assert TriBelow(t, V);
    }
    FaceSides(faces, f);
    var ab := WalkAB(V, faces, nu, f);
    var ac := WalkAC(V, faces, nu, f);
    var bc := WalkBC(V, faces, nu, f);
    var ins := InteriorBlock(V, E, nu, f);
    assert IdsBelow(ab, n) by {
      WalkBelow(V, faces, nu, t.a, t.b, n);
    }
    assert IdsBelow(ac, n) by {
      WalkBelow(V, faces, nu, t.a, t.c, n);
    }
    assert IdsBelow(bc, n) by {
      WalkBelow(V, faces, nu, t.b, t.c, n);
    }
    assert IdsBelow(ins, n) by {
      InteriorBlockBelow(V, E, nu, f, |faces|);
    }
    IdsBelowConcat(corners, ab, n);
    IdsBelowConcat(corners + ab, ac, n);
    IdsBelowConcat(corners + ab + ac, bc, n);
    IdsBelowConcat(corners + ab + ac + bc, ins, n);
    assert LocalIndices(V, faces, nu, f) == corners + ab + ac + bc + ins;
  }

  /** The edge region ends where the interior blocks start. */
  lemma EdgeRegionBelow(V: nat, E: nat, nu: nat, F: nat)
    requires nu >= 1
    ensures V <= InteriorStart(V, E, nu, 0) <= InteriorStart(V, E, nu, F)
  {
    BlockMono(0, F, InnerCount(nu));
  }

  /** Face f's interior ids lie below InteriorStart(F) for f < F. */
  lemma InteriorBlockBelow(V: nat, E: nat, nu: nat, f: nat, F: nat)
    requires nu >= 1 && f < F
    ensures IdsBelow(InteriorBlock(V, E, nu, f), InteriorStart(V, E, nu, F))
  {
    NextBlock(f, InnerCount(nu));
    BlockMono(f + 1, F, InnerCount(nu));
  }

  /** The on-edge ids met along a side lie in the edge region, below any
      bound n at or above its end. */
  lemma WalkBelow(V: nat, faces: seq<Tri>, nu: nat, u: nat, v: nat, n: nat)
    requires nu >= 1 && SortPair((u, v)) in ExtractEdges(faces)
    requires InteriorStart(V, |ExtractEdges(faces)|, nu, 0) <= n
    ensures IdsBelow(Walk(V, faces, nu, u, v), n)
  {
    var r := SideRef(faces, u, v);
    var E := |ExtractEdges(faces)|;
    forall k | 0 <= k < nu - 1
      ensures EdgeBlock(V, nu, r.id)[k] < n
    {
      BlockBelow(r.id, E, nu - 1, k);
    }
  }

  /** Every output face names three output vertices. */
  lemma SubFacesBelow(vertices: seq<Point>, faces: seq<Tri>, nu: nat)
    requires nu >= 1 && FacesBelow(faces, |vertices|)
    ensures FacesBelow(SubFaces(|vertices|, faces, nu), |SubVertices(vertices, faces, nu)|)
  {
    var V := |vertices|;
    var blocks := FaceBlocks(V, faces, nu);
    var rt := ReorderedTemplate(nu);
    SubdivisionSizes(vertices, faces, nu);
    forall j | 0 <= j < |SubFaces(V, faces, nu)|
      ensures TriBelow(SubFaces(V, faces, nu)[j], |SubVertices(vertices, faces, nu)|)
    {
      var f, t := ConcatIndex(blocks, Sq(nu), j);
      LocalIndicesBelow(V, faces, nu, f);
      CountIsEnd(V, |ExtractEdges(faces)|, |faces|, nu);
      assert TriBelow(rt[t], Count(nu));
      assert blocks[f][t] == Compose(LocalIndices(V, faces, nu, f), rt[t]);
    }
  }

  // ---------------------------------------------------------------------
  // The vertices

  /** For faces without repeated corners, the points read along the side
      u -> v are the on-edge points from u to v, whichever way the edge is stored. */
  lemma WalkPointsAre(vertices: seq<Point>, faces: seq<Tri>, nu: nat, u: nat, v: nat)
    requires nu >= 1 && FacesBelow(faces, |vertices|) && forall f :: 0 <= f < |faces| ==> NonDegenerate(faces[f])
    requires SortPair((u, v)) in ExtractEdges(faces) && u != v
    ensures u < |vertices| && v < |vertices|
    ensures forall k :: 0 <= k < nu - 1 ==> WalkPoints(vertices, faces, nu, u, v)[k] == EdgePoint(nu, vertices[u], vertices[v], k)
  {
    var edges := ExtractEdges(faces);
    var r := SideRef(faces, u, v);
    SideRefIs(faces, u, v);
    ExtractedWithin(faces, |vertices|);
    var e := edges[r.id];
    assert e.0 < |vertices| && e.1 < |vertices|;
    var block := EdgeBlocksOf(vertices, faces, nu)[r.id];
    assert block == EdgePoints(vertices, edges, nu, r.id);
    forall k | 0 <= k < nu - 1
      ensures WalkPoints(vertices, faces, nu, u, v)[k] == EdgePoint(nu, vertices[u], vertices[v], k)
    {
      if u > v {
        EdgePointFlip(nu, vertices[u], vertices[v], k);
      }
    }
  }

  /** The output vertex list starts with the input vertices and the edge blocks. */
  lemma SubVerticesPrefix(vertices: seq<Point>, faces: seq<Tri>, nu: nat)
    requires nu >= 1 && FacesBelow(faces, |vertices|)
    ensures |vertices| + |Concat(EdgeBlocksOf(vertices, faces, nu))| <= |SubVertices(vertices, faces, nu)|
    ensures SubVertices(vertices, faces, nu)[..|vertices| + |Concat(EdgeBlocksOf(vertices, faces, nu))|]
         == vertices + Concat(EdgeBlocksOf(vertices, faces, nu))
  {
    var pre := vertices + Concat(EdgeBlocksOf(vertices, faces, nu));
    assert SubVertices(vertices, faces, nu) == pre + Concat(InteriorBlocksOf(vertices, faces, nu));
    assert (pre + Concat(InteriorBlocksOf(vertices, faces, nu)))[..|pre|] == pre;
  }

  /** On-edge point k along side u -> v of a face is output vertex Walk[k]. */
  lemma SideVertexAt(vertices: seq<Point>, faces: seq<Tri>, nu: nat, u: nat, v: nat, k: nat)
    requires nu >= 1 && FacesBelow(faces, |vertices|) && forall f :: 0 <= f < |faces| ==> NonDegenerate(faces[f])
    requires SortPair((u, v)) in ExtractEdges(faces) && u != v && k < nu - 1
    ensures u < |vertices| && v < |vertices|
    ensures Walk(|vertices|, faces, nu, u, v)[k] < |SubVertices(vertices, faces, nu)|
    ensures SubVertices(vertices, faces, nu)[Walk(|vertices|, faces, nu, u, v)[k]] == EdgePoint(nu, vertices[u], vertices[v], k)
  {
    var s := SubVertices(vertices, faces, nu);
    SubVerticesPrefix(vertices, faces, nu);
    GatherWalk(s, vertices, faces, nu, u, v);
    WalkPointsAre(vertices, faces, nu, u, v);
    assert Gather(s, Walk(|vertices|, faces, nu, u, v))[k] == s[Walk(|vertices|, faces, nu, u, v)[k]];
  }

  /** Slot k of face f's interior block is output vertex InteriorStart(f) + k. */
  lemma InteriorRegion(vertices: seq<Point>, faces: seq<Tri>, nu: nat, f: nat, k: nat)
    requires nu >= 1 && FacesBelow(faces, |vertices|) && f < |faces| && k < InnerCount(nu)
    ensures InteriorStart(|vertices|, |ExtractEdges(faces)|, nu, f) + k < |SubVertices(vertices, faces, nu)|
    ensures SubVertices(vertices, faces, nu)[InteriorStart(|vertices|, |ExtractEdges(faces)|, nu, f) + k]
         == FaceInterior(vertices, faces, nu, f)[k]
  {
    var edgeBlocks := EdgeBlocksOf(vertices, faces, nu);
    var pre := vertices + Concat(edgeBlocks);
    ConcatLength(edgeBlocks, nu - 1);
    ConcatAfter(pre, InteriorBlocksOf(vertices, faces, nu), InnerCount(nu), f, k,
      InteriorStart(|vertices|, |ExtractEdges(faces)|, nu, f) + k);
  }

  /** Interior point Pt(r-2, c-1) of face f = (A, B, C) is lattice point
      (r, c): interpolated between the on-edge points of sides A-B and A-C,
      it lands at barycentric weights (nu-r)/nu, (r-c)/nu, c/nu. */
  lemma FaceInteriorAt(vertices: seq<Point>, faces: seq<Tri>, nu: nat, f: nat, r: nat, c: nat)
    requires nu >= 1 && FacesBelow(faces, |vertices|) && forall g :: 0 <= g < |faces| ==> NonDegenerate(faces[g])
    requires f < |faces| && 0 < c < r < nu
    ensures TriBelow(faces[f], |vertices|) && Pt(r - 2, c - 1) < InnerCount(nu)
    ensures FaceInterior(vertices, faces, nu, f)[Pt(r - 2, c - 1)]
         == Bary(nu, vertices[faces[f].a], vertices[faces[f].b], vertices[faces[f].c], r, c)
  {
    var t := faces[f];
    FaceSides(faces, f);
    InterioriBelow(nu, r, c);
    var vAB := WalkPoints(vertices, faces, nu, t.a, t.b);
    var vAC := WalkPoints(vertices, faces, nu, t.a, t.c);
    WalkPointsAre(vertices, faces, nu, t.a, t.b);
    WalkPointsAre(vertices, faces, nu, t.a, t.c);
    InsideLattice(nu, vertices[t.a], vertices[t.b], vertices[t.c], vAB, vAC, r, c);
    assert FaceInterior(vertices, faces, nu, f) == Interpolation.Inside(vAB, vAC);
  }

  /** Interior lattice point (r, c) of face f is output vertex
      InteriorStart(f) + Pt(r-2, c-1), at its barycentric position. */
  lemma InteriorVertexIsLattice(vertices: seq<Point>, faces: seq<Tri>, nu: nat, f: nat, r: nat, c: nat)
    requires nu >= 1 && FacesBelow(faces, |vertices|) && forall g :: 0 <= g < |faces| ==> NonDegenerate(faces[g])
    requires f < |faces| && 0 < c < r < nu
    ensures TriBelow(faces[f], |vertices|)
    ensures InteriorStart(|vertices|, |ExtractEdges(faces)|, nu, f) + Pt(r - 2, c - 1) < |SubVertices(vertices, faces, nu)|
    ensures SubVertices(vertices, faces, nu)[InteriorStart(|vertices|, |ExtractEdges(faces)|, nu, f) + Pt(r - 2, c - 1)]
         == Bary(nu, vertices[faces[f].a], vertices[faces[f].b], vertices[faces[f].c], r, c)
  {
    FaceInteriorAt(vertices, faces, nu, f, r, c);
    InteriorRegion(vertices, faces, nu, f, Pt(r - 2, c - 1));
  }

  /** The output vertex of lattice point (r, c) of face f = (A, B, C) lies at
      barycentric weights (nu-r)/nu, (r-c)/nu and c/nu on A, B and C. */
  predicate PlacedAt(vertices: seq<Point>, faces: seq<Tri>, nu: nat, f: nat, r: nat, c: nat)
    requires nu >= 1 && FacesBelow(faces, |vertices|) && f < |faces| && c <= r <= nu
  {
    var t := faces[f];
    LatticeVertex(|vertices|, faces, nu, f, r, c) < |SubVertices(vertices, faces, nu)|
    && SubVertices(vertices, faces, nu)[LatticeVertex(|vertices|, faces, nu, f, r, c)]
       == Bary(nu, vertices[t.a], vertices[t.b], vertices[t.c], r, c)
  }

  /** The corners of face f keep their input positions: lattice points
      (0, 0), (nu, 0) and (nu, nu). */
  lemma CornerVertices(vertices: seq<Point>, faces: seq<Tri>, nu: nat, f: nat)
    requires nu >= 1 && FacesBelow(faces, |vertices|) && f < |faces|
    ensures PlacedAt(vertices, faces, nu, f, 0, 0)
    ensures PlacedAt(vertices, faces, nu, f, nu, 0)
    ensures PlacedAt(vertices, faces, nu, f, nu, nu)
  {
    var t := faces[f];
    var P := vertices;
    assert TriBelow(t, |P|);
    LatticeCorners(|P|, faces, nu, f);
    InputVertex(P, faces, nu, t.a);
    InputVertex(P, faces, nu, t.b);
    InputVertex(P, faces, nu, t.c);
    BaryCorners(nu, P[t.a], P[t.b], P[t.c]);
  }

  /** The input vertices come first in the output, unchanged. */
  lemma InputVertex(vertices: seq<Point>, faces: seq<Tri>, nu: nat, v: nat)
    requires nu >= 1 && FacesBelow(faces, |vertices|) && v < |vertices|
    ensures v < |SubVertices(vertices, faces, nu)| && SubVertices(vertices, faces, nu)[v] == vertices[v]
  {
    var rest := Concat(EdgeBlocksOf(vertices, faces, nu)) + Concat(InteriorBlocksOf(vertices, faces, nu));
    assert SubVertices(vertices, faces, nu) == vertices + rest;
  }

  /** A lattice point on side u -> v of face f is placed correctly when its
      id is walk entry k and on-edge point k is its barycentric position. */
  lemma PlacedOnSide(vertices: seq<Point>, faces: seq<Tri>, nu: nat, f: nat, r: nat, c: nat, u: nat, v: nat, k: nat)
    requires nu >= 1 && FacesBelow(faces, |vertices|) && forall g :: 0 <= g < |faces| ==> NonDegenerate(faces[g])
    requires f < |faces| && c <= r <= nu
    requires SortPair((u, v)) in ExtractEdges(faces) && u != v && k < nu - 1 && u < |vertices| && v < |vertices|
    requires LatticeVertex(|vertices|, faces, nu, f, r, c) == Walk(|vertices|, faces, nu, u, v)[k]
    requires EdgePoint(nu, vertices[u], vertices[v], k)
          == Bary(nu, vertices[faces[f].a], vertices[faces[f].b], vertices[faces[f].c], r, c)
    ensures PlacedAt(vertices, faces, nu, f, r, c)
  {
    SideVertexAt(vertices, faces, nu, u, v, k);
  }

  /** The points along side A-B of face f: lattice points (r, 0), 0 < r < nu. */
  lemma SideABVertices(vertices: seq<Point>, faces: seq<Tri>, nu: nat, f: nat, r: nat, c: nat)
    requires nu >= 1 && FacesBelow(faces, |vertices|) && forall g :: 0 <= g < |faces| ==> NonDegenerate(faces[g])
    requires f < |faces| && 0 < r < nu && c == 0
    ensures PlacedAt(vertices, faces, nu, f, r, c)
  {
    var t := faces[f];
    var P := vertices;
    var k := r - 1;
    FaceSides(faces, f);
    assert TriBelow(t, |P|);
    assert LatticeVertex(|P|, faces, nu, f, r, c) == Walk(|P|, faces, nu, t.a, t.b)[k] by {
      LatticeSides(|P|, faces, nu, f, k);
    }
    assert EdgePoint(nu, P[t.a], P[t.b], k) == Bary(nu, P[t.a], P[t.b], P[t.c], r, c) by {
      EdgePointIsLattice(nu, P[t.a], P[t.b], P[t.c], k);
    }
    PlacedOnSide(P, faces, nu, f, r, c, t.a, t.b, k);
  }

  /** The points along side A-C of face f: lattice points (r, r), 0 < r < nu. */
  lemma SideACVertices(vertices: seq<Point>, faces: seq<Tri>, nu: nat, f: nat, r: nat)
    requires nu >= 1 && FacesBelow(faces, |vertices|) && forall g :: 0 <= g < |faces| ==> NonDegenerate(faces[g])
    requires f < |faces| && 0 < r < nu
    ensures PlacedAt(vertices, faces, nu, f, r, r)
  {
    var t := faces[f];
    var P := vertices;
    var k := r - 1;
    FaceSides(faces, f);
    assert TriBelow(t, |P|);
    assert LatticeVertex(|P|, faces, nu, f, r, r) == Walk(|P|, faces, nu, t.a, t.c)[k] by {
      LatticeSides(|P|, faces, nu, f, k);
    }
    assert EdgePoint(nu, P[t.a], P[t.c], k) == Bary(nu, P[t.a], P[t.b], P[t.c], r, r) by {
      EdgePointIsLatticeAC(nu, P[t.a], P[t.b], P[t.c], k);
    }
    PlacedOnSide(P, faces, nu, f, r, r, t.a, t.c, k);
  }

  /** The points along side B-C of face f: lattice points (nu, c), 0 < c < nu. */
  lemma SideBCVertices(vertices: seq<Point>, faces: seq<Tri>, nu: nat, f: nat, c: nat)
    requires nu >= 1 && FacesBelow(faces, |vertices|) && forall g :: 0 <= g < |faces| ==> NonDegenerate(faces[g])
    requires f < |faces| && 0 < c < nu
    ensures PlacedAt(vertices, faces, nu, f, nu, c)
  {
    var t := faces[f];
    var P := vertices;
    var k := c - 1;
    FaceSides(faces, f);
    assert TriBelow(t, |P|);
    assert LatticeVertex(|P|, faces, nu, f, nu, c) == Walk(|P|, faces, nu, t.b, t.c)[k] by {
      LatticeSides(|P|, faces, nu, f, k);
    }
    assert EdgePoint(nu, P[t.b], P[t.c], k) == Bary(nu, P[t.a], P[t.b], P[t.c], nu, c) by {
      EdgePointIsLatticeBC(nu, P[t.a], P[t.b], P[t.c], k);
    }
    PlacedOnSide(P, faces, nu, f, nu, c, t.b, t.c, k);
  }

  /** Every lattice point (r, c) of every face f becomes the output vertex
      at its barycentric position: the subdivided face covers the input
      face exactly, and faces sharing an edge agree on the points along it. */
  lemma SubVertexAt(vertices: seq<Point>, faces: seq<Tri>, nu: nat, f: nat, r: nat, c: nat)
    requires nu >= 1 && FacesBelow(faces, |vertices|) && forall g :: 0 <= g < |faces| ==> NonDegenerate(faces[g])
    requires f < |faces| && c <= r <= nu
    ensures PlacedAt(vertices, faces, nu, f, r, c)
  {
    if 0 < c < r < nu {
      LatticeInterior(|vertices|, faces, nu, f, r, c);
      InteriorVertexIsLattice(vertices, faces, nu, f, r, c);
    } else if r == 0 || (r == nu && (c == 0 || c == nu)) {
      CornerVertices(vertices, faces, nu, f);
    } else if r == nu {
      SideBCVertices(vertices, faces, nu, f, c);
    } else if c == 0 {
      SideABVertices(vertices, faces, nu, f, r, c);
    } else {
      SideACVertices(vertices, faces, nu, f, r);
    }
  }
}
