/** The on-edge walks of subdivide_mesh exactly as the source writes them:
    the lookup stores edge i as i in the forward direction and as -i in the
    backward one, and a face reads the edge as abs(e) and its direction as
    e < 0. For i = 0 the two stored values coincide (-0 == 0), so a face
    that walks edge 0 backwards gets its points in forward order. The rest
    of the model keeps the direction as a flag (MeshSubdivider.Walk). */
module AsWrittenLookup {
  import opened Mesh
  import opened EdgeIndexer
  import opened MeshSubdivider

  /** reverse(abs(e)*(nu-1)+V+r, e<0) with e the signed value stored for u -> v. */
  function AsWrittenWalk(V: nat, faces: seq<Tri>, nu: nat, u: nat, v: nat): (w: seq<nat>)
    requires nu >= 1 && SortPair((u, v)) in ExtractEdges(faces)
    ensures |w| == nu - 1
  {
    var s := SignedId(SideRef(faces, u, v));
    Reverse(EdgeBlock(V, nu, SignedIndex(s)), SignedReversed(s))
  }

  /** Except for a backward query of edge 0, the signed encoding gives the
      intended walk. */
  lemma AsWrittenAgrees(V: nat, faces: seq<Tri>, nu: nat, u: nat, v: nat)
    requires nu >= 1 && SortPair((u, v)) in ExtractEdges(faces)
    requires SideRef(faces, u, v).id != 0 || !SideRef(faces, u, v).reversed
    ensures AsWrittenWalk(V, faces, nu, u, v) == Walk(V, faces, nu, u, v)
  {
    SignedRoundTrip(SideRef(faces, u, v));
  }

  /** When (0, 1) is a side of some face (and no face repeats a corner), it
      is edge 0, and walking it from 1 to 0 as written visits its points in
      the forward order. From nu = 3 on, where an edge holds two or more
      points, that is the wrong order: the walk from 1 to 0 is then not the
      reverse of the walk from 0 to 1, so two faces sharing the edge disagree
      about which point is which. */
  lemma AsWrittenEdgeZero(V: nat, faces: seq<Tri>, nu: nat)
    requires nu >= 1 && forall f :: 0 <= f < |faces| ==> NonDegenerate(faces[f])
    requires IsFaceSide(faces, (0, 1))
    ensures SortPair((1, 0)) in ExtractEdges(faces)
    ensures AsWrittenWalk(V, faces, nu, 1, 0) == Walk(V, faces, nu, 0, 1)
    ensures AsWrittenWalk(V, faces, nu, 0, 1) == Walk(V, faces, nu, 0, 1) == EdgeBlock(V, nu, 0)
    ensures Walk(V, faces, nu, 1, 0) == Reversed(EdgeBlock(V, nu, 0))
    ensures nu >= 3 ==> AsWrittenWalk(V, faces, nu, 1, 0) != Reversed(AsWrittenWalk(V, faces, nu, 0, 1))
  {
    var edges := ExtractEdges(faces);
    FirstEdge(faces);
    assert SortPair((1, 0)) == (0, 1) && (0, 1) in edges;
    SideRefIs(faces, 0, 1);
    SideRefIs(faces, 1, 0);
    SignedRoundTrip(SideRef(faces, 1, 0));
    SignedRoundTrip(SideRef(faces, 0, 1));
    var fwd := Walk(V, faces, nu, 0, 1);
    assert fwd == EdgeBlock(V, nu, 0);
    WalkBack(V, faces, nu, 0, 1);
    if nu >= 3 {
      ReversedAt(fwd, 0);
      assert Reversed(fwd)[0] == fwd[nu - 2] != fwd[0];
    }
  }

  /** When (0, 1) is a side and vertex 0 is never the second or third corner
      of a face, every side a face queries (A to B, A to C, B to C) goes to a
      corner other than 0, so edge 0 is never walked backwards and the signed
      encoding gives the intended walks. */
  lemma AsWrittenSidesAgree(V: nat, faces: seq<Tri>, nu: nat, f: nat)
    requires nu >= 1 && f < |faces|
    requires forall g :: 0 <= g < |faces| ==> NonDegenerate(faces[g])
    requires IsFaceSide(faces, (0, 1))
    requires faces[f].b != 0 && faces[f].c != 0
    ensures SortPair((faces[f].a, faces[f].b)) in ExtractEdges(faces)
    ensures SortPair((faces[f].a, faces[f].c)) in ExtractEdges(faces)
    ensures SortPair((faces[f].b, faces[f].c)) in ExtractEdges(faces)
    ensures SideRef(faces, faces[f].a, faces[f].b).id != 0 || !SideRef(faces, faces[f].a, faces[f].b).reversed
    ensures SideRef(faces, faces[f].a, faces[f].c).id != 0 || !SideRef(faces, faces[f].a, faces[f].c).reversed
    ensures SideRef(faces, faces[f].b, faces[f].c).id != 0 || !SideRef(faces, faces[f].b, faces[f].c).reversed
    ensures AsWrittenWalk(V, faces, nu, faces[f].a, faces[f].b) == Walk(V, faces, nu, faces[f].a, faces[f].b)
    ensures AsWrittenWalk(V, faces, nu, faces[f].a, faces[f].c) == Walk(V, faces, nu, faces[f].a, faces[f].c)
    ensures AsWrittenWalk(V, faces, nu, faces[f].b, faces[f].c) == Walk(V, faces, nu, faces[f].b, faces[f].c)
  {
    var t := faces[f];
    FaceSides(faces, f);
    FirstEdge(faces);
    assert NonDegenerate(t);
    ToNonZero(V, faces, nu, t.a, t.b);
    ToNonZero(V, faces, nu, t.a, t.c);
    ToNonZero(V, faces, nu, t.b, t.c);
  }

  /** A side queried towards a vertex other than 0 is never edge 0 walked
      backwards, once edge 0 is (0, 1). */
  lemma ToNonZero(V: nat, faces: seq<Tri>, nu: nat, u: nat, v: nat)
    requires nu >= 1 && forall g :: 0 <= g < |faces| ==> NonDegenerate(faces[g])
    requires |ExtractEdges(faces)| > 0 && ExtractEdges(faces)[0] == (0, 1)
    requires SortPair((u, v)) in ExtractEdges(faces) && u != v && v != 0
    ensures SideRef(faces, u, v).id != 0 || !SideRef(faces, u, v).reversed
    ensures AsWrittenWalk(V, faces, nu, u, v) == Walk(V, faces, nu, u, v)
  {
    SideRefIs(faces, u, v);
    AsWrittenAgrees(V, faces, nu, u, v);
  }

  /** With nu = 3 edge 0 holds the two points V and V + 1. */
  lemma EdgeZeroPoints(V: nat, nu: nat)
    requires nu == 3
    ensures EdgeBlock(V, nu, 0) == [V, V + 1]
    ensures Reversed(EdgeBlock(V, nu, 0)) == [V + 1, V]
  {
    var block := EdgeBlock(V, nu, 0);
    assert |block| == 2 && block[0] == V && block[1] == V + 1;
    ReversedAt(block, 0);
    ReversedAt(block, 1);
  }

  /** The tetrahedron (1, 0, 2), (0, 1, 3), (0, 3, 2), (1, 2, 3), whose face 0
      walks edge 0 backwards along its A-B side. With nu = 3 it has on-edge
      points 4 and 5 on edge (0, 1).
      Face 1 meets them as 4, 5 walking from 0 to 1; face 0, walking from 1
      to 0, should meet them as 5, 4, but as written it also gets 4, 5. */
  lemma TetrahedronEdgeZero(faces: seq<Tri>)
    requires |faces| == 4 && faces[0] == Tri(1, 0, 2) && faces[1] == Tri(0, 1, 3)
    requires faces[2] == Tri(0, 3, 2) && faces[3] == Tri(1, 2, 3)
    ensures SortPair((1, 0)) in ExtractEdges(faces)
    ensures AsWrittenWalk(4, faces, 3, 1, 0) == [4, 5]
    ensures Walk(4, faces, 3, 1, 0) == [5, 4]
  {
    assert IsFaceSide(faces, (0, 1)) by {
      assert (0, 1) in SortedSidesOf(faces[1]);
    }
    assert forall f :: 0 <= f < |faces| ==> NonDegenerate(faces[f]) by {
      assert NonDegenerate(faces[0]) && NonDegenerate(faces[1]);
      assert NonDegenerate(faces[2]) && NonDegenerate(faces[3]);
    }
    AsWrittenEdgeZero(4, faces, 3);
    EdgeZeroPoints(4, 3);
  }
}
