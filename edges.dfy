/** The edge set of a triangle mesh and the lookup from an ordered pair of
    vertices to the edge they span: every side of every face, each pair
    sorted, without repetitions, in ascending lexicographic order, and a
    dictionary that resolves both directions of each edge to its index. */
module EdgeIndexer {
  import opened Mesh

  /** An (unordered) edge as a pair of vertex indices, or a directed side of a face. */
  type Edge = (nat, nat)

  /** The pair with its smaller index first (one row of a row-wise sort). */
  function SortPair(p: Edge): (r: Edge)
    ensures r.0 <= r.1
    ensures r == p || r == (p.1, p.0)
  {
    if p.0 <= p.1 then p else (p.1, p.0)
  }

  /** Lexicographic order on pairs, the order of a row-wise unique. */
  predicate LexLess(p: Edge, q: Edge) {
    p.0 < q.0 || (p.0 == q.0 && p.1 < q.1)
  }

  predicate StrictlySorted(s: seq<Edge>) {
    forall i, j :: 0 <= i < j < |s| ==> LexLess(s[i], s[j])
  }

  // ---------------------------------------------------------------------
  // Sorted, duplicate-free sequences

  /** Places x in the strictly ascending sequence s, unless it is there already. */
  function Insert(s: seq<Edge>, x: Edge): (r: seq<Edge>)
    requires StrictlySorted(s)
    ensures StrictlySorted(r)
    ensures forall y :: y in r <==> y in s || y == x
  {
    if s == [] then [x]
    else if x == s[0] then s
    else if LexLess(x, s[0]) then [x] + s
    else
      var tail := Insert(s[1..], x);
      assert forall y :: y in s <==> y == s[0] || y in s[1..];
      assert forall j :: 0 <= j < |tail| ==> LexLess(s[0], tail[j]) by {
        forall j | 0 <= j < |tail|
          ensures LexLess(s[0], tail[j])
        {
          assert tail[j] in tail;
          if tail[j] != x {
            SortedHead(s, tail[j]);
          }
        }
      }
      [s[0]] + tail
  }

  /** The distinct elements of s in ascending order (numpy's unique over rows). */
  function Unique(s: seq<Edge>): (r: seq<Edge>)
    ensures StrictlySorted(r)
    ensures forall y :: y in r <==> y in s
  {
    if s == [] then []
    else
      var n := |s| - 1;
      assert s == s[..n] + [s[n]];
      Insert(Unique(s[..n]), s[n])
  }

  /** A strictly ascending sequence holds nothing before its first element. */
  lemma SortedHead(s: seq<Edge>, y: Edge)
    requires StrictlySorted(s) && |s| > 0 && y in s[1..]
    ensures LexLess(s[0], y)
  {
  }

  /** Every element of a strictly ascending sequence is its first one or comes after it. */
  lemma SortedMin(s: seq<Edge>, y: Edge)
    requires StrictlySorted(s) && y in s
    ensures y == s[0] || LexLess(s[0], y)
  {
  }

  /** Ascending neighbours make a strictly ascending sequence. */
  lemma {:induction false} ChainSorted(s: seq<Edge>)
    requires forall i :: 0 < i < |s| ==> LexLess(s[i - 1], s[i])
    ensures StrictlySorted(s)
  {
    if |s| > 1 {
      var t := s[1..];
      assert forall i :: 0 < i < |t| ==> LexLess(t[i - 1], t[i]) by {
        forall i | 0 < i < |t|
          ensures LexLess(t[i - 1], t[i])
        {
          assert t[i - 1] == s[i] && t[i] == s[i + 1];
        }
      }
      ChainSorted(t);
      forall i, j | 0 <= i < j < |s|
        ensures LexLess(s[i], s[j])
      {
        if i == 0 && j > 1 {
          assert s[1] == t[0] && s[j] == t[j - 1];
        } else if i > 0 {
          assert s[i] == t[i - 1] && s[j] == t[j - 1];
        }
      }
    }
  }

  /** A strictly ascending sequence is determined by its elements: sorting a
      set gives one answer only. */
  lemma {:induction false} SortedUnique(s: seq<Edge>, t: seq<Edge>)
    requires StrictlySorted(s) && StrictlySorted(t)
    requires forall y :: y in s <==> y in t
    ensures s == t
  {
    if s != [] {
      assert s[0] in t;
    }
    if t != [] {
      assert t[0] in s;
    }
    if s != [] && t != [] {
      SortedMin(t, s[0]);
      SortedMin(s, t[0]);
      assert s[0] == t[0];
      forall y
        ensures y in s[1..] <==> y in t[1..]
      {
        if y in s[1..] {
          SortedHead(s, y);
          assert y in t;
        }
        if y in t[1..] {
          SortedHead(t, y);
          assert y in s;
        }
      }
      SortedUnique(s[1..], t[1..]);
      assert s == [s[0]] + s[1..];
      assert t == [t[0]] + t[1..];
    }
  }

  // ---------------------------------------------------------------------
  // Edge extraction

  /** The three sides of each face, in the order the source stacks them: all
      (a, b) sides, then all (b, c) sides, then all (a, c) sides. */
  function Sides(faces: seq<Tri>): (s: seq<Edge>)
    ensures |s| == 3 * |faces|
  {
    seq(|faces|, f requires 0 <= f < |faces| => (faces[f].a, faces[f].b))
    + seq(|faces|, f requires 0 <= f < |faces| => (faces[f].b, faces[f].c))
    + seq(|faces|, f requires 0 <= f < |faces| => (faces[f].a, faces[f].c))
  }

  /** The sides of one face with each pair sorted. */
  function SortedSidesOf(t: Tri): seq<Edge> {
    [SortPair((t.a, t.b)), SortPair((t.b, t.c)), SortPair((t.a, t.c))]
  }

  /** p is, up to order, a side of some face. */
  predicate IsFaceSide(faces: seq<Tri>, p: Edge) {
    exists f :: 0 <= f < |faces| && p in SortedSidesOf(faces[f])
  }

  /** The stacked sides with each pair sorted. */
  function SortedSides(faces: seq<Tri>): (s: seq<Edge>)
    ensures |s| == 3 * |faces|
  {
    var sides := Sides(faces);
    seq(|sides|, i requires 0 <= i < |sides| => SortPair(sides[i]))
  }

  lemma SortedSidesMembers(faces: seq<Tri>, p: Edge)
    ensures p in SortedSides(faces) <==> IsFaceSide(faces, p)
  {
    var s := SortedSides(faces);
    var n := |faces|;
    if p in s {
      var i :| 0 <= i < |s| && s[i] == p;
      var f := if i < n then i else if i < 2 * n then i - n else i - 2 * n;
      assert p in SortedSidesOf(faces[f]);
    }
    if IsFaceSide(faces, p) {
      var f :| 0 <= f < n && p in SortedSidesOf(faces[f]);
      var t := faces[f];
      if p == SortPair((t.a, t.b)) {
        assert s[f] == p;
      } else if p == SortPair((t.b, t.c)) {
        assert s[n + f] == p;
      } else {
        assert s[2 * n + f] == p;
      }
    }
  }

  /** The edge list of subdivide_mesh: each face side sorted, duplicates
      removed, in ascending order. It holds exactly the sides of the faces. */
  function ExtractEdges(faces: seq<Tri>): (edges: seq<Edge>)
    ensures StrictlySorted(edges)
    ensures forall k :: 0 <= k < |edges| ==> edges[k].0 <= edges[k].1
    ensures forall p :: p in edges <==> IsFaceSide(faces, p)
  {
    var edges := Unique(SortedSides(faces));
    assert forall p :: p in edges <==> IsFaceSide(faces, p) by {
      forall p
        ensures p in edges <==> IsFaceSide(faces, p)
      {
        SortedSidesMembers(faces, p);
      }
    }
    assert forall k :: 0 <= k < |edges| ==> edges[k].0 <= edges[k].1 by {
      forall k | 0 <= k < |edges|
        ensures edges[k].0 <= edges[k].1
      {
        assert edges[k] in SortedSides(faces);
      }
    }
    edges
  }

  /** Faces whose three corners differ give edges whose two ends differ. */
  lemma NonDegenerateEdges(faces: seq<Tri>)
    requires forall f :: 0 <= f < |faces| ==> NonDegenerate(faces[f])
    ensures forall k :: 0 <= k < |ExtractEdges(faces)| ==> ExtractEdges(faces)[k].0 < ExtractEdges(faces)[k].1
  {
    var edges := ExtractEdges(faces);
    forall k | 0 <= k < |edges|
      ensures edges[k].0 < edges[k].1
    {
      assert edges[k] in edges;
      var f :| 0 <= f < |faces| && edges[k] in SortedSidesOf(faces[f]);
    }
  }

  /** Corner indices below n give edge ends below n. */
  lemma EdgesBelow(faces: seq<Tri>, n: nat)
    requires FacesBelow(faces, n)
    ensures forall k :: 0 <= k < |ExtractEdges(faces)| ==> ExtractEdges(faces)[k].1 < n
  {
    var edges := ExtractEdges(faces);
    forall k | 0 <= k < |edges|
      ensures edges[k].1 < n
    {
      assert edges[k] in edges;
      var f :| 0 <= f < |faces| && edges[k] in SortedSidesOf(faces[f]);
      assert TriBelow(faces[f], n);
    }
  }

  /** When (0, 1) is a side and no face repeats a corner, (0, 1) is edge 0. */
  lemma FirstEdge(faces: seq<Tri>)
    requires forall f :: 0 <= f < |faces| ==> NonDegenerate(faces[f])
    requires IsFaceSide(faces, (0, 1))
    ensures |ExtractEdges(faces)| > 0 && ExtractEdges(faces)[0] == (0, 1)
  {
    var edges := ExtractEdges(faces);
    NonDegenerateEdges(faces);
    assert (0, 1) in edges;
    SortedMin(edges, (0, 1));
  }

  // ---------------------------------------------------------------------
  // Edge lookup

  /** A resolved lookup: the index of the edge and whether the queried pair
      walks it against its stored (ascending) direction. */
  datatype EdgeRef = EdgeRef(id: nat, reversed: bool)

  /** The dictionary after the first |edges| passes of the source loop: for
      edge i = (a, b), key (a, b) holds (i, forward), then key (b, a) holds
      (i, reversed); later writes overwrite earlier ones. */
  function EdgeLookup(edges: seq<Edge>): map<Edge, EdgeRef> {
    if edges == [] then map[]
    else
      var i := |edges| - 1;
      var e := edges[i];
      EdgeLookup(edges[..i])[e := EdgeRef(i, false)][(e.1, e.0) := EdgeRef(i, true)]
  }

  /** The keys of the lookup are the edges and their swaps. */
  lemma {:induction false} LookupKeys(edges: seq<Edge>, key: Edge)
    ensures key in EdgeLookup(edges) <==> key in edges || (key.1, key.0) in edges
  {
    if edges != [] {
      var i := |edges| - 1;
      LookupKeys(edges[..i], key);
      assert edges == edges[..i] + [edges[i]];
    }
  }

  /** Every id the lookup holds names an edge of the list. */
  lemma {:induction false} LookupIdsBelow(edges: seq<Edge>, key: Edge)
    requires key in EdgeLookup(edges)
    ensures EdgeLookup(edges)[key].id < |edges|
  {
    var i := |edges| - 1;
    if key != edges[i] && key != (edges[i].1, edges[i].0) {
      LookupIdsBelow(edges[..i], key);
    }
  }

  /** For a strictly sorted edge list with distinct ends, edge k is found
      forwards under (a, b) and reversed under (b, a). */
  lemma {:induction false} LookupResolves(edges: seq<Edge>, k: nat)
    requires StrictlySorted(edges)
    requires forall j :: 0 <= j < |edges| ==> edges[j].0 < edges[j].1
    requires k < |edges|
    ensures edges[k] in EdgeLookup(edges) && EdgeLookup(edges)[edges[k]] == EdgeRef(k, false)
    ensures (edges[k].1, edges[k].0) in EdgeLookup(edges)
    ensures EdgeLookup(edges)[(edges[k].1, edges[k].0)] == EdgeRef(k, true)
  {
    var i := |edges| - 1;
    if k < i {
      var prefix := edges[..i];
      assert prefix[k] == edges[k];
      LookupResolves(prefix, k);
      var e := edges[i];
      assert LexLess(edges[k], e);
      assert e != edges[k] && (e.1, e.0) != edges[k];
      assert e != (edges[k].1, edges[k].0) && (e.1, e.0) != (edges[k].1, edges[k].0);
    }
  }

  /** Both directions of every face side resolve to the same edge, and the
      direction flag says exactly whether the side runs from the larger index
      to the smaller one. */
  lemma LookupSide(edges: seq<Edge>, u: nat, v: nat)
    requires StrictlySorted(edges)
    requires forall j :: 0 <= j < |edges| ==> edges[j].0 < edges[j].1
    requires SortPair((u, v)) in edges && u != v
    ensures (u, v) in EdgeLookup(edges) && (v, u) in EdgeLookup(edges)
    ensures EdgeLookup(edges)[(u, v)].id < |edges|
    ensures edges[EdgeLookup(edges)[(u, v)].id] == SortPair((u, v))
    ensures EdgeLookup(edges)[(u, v)].id == EdgeLookup(edges)[(v, u)].id
    ensures EdgeLookup(edges)[(u, v)].reversed == (u > v)
    ensures EdgeLookup(edges)[(v, u)].reversed == (v > u)
  {
    var k :| 0 <= k < |edges| && edges[k] == SortPair((u, v));
    LookupResolves(edges, k);
  }

  /** build of edge_indices: one loop over the edges, writing (a, b) and then (b, a). */
  method BuildEdgeLookup(edges: seq<Edge>) returns (lookup: map<Edge, EdgeRef>)
    ensures lookup == EdgeLookup(edges)
  {
    lookup := map[];
    for i := 0 to |edges|
      invariant lookup == EdgeLookup(edges[..i])
    {
      assert edges[..i + 1][..i] == edges[..i];
      lookup := lookup[edges[i] := EdgeRef(i, false)];
      lookup := lookup[(edges[i].1, edges[i].0) := EdgeRef(i, true)];
    }
    assert edges[..|edges|] == edges;
  }

  // ---------------------------------------------------------------------
  // The source's signed edge ids

  /** The value the source stores: i for the forward direction, -i for the
      reversed one. */
  function SignedId(r: EdgeRef): int {
    if r.reversed then -(r.id as int) else r.id as int
  }

  /** The source's reversal test on a stored value (`eAB < 0`). */
  predicate SignedReversed(s: int) {
    s < 0
  }

  /** The source's index recovery on a stored value (`abs(eAB)`). */
  function SignedIndex(s: int): nat {
    if s < 0 then -s else s
  }

  /** The signed encoding keeps the edge index, but keeps the direction only
      for edges other than edge 0. */
  lemma SignedRoundTrip(r: EdgeRef)
    ensures SignedIndex(SignedId(r)) == r.id
    ensures SignedReversed(SignedId(r)) <==> r.reversed && r.id != 0
  {
  }

  /** As written, reversing edge 0 is invisible: when (0, 1) is edge 0, the
      query (1, 0) stores -0 == 0 and the test `< 0` reads it as forward. */
  lemma SignedZeroLost(edges: seq<Edge>)
    requires StrictlySorted(edges)
    requires forall j :: 0 <= j < |edges| ==> edges[j].0 < edges[j].1
    requires |edges| > 0 && edges[0] == (0, 1)
    ensures (1, 0) in EdgeLookup(edges)
    ensures EdgeLookup(edges)[(1, 0)].reversed
    ensures !SignedReversed(SignedId(EdgeLookup(edges)[(1, 0)]))
  {
    LookupResolves(edges, 0);
  }
}
