/** The per-face subdivision template: for a frequency nu, how the
    (nu+1)(nu+2)/2 lattice points of one subdivided triangle are connected
    into nu*nu small triangles, and the permutation from their reading-order
    numbering to the canonical numbering (corners, on-edge points, interior
    points).

    The lattice point in row r (0 <= r <= nu, counted from the top corner A)
    and column c (0 <= c <= r, counted from the A-B side) has reading-order
    index Pt(r, c). Row nu is the B-C side, column 0 the A-B side and the
    diagonal c == r the A-C side. */
module SubdivisionTemplate {
  import opened Mesh

  /** The triangular number 0 + 1 + ... + r, that is r(r+1)/2. */
  function Tn(r: nat): nat {
    if r == 0 then 0 else Tn(r - 1) + r
  }

  /** The closed form the source writes, r*(r+1)//2. */
  lemma TnClosed(r: nat)
    ensures Tn(r) == r * (r + 1) / 2
  {
    TnDouble(r);
    Halve(r * (r + 1), Tn(r));
  }

  lemma {:induction false} TnDouble(r: nat)
    ensures 2 * Tn(r) == r * (r + 1)
  {
    if r > 0 {
      TnDouble(r - 1);
      assert r * (r + 1) == (r - 1) * r + 2 * r;
    }
  }

  lemma Halve(x: int, y: int)
    requires x == 2 * y
    ensures x / 2 == y
  {
  }

  /** Reading-order index of lattice point (r, c): the rows above hold Tn(r) points. */
  function Pt(r: nat, c: nat): nat {
    Tn(r) + c
  }

  /** Number of lattice points of a face subdivided with frequency nu, (nu+1)(nu+2)/2. */
  function Count(nu: nat): nat {
    Tn(nu + 1)
  }

  /** Number of interior (on-face) points of a face subdivided with frequency nu, (nu-1)(nu-2)/2. */
  function InnerCount(nu: nat): nat
    requires nu >= 1
  {
    if nu == 1 then 0 else Tn(nu - 2)
  }

  /** The closed forms the source writes for Count and InnerCount. */
  lemma CountClosed(nu: nat)
    requires nu >= 1
    ensures Count(nu) == (nu + 1) * (nu + 2) / 2
    ensures InnerCount(nu) == (nu - 1) * (nu - 2) / 2
  {
    TnClosed(nu + 1);
    if nu >= 2 {
      TnClosed(nu - 2);
      assert (nu - 2) * (nu - 1) == (nu - 1) * (nu - 2);
    }
  }

  // ---------------------------------------------------------------------
  // Arithmetic of the triangular numbering

  lemma TriangularStep(r: nat)
    ensures Pt(r + 1, 0) == Pt(r, 0) + r + 1
  {
  }

  /** Row r ends before row r+1 starts. */
  lemma RowBelowNext(r: nat, c: nat)
    requires c <= r
    ensures Pt(r, c) < Pt(r + 1, 0)
  {
    TriangularStep(r);
  }

  /** Every point of an earlier row precedes every point of a later row. */
  lemma {:induction false} RowsOrdered(r: nat, c: nat, r': nat, c': nat)
    requires c <= r < r'
    ensures Pt(r, c) < Pt(r', c')
    decreases r' - r
  {
    RowBelowNext(r, c);
    if r + 1 < r' {
      RowsOrdered(r + 1, 0, r', c');
    }
  }

  /** The reading-order numbering is one-to-one on the lattice. */
  lemma PtInjective(r: nat, c: nat, r': nat, c': nat)
    requires c <= r && c' <= r'
    requires Pt(r, c) == Pt(r', c')
    ensures r == r' && c == c'
  {
    if r < r' {
      RowsOrdered(r, c, r', c');
    } else if r' < r {
      RowsOrdered(r', c', r, c);
    }
  }

  /** The reading-order numbering reaches every natural number. */
  lemma {:induction false} PtInverse(p: nat) returns (r: nat, c: nat)
    ensures c <= r && Pt(r, c) == p
  {
    if p == 0 {
      r, c := 0, 0;
    } else {
      var r0, c0 := PtInverse(p - 1);
      if c0 < r0 {
        r, c := r0, c0 + 1;
      } else {
        TriangularStep(r0);
        r, c := r0 + 1, 0;
      }
    }
  }

  /** A lattice point has an index below Count(nu) exactly when its row is at most nu. */
  lemma PtBelowCount(nu: nat, r: nat, c: nat)
    requires c <= r
    ensures Pt(r, c) < Count(nu) <==> r <= nu
  {
    if r <= nu {
      if r < nu {
        RowsOrdered(r, c, nu, nu);
      }
      RowBelowNext(nu, nu);
    } else {
      RowsOrdered(nu, nu, r, c);
      RowBelowNext(nu, nu);
      TriangularStep(nu);
    }
  }

  lemma CountSplit(nu: nat)
    requires nu >= 1
    ensures Count(nu) == 3 + 3 * (nu - 1) + InnerCount(nu)
  {
    if nu >= 2 {
      assert Tn(nu + 1) == Tn(nu) + nu + 1;
      assert Tn(nu) == Tn(nu - 1) + nu;
      assert Tn(nu - 1) == Tn(nu - 2) + nu - 1;
    }
  }

  // ---------------------------------------------------------------------
  // faces_template

  /** The upward small triangle whose top is lattice point (i, j). */
  function Up(i: nat, j: nat): Tri {
    Tri(Pt(i, j), Pt(i + 1, j), Pt(i + 1, j + 1))
  }

  /** The downward small triangle whose top-left is lattice point (i, j). */
  function Down(i: nat, j: nat): Tri {
    Tri(Pt(i, j), Pt(i + 1, j + 1), Pt(i, j + 1))
  }

  /** The first j (upward, downward) pairs of layer i. */
  function Pairs(i: nat, j: nat): seq<Tri> {
    if j == 0 then [] else Pairs(i, j - 1) + [Up(i, j - 1), Down(i, j - 1)]
  }

  /** Layer i: i pairs followed by the unpaired rightmost upward triangle. */
  function Layer(i: nat): seq<Tri> {
    Pairs(i, i) + [Up(i, i)]
  }

  /** The square n*n, built up as the sum of the first n odd numbers
      (layer i of the template holds 2i+1 triangles). */
  function Sq(n: nat): nat {
    if n == 0 then 0 else Sq(n - 1) + 2 * n - 1
  }

  lemma {:induction false} SqClosed(n: nat)
    ensures Sq(n) == n * n
  {
    if n > 0 {
      SqClosed(n - 1);
      assert n * n == (n - 1) * (n - 1) + 2 * n - 1;
    }
  }

  /** The template for frequency nu: layers 0 .. nu-1 in order, layer i
      starting at position Sq(i) = i*i. */
  function Template(nu: nat): (t: seq<Tri>)
    ensures |t| == Sq(nu)
  {
    if nu == 0 then []
    else
      var i := nu - 1;
      LayerShape(i);
      Template(i) + Layer(i)
  }

  /** The template holds nu*nu small triangles. */
  lemma TemplateSize(nu: nat)
    ensures |Template(nu)| == nu * nu
  {
    SqClosed(nu);
  }

  /** Every small triangle of the template joins lattice points of the face. */
  lemma {:induction false} TemplateBelow(nu: nat)
    ensures forall k :: 0 <= k < |Template(nu)| ==> TriBelow(Template(nu)[k], Count(nu))
  {
    if nu > 0 {
      var i := nu - 1;
      TemplateBelow(i);
      LayerBelow(i);
      TriangularStep(i + 1);
      var prefix := Template(i);
      assert Template(nu) == prefix + Layer(i);
      forall k | 0 <= k < |Template(nu)|
        ensures TriBelow(Template(nu)[k], Count(nu))
      {
        if k < |prefix| {
          assert Template(nu)[k] == prefix[k];
        } else {
          assert Template(nu)[k] == Layer(i)[k - |prefix|];
        }
      }
    }
  }

  lemma LayerShape(i: nat)
    ensures |Layer(i)| == 2 * i + 1
    ensures forall q :: 0 <= q < i ==> Layer(i)[2 * q] == Up(i, q) && Layer(i)[2 * q + 1] == Down(i, q)
    ensures Layer(i)[2 * i] == Up(i, i)
  {
    PairsShape(i, i);
  }

  /** The triangles of layer i join points of rows i and i+1, all below Pt(i+2, 0). */
  lemma LayerBelow(i: nat)
    ensures forall k :: 0 <= k < |Layer(i)| ==> TriBelow(Layer(i)[k], Pt(i + 2, 0))
  {
    LayerShape(i);
    forall k | 0 <= k < |Layer(i)|
      ensures TriBelow(Layer(i)[k], Pt(i + 2, 0))
    {
      var q := k / 2;
      assert q <= i;
      UpDownBelow(i, q);
      if k == 2 * q {
        assert Layer(i)[k] == Up(i, q);
      } else {
        assert k == 2 * q + 1 && q < i;
        assert Layer(i)[k] == Down(i, q);
      }
    }
  }

  lemma UpDownBelow(i: nat, q: nat)
    requires q <= i
    ensures TriBelow(Up(i, q), Pt(i + 2, 0))
    ensures q < i ==> TriBelow(Down(i, q), Pt(i + 2, 0))
  {
    RowBelowNext(i + 1, q + 1);
    TriangularStep(i);
    TriangularStep(i + 1);
  }

  lemma {:induction false} PairsShape(i: nat, j: nat)
    ensures |Pairs(i, j)| == 2 * j
    ensures forall q :: 0 <= q < j ==> Pairs(i, j)[2 * q] == Up(i, q) && Pairs(i, j)[2 * q + 1] == Down(i, q)
  {
    if j > 0 {
      PairsShape(i, j - 1);
    }
  }

  /** Layer i of the template starts at position i*i and holds, from left to
      right, upward triangle (i, q) at offset 2q and downward triangle (i, q)
      at offset 2q+1. */
  lemma {:induction false} TemplateAt(nu: nat, i: nat, q: nat)
    requires i < nu && q <= i
    ensures Sq(i) + 2 * i < Sq(nu)
    ensures Template(nu)[Sq(i) + 2 * q] == Up(i, q)
    ensures q < i ==> Template(nu)[Sq(i) + 2 * q + 1] == Down(i, q)
  {
    var n := nu - 1;
    var prefix := Template(n);
    var layer := Layer(n);
    LayerShape(n);
    assert Template(nu) == prefix + layer;
    assert |prefix + layer| == Sq(n) + 2 * n + 1;
    if i < n {
      TemplateAt(n, i, q);
      PrefixAt(prefix, layer, Sq(i) + 2 * q);
      if q < i {
        PrefixAt(prefix, layer, Sq(i) + 2 * q + 1);
      }
    } else {
      assert i == n && |prefix| == Sq(i);
      SuffixAt(prefix, layer, 2 * q);
      if q < i {
        SuffixAt(prefix, layer, 2 * q + 1);
      }
    }
  }

  /** Entry k = i*i + 2q + 1 of the template is downward triangle (i, q). */
  lemma TemplateDownAt(nu: nat, i: nat, q: nat, k: nat)
    requires i < nu && q < i && k == Sq(i) + 2 * q + 1
    ensures k < Sq(nu) && Template(nu)[k] == Down(i, q)
  {
    TemplateAt(nu, i, q);
  }

  /** Entry k = i*i + 2q of the template is upward triangle (i, q). */
  lemma TemplateUpAt(nu: nat, i: nat, q: nat, k: nat)
    requires i < nu && q <= i && k == Sq(i) + 2 * q
    ensures k < Sq(nu) && Template(nu)[k] == Up(i, q)
  {
    TemplateAt(nu, i, q);
  }

  lemma PrefixAt<T>(x: seq<T>, y: seq<T>, k: nat)
    requires k < |x|
    ensures (x + y)[k] == x[k]
  {
  }

  lemma SuffixAt<T>(x: seq<T>, y: seq<T>, k: nat)
    requires k < |y|
    ensures (x + y)[|x| + k] == y[k]
  {
  }

  /** The index triples the source writes for the pair at column j of layer i,
      where vertex0 = i(i+1)/2 is the first point of row i and skip = i+1. */
  lemma PairForm(i: nat, j: nat, vertex0: nat, skip: nat)
    requires vertex0 == Tn(i) && skip == i + 1
    ensures Up(i, j) == Tri(j + vertex0, j + vertex0 + skip, j + vertex0 + skip + 1)
    ensures Down(i, j) == Tri(j + vertex0, j + vertex0 + skip + 1, j + vertex0 + 1)
  {
    TriangularStep(i);
  }

  /** faces_template: fills the triangle list layer by layer, exactly as the source loops do. */
  method FacesTemplate(nu: nat) returns (faces: seq<Tri>)
    ensures faces == Template(nu)
  {
    faces := [];
    for i := 0 to nu
      invariant faces == Template(i)
    {
      var vertex0 := i * (i + 1) / 2;
      var skip := i + 1;
      assert vertex0 == Tn(i) by {
        TnClosed(i);
      }
      ghost var prefix := faces;
      for j := 0 to i
        invariant faces == prefix + Pairs(i, j)
      {
        ghost var before := faces;
        assert Tri(j + vertex0, j + vertex0 + skip, j + vertex0 + skip + 1) == Up(i, j)
            && Tri(j + vertex0, j + vertex0 + skip + 1, j + vertex0 + 1) == Down(i, j) by {
          PairForm(i, j, vertex0, skip);
        }
        faces := faces + [Tri(j + vertex0, j + vertex0 + skip, j + vertex0 + skip + 1)];
        faces := faces + [Tri(j + vertex0, j + vertex0 + skip + 1, j + vertex0 + 1)];
        assert faces == before + [Up(i, j), Down(i, j)];
      }
      assert Tri(i + vertex0, i + vertex0 + skip, i + vertex0 + skip + 1) == Up(i, i) by {
        PairForm(i, i, vertex0, skip);
      }
      faces := faces + [Tri(i + vertex0, i + vertex0 + skip, i + vertex0 + skip + 1)];
      assert faces == Template(i) + Layer(i);
    }
  }

  // ---------------------------------------------------------------------
  // vertex_ordering

  /** Canonical ids of the A-B on-edge points, in reading order. */
  function Left(nu: nat): seq<nat> { Range(3, nu + 2) }

  /** Canonical ids of the A-C on-edge points, in reading order. */
  function Right(nu: nat): seq<nat> { Range(nu + 2, 2 * nu + 1) }

  /** Canonical ids of the B-C on-edge points, in reading order. */
  function Bottom(nu: nat): seq<nat> { Range(2 * nu + 1, 3 * nu) }

  /** Canonical ids of the interior points, in reading order. */
  function InsideRange(nu: nat): seq<nat> { Range(3 * nu, Count(nu)) }

  lemma InsideLength(nu: nat)
    requires nu >= 1
    ensures |InsideRange(nu)| == InnerCount(nu)
  {
    CountSplit(nu);
  }

  /** Offset in InsideRange(nu) of the first interior point of ring i: 0, 0, 1, 3, 6, ... */
  function RingStart(i: nat): nat {
    if i == 0 then 0 else Tn(i - 1)
  }

  /** The slice bounds the source writes, i(i-1)/2 and i(i+1)/2, are the
      starts of rings i and i+1, i apart. */
  lemma RingBounds(i: nat)
    ensures i * (i - 1) / 2 == RingStart(i)
    ensures i * (i + 1) / 2 == RingStart(i) + i == Tn(i)
  {
    TnClosed(i);
    RingStartDouble(i);
    Halve(i * (i - 1), RingStart(i));
  }

  lemma {:induction false} RingStartDouble(i: nat)
    ensures 2 * RingStart(i) == i * (i - 1)
  {
    if i > 1 {
      RingStartDouble(i - 1);
      assert i * (i - 1) == (i - 1) * (i - 2) + 2 * (i - 1);
    }
  }

  lemma InnerIsPt(nu: nat)
    requires nu >= 2
    ensures InnerCount(nu) == Pt(nu - 2, 0)
  {
  }

  /** A lattice point whose index is below the start of row n lies above row n. */
  lemma RowOfBelow(r: nat, c: nat, n: nat)
    requires c <= r && Pt(r, c) < Pt(n, 0)
    ensures r < n
  {
    if r > n {
      RowsOrdered(n, 0, r, c);
    }
  }

  /** Ring i (reading row i+1, strictly between A and the B-C side): its
      A-B point, its i interior points, its A-C point. */
  function Ring(nu: nat, i: nat): (s: seq<nat>)
    requires i + 2 <= nu
    ensures |s| == i + 2
  {
    RingFits(nu, i);
    [Left(nu)[i]] + InsideRange(nu)[RingStart(i) .. RingStart(i) + i] + [Right(nu)[i]]
  }

  /** The interior points of ring i lie inside InsideRange(nu). */
  lemma RingFits(nu: nat, i: nat)
    requires i + 2 <= nu
    ensures RingStart(i) + i <= |InsideRange(nu)|
  {
    InsideLength(nu);
    RingBounds(i);
    InnerIsPt(nu);
    if i < nu - 2 {
      RowsOrdered(i, 0, nu - 2, 0);
    }
  }

  /** Entry c of ring i is the canonical id of lattice point (i+1, c). */
  lemma RingAt(nu: nat, i: nat, c: nat)
    requires i + 2 <= nu && c <= i + 1
    ensures Ring(nu, i)[c] == Canon(nu, i + 1, c)
  {
    InsideLength(nu);
    RingFits(nu, i);
    RingBounds(i);
    InnerIsPt(nu);
    var mid := InsideRange(nu)[RingStart(i) .. RingStart(i) + i];
    assert Ring(nu, i) == [Left(nu)[i]] + mid + [Right(nu)[i]];
    BracketAt(Left(nu)[i], mid, Right(nu)[i], c);
    if 0 < c <= i {
      assert mid[c - 1] == 3 * nu + RingStart(i) + (c - 1);
      assert Pt(i - 1, c - 1) == Pt(i - 1, 0) + c - 1;
    }
  }

  lemma BracketAt<T>(x: T, mid: seq<T>, y: T, c: nat)
    requires c <= |mid| + 1
    ensures ([x] + mid + [y])[c] == if c == 0 then x else if c == |mid| + 1 then y else mid[c - 1]
  {
  }

  /** The first k rings, concatenated. */
  function Rings(nu: nat, k: nat): (s: seq<nat>)
    requires k + 1 <= nu
    ensures |s| + 1 == Pt(k + 1, 0)
  {
    if k == 0 then
      assert Pt(1, 0) == Tn(0) + 1;
      []
    else
      var prefix := Rings(nu, k - 1);
      var ring := Ring(nu, k - 1);
      assert |prefix + ring| + 1 == Pt(k + 1, 0) by {
        TriangularStep(k);
      }
      prefix + ring
  }

  /** The permutation for frequency nu: entry p is the canonical id of the
      lattice point with reading-order index p. */
  function Ordering(nu: nat): (o: seq<nat>)
    requires nu >= 1
    ensures |o| == Count(nu)
  {
    TriangularStep(nu);
    [0] + Rings(nu, nu - 1) + [1] + Bottom(nu) + [2]
  }

  /** The canonical id of lattice point (r, c), position by position of the
      canonical layout [A, B, C, A-B points, A-C points, B-C points, interior]. */
  function Canon(nu: nat, r: nat, c: nat): nat
    requires 1 <= nu && c <= r <= nu
  {
    if r == 0 then 0
    else if r == nu && c == 0 then 1
    else if r == nu && c == nu then 2
    else if c == 0 then 3 + (r - 1)
    else if c == r then 3 + (nu - 1) + (r - 1)
    else if r == nu then 3 + 2 * (nu - 1) + (c - 1)
    else 3 + 3 * (nu - 1) + Pt(r - 2, c - 1)
  }

  lemma {:induction false} RingsAt(nu: nat, k: nat, r: nat, c: nat)
    requires k + 1 <= nu && 1 <= r <= k && c <= r
    ensures 1 <= Pt(r, c) <= |Rings(nu, k)|
    ensures Rings(nu, k)[Pt(r, c) - 1] == Canon(nu, r, c)
  {
    if r < k {
      RingsAt(nu, k - 1, r, c);
      RingsPrefix(nu, k, Pt(r, c) - 1);
    } else {
      assert r == k;
      RingsLast(nu, r, c);
    }
  }

  /** Entries of the first k-1 rings keep their place in the first k rings. */
  lemma RingsPrefix(nu: nat, k: nat, idx: nat)
    requires 1 <= k && k + 1 <= nu && idx < |Rings(nu, k - 1)|
    ensures idx < |Rings(nu, k)| && Rings(nu, k)[idx] == Rings(nu, k - 1)[idx]
  {
    assert Rings(nu, k) == Rings(nu, k - 1) + Ring(nu, k - 1);
  }

  /** Ring k-1 occupies the last places of the first k rings. */
  lemma RingsLast(nu: nat, k: nat, c: nat)
    requires 1 <= k && k + 1 <= nu && c <= k
    ensures Pt(k, c) - 1 < |Rings(nu, k)|
    ensures Rings(nu, k)[Pt(k, c) - 1] == Canon(nu, k, c)
  {
    var prefix := Rings(nu, k - 1);
    var ring := Ring(nu, k - 1);
    assert Rings(nu, k) == prefix + ring;
    assert |prefix| + 1 == Pt(k, 0);
    assert (prefix + ring)[|prefix| + c] == ring[c];
    RingAt(nu, k - 1, c);
  }

  /** vertex_ordering in closed form: reading-order point (r, c) is sent to
      its canonical id. */
  lemma OrderingAt(nu: nat, r: nat, c: nat)
    requires 1 <= nu && c <= r <= nu
    ensures Pt(r, c) < Count(nu)
    ensures Ordering(nu)[Pt(r, c)] == Canon(nu, r, c)
  {
    if r == 0 {
      OrderingTop(nu);
    } else if r < nu {
      OrderingMiddle(nu, r, c);
    } else {
      OrderingBottom(nu, c);
    }
  }

  /** Ordering(nu) is the top corner, the rings, then the bottom row. */
  lemma OrderingParts(nu: nat)
    requires nu >= 1
    ensures Ordering(nu) == [0] + Rings(nu, nu - 1) + ([1] + Bottom(nu) + [2])
    ensures |Rings(nu, nu - 1)| + 1 == Pt(nu, 0)
  {
    TriangularStep(nu);
    ConcatAssoc([0], Rings(nu, nu - 1), [1], Bottom(nu), [2]);
  }

  lemma ConcatAssoc<T>(a: seq<T>, b: seq<T>, c: seq<T>, d: seq<T>, e: seq<T>)
    ensures a + b + c + d + e == a + b + (c + d + e)
  {
  }

  lemma OrderingTop(nu: nat)
    requires nu >= 1
    ensures Pt(0, 0) < Count(nu) && Ordering(nu)[Pt(0, 0)] == Canon(nu, 0, 0)
  {
    OrderingParts(nu);
  }

  lemma OrderingMiddle(nu: nat, r: nat, c: nat)
    requires 1 <= r < nu && c <= r
    ensures Pt(r, c) < Count(nu)
    ensures Ordering(nu)[Pt(r, c)] == Canon(nu, r, c)
  {
    RingsAt(nu, nu - 1, r, c);
    OrderingParts(nu);
    var p := Pt(r, c);
    var rings := Rings(nu, nu - 1);
    assert 1 <= p <= |rings|;
    PrefixAt([0] + rings, [1] + Bottom(nu) + [2], p);
    SuffixAt([0], rings, p - 1);
  }

  lemma OrderingBottom(nu: nat, c: nat)
    requires nu >= 1 && c <= nu
    ensures Pt(nu, c) < Count(nu)
    ensures Ordering(nu)[Pt(nu, c)] == Canon(nu, nu, c)
  {
    OrderingParts(nu);
    var rings := Rings(nu, nu - 1);
    var tail := [1] + Bottom(nu) + [2];
    assert |tail| == nu + 1;
    SuffixAt([0] + rings, tail, c);
  }

  /** Canonical ids are below Count(nu) and differ for different lattice points. */
  lemma CanonInjective(nu: nat, r: nat, c: nat, r': nat, c': nat)
    requires 1 <= nu && c <= r <= nu && c' <= r' <= nu
    ensures Canon(nu, r, c) < Count(nu)
    ensures Canon(nu, r, c) == Canon(nu, r', c') ==> r == r' && c == c'
  {
    CountSplit(nu);
    if 0 < c < r < nu {
      InterioriBelow(nu, r, c);
    }
    if 0 < c' < r' < nu {
      InterioriBelow(nu, r', c');
    }
    if 0 < c < r < nu && 0 < c' < r' < nu && Canon(nu, r, c) == Canon(nu, r', c') {
      PtInjective(r - 2, c - 1, r' - 2, c' - 1);
    }
  }

  /** The interior point (r, c) has an interior offset below InnerCount(nu). */
  lemma InterioriBelow(nu: nat, r: nat, c: nat)
    requires 0 < c < r < nu
    ensures Pt(r - 2, c - 1) < InnerCount(nu)
  {
    InnerIsPt(nu);
    RowBelowNext(r - 2, c - 1);
    if r - 1 < nu - 2 {
      RowsOrdered(r - 1, 0, nu - 2, 0);
    }
  }

  /** Every canonical id below Count(nu) belongs to some lattice point. */
  lemma CanonOnto(nu: nat, k: nat) returns (r: nat, c: nat)
    requires 1 <= nu && k < Count(nu)
    ensures c <= r <= nu && Canon(nu, r, c) == k
  {
    CountSplit(nu);
    if k == 0 {
      r, c := 0, 0;
    } else if k == 1 {
      r, c := nu, 0;
    } else if k == 2 {
      r, c := nu, nu;
    } else if k < 3 + (nu - 1) {
      r, c := k - 2, 0;
    } else if k < 3 + 2 * (nu - 1) {
      r := k - 2 - (nu - 1);
      c := r;
    } else if k < 3 + 3 * (nu - 1) {
      r, c := nu, k - 2 - 2 * (nu - 1);
    } else {
      var m := k - 3 - 3 * (nu - 1);
      var r0, c0 := PtInverse(m);
      InnerIsPt(nu);
      RowOfBelow(r0, c0, nu - 2);
      r, c := r0 + 2, c0 + 1;
      assert Canon(nu, r, c) == 3 + 3 * (nu - 1) + Pt(r0, c0);
    }
  }

  /** o lists each of 0 .. n-1 exactly once. */
  predicate IsPermutation(o: seq<nat>, n: nat) {
    && |o| == n
    && (forall p :: 0 <= p < n ==> o[p] < n)
    && (forall p, q :: 0 <= p < q < n ==> o[p] != o[q])
    && (forall k :: 0 <= k < n ==> k in o)
  }

  /** vertex_ordering is a permutation of the Count(nu) local ids. */
  lemma OrderingIsPermutation(nu: nat)
    requires nu >= 1
    ensures IsPermutation(Ordering(nu), Count(nu))
  {
    var o := Ordering(nu);
    forall p | 0 <= p < Count(nu)
      ensures o[p] < Count(nu)
    {
      var r, c := PtInverse(p);
      PtBelowCount(nu, r, c);
      OrderingAt(nu, r, c);
      CanonInjective(nu, r, c, r, c);
    }
    forall p, q | 0 <= p < q < Count(nu)
      ensures o[p] != o[q]
    {
      var r, c := PtInverse(p);
      var r', c' := PtInverse(q);
      PtBelowCount(nu, r, c);
      PtBelowCount(nu, r', c');
      OrderingAt(nu, r, c);
      OrderingAt(nu, r', c');
      CanonInjective(nu, r, c, r', c');
    }
    forall k | 0 <= k < Count(nu)
      ensures k in o
    {
      var r, c := CanonOnto(nu, k);
      OrderingAt(nu, r, c);
    }
  }

  /** The first entry is the top corner; the last nu+1 entries are the
      bottom row: corner B, the B-C points, corner C. */
  lemma OrderingEnds(nu: nat)
    requires nu >= 1
    ensures Ordering(nu)[0] == 0
    ensures Ordering(nu)[Count(nu) - (nu + 1)..] == [1] + Range(2 * nu + 1, 3 * nu) + [2]
  {
    var rings := Rings(nu, nu - 1);
    var tail := [1] + Bottom(nu) + [2];
    assert Ordering(nu) == [0] + rings + tail;
    assert |tail| == nu + 1;
  }

  /** One pass of the source loop appends ring i, sliced the way the source slices it. */
  lemma RingStep(nu: nat, i: nat)
    requires i + 2 <= nu
    ensures 0 <= i * (i - 1) / 2 <= i * (i + 1) / 2 <= |InsideRange(nu)|
    ensures Rings(nu, i + 1)
         == Rings(nu, i) + [Left(nu)[i]] + InsideRange(nu)[i * (i - 1) / 2 .. i * (i + 1) / 2] + [Right(nu)[i]]
  {
    RingFits(nu, i);
    RingBounds(i);
  }

  /** vertex_ordering: builds the permutation ring by ring, as the source loop does. */
  method VertexOrdering(nu: nat) returns (o: seq<nat>)
    requires nu >= 1
    ensures o == Ordering(nu)
    ensures IsPermutation(o, Count(nu))
  {
    var left := Range(3, nu + 2);
    var right := Range(nu + 2, 2 * nu + 1);
    var bottom := Range(2 * nu + 1, 3 * nu);
    var inside := Range(3 * nu, (nu + 1) * (nu + 2) / 2);
    CountClosed(nu);
    assert inside == InsideRange(nu);
    o := [0];
    for i := 0 to nu - 1
      invariant o == [0] + Rings(nu, i)
    {
      RingStep(nu, i);
      o := o + [left[i]];
      o := o + inside[i * (i - 1) / 2 .. i * (i + 1) / 2];
      o := o + [right[i]];
    }
    o := o + [1] + bottom + [2];
    OrderingIsPermutation(nu);
  }

  // ---------------------------------------------------------------------
  // The reordered template

  /** ordering[template]: the template renumbered to canonical local ids. */
  function ReorderedTemplate(nu: nat): (rt: seq<Tri>)
    requires nu >= 1
    ensures |rt| == Sq(nu)
    ensures forall t :: 0 <= t < |rt| ==> TriBelow(rt[t], Count(nu))
  {
    TemplateBelow(nu);
    OrderingIsPermutation(nu);
    var tpl := Template(nu);
    var o := Ordering(nu);
    seq(|tpl|, t requires 0 <= t < |tpl| => Compose(o, tpl[t]))
  }

  lemma ReorderedAt(nu: nat, k: nat)
    requires nu >= 1 && k < Sq(nu)
    ensures TriBelow(Template(nu)[k], |Ordering(nu)|)
    ensures ReorderedTemplate(nu)[k] == Compose(Ordering(nu), Template(nu)[k])
  {
    TemplateBelow(nu);
  }

  /** Relabelling a triangle of three lattice points by the ordering gives
      their canonical ids. */
  lemma ComposeOrdering(nu: nat, r1: nat, c1: nat, r2: nat, c2: nat, r3: nat, c3: nat)
    requires 1 <= nu && c1 <= r1 <= nu && c2 <= r2 <= nu && c3 <= r3 <= nu
    ensures TriBelow(Tri(Pt(r1, c1), Pt(r2, c2), Pt(r3, c3)), |Ordering(nu)|)
    ensures Compose(Ordering(nu), Tri(Pt(r1, c1), Pt(r2, c2), Pt(r3, c3)))
         == Tri(Canon(nu, r1, c1), Canon(nu, r2, c2), Canon(nu, r3, c3))
  {
    OrderingAt(nu, r1, c1);
    OrderingAt(nu, r2, c2);
    OrderingAt(nu, r3, c3);
  }

  lemma OrderedUp(nu: nat, i: nat, q: nat)
    requires i < nu && q <= i
    ensures TriBelow(Up(i, q), |Ordering(nu)|)
    ensures Compose(Ordering(nu), Up(i, q)) == Tri(Canon(nu, i, q), Canon(nu, i + 1, q), Canon(nu, i + 1, q + 1))
  {
    ComposeOrdering(nu, i, q, i + 1, q, i + 1, q + 1);
  }

  lemma OrderedDown(nu: nat, i: nat, q: nat)
    requires i < nu && q < i
    ensures TriBelow(Down(i, q), |Ordering(nu)|)
    ensures Compose(Ordering(nu), Down(i, q)) == Tri(Canon(nu, i, q), Canon(nu, i + 1, q + 1), Canon(nu, i, q + 1))
  {
    ComposeOrdering(nu, i, q, i + 1, q + 1, i, q + 1);
  }

  /** In canonical local ids, the upward triangle q of layer i joins lattice
      points (i, q), (i+1, q) and (i+1, q+1). */
  lemma ReorderedUp(nu: nat, i: nat, q: nat, k: nat)
    requires i < nu && q <= i && k == Sq(i) + 2 * q
    ensures k < Sq(nu)
    ensures ReorderedTemplate(nu)[k] == Tri(Canon(nu, i, q), Canon(nu, i + 1, q), Canon(nu, i + 1, q + 1))
  {
    assert k < Sq(nu) && Template(nu)[k] == Up(i, q) by {
      TemplateUpAt(nu, i, q, k);
    }
    assert ReorderedTemplate(nu)[k] == Compose(Ordering(nu), Up(i, q)) by {
      ReorderedAt(nu, k);
    }
    OrderedUp(nu, i, q);
  }

  /** In canonical local ids, the downward triangle q of layer i joins lattice
      points (i, q), (i+1, q+1) and (i, q+1). */
  lemma ReorderedDown(nu: nat, i: nat, q: nat, k: nat)
    requires i < nu && q < i && k == Sq(i) + 2 * q + 1
    ensures k < Sq(nu)
    ensures ReorderedTemplate(nu)[k] == Tri(Canon(nu, i, q), Canon(nu, i + 1, q + 1), Canon(nu, i, q + 1))
  {
    assert k < Sq(nu) && Template(nu)[k] == Down(i, q) by {
      TemplateDownAt(nu, i, q, k);
    }
    assert ReorderedTemplate(nu)[k] == Compose(Ordering(nu), Down(i, q)) by {
      ReorderedAt(nu, k);
    }
    OrderedDown(nu, i, q);
  }
}
