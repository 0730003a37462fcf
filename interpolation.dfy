/** The geometry of one subdivided face, over exact reals: the on-edge points,
    which split an edge into nu equal segments, and the interior points,
    interpolated row by row between the on-edge points of two sides. */
module Interpolation {
  import opened Mesh
  import opened SubdivisionTemplate

  /** The weight w[j] = (j+1)/nu of the interpolation weights 1/nu, ..., (nu-1)/nu. */
  function Weight(nu: nat, j: nat): real
    requires nu >= 1
  {
    (j + 1) as real / nu as real
  }

  /** The point at lattice position (r, c) of face (a, b, c) subdivided with
      frequency nu: r steps from a towards the b-c side, c of them towards c. */
  function Bary(nu: nat, a: Point, b: Point, c: Point, r: nat, col: nat): Point
    requires nu >= 1
  {
    Add(Mix((nu - r) as real / nu as real, a, (r - col) as real / nu as real, b), Scale(col as real / nu as real, c))
  }

  /** On-edge point k of the edge from p to q: w[-1-k]*p + w[k]*q. */
  function EdgePoint(nu: nat, p: Point, q: Point, k: nat): (x: Point)
    requires k + 1 < nu
  {
    Mix(Weight(nu, nu - 2 - k), p, Weight(nu, k), q)
  }

  /** On-edge point k lies k+1 segments of length 1/nu from p towards q. */
  lemma EdgePointAffine(nu: nat, p: Point, q: Point, k: nat)
    requires k + 1 < nu
    ensures EdgePoint(nu, p, q, k) == Add(p, Scale((k + 1) as real / nu as real, Add(q, Neg(p))))
  {
    var n := nu as real;
    var t := (k + 1) as real / n;
    assert Weight(nu, nu - 2 - k) == 1.0 - t by {
      assert (nu - 2 - k + 1) as real == n - (k + 1) as real;
      DivSub(n, (k + 1) as real);
    }
  }

  lemma DivSub(n: real, x: real)
    requires n > 0.0
    ensures (n - x) / n == 1.0 - x / n
  {
    assert (n - x) / n == n / n - x / n;
  }

  /** Walking the edge from the other end visits the same points in reverse:
      on-edge point k from p to q is on-edge point nu-2-k from q to p. */
  lemma EdgePointFlip(nu: nat, p: Point, q: Point, k: nat)
    requires k + 1 < nu
    ensures EdgePoint(nu, p, q, k) == EdgePoint(nu, q, p, nu - 2 - k)
  {
  }

  /** On-edge point k of side a-b is lattice point (k+1, 0) of face (a, b, c). */
  lemma EdgePointIsLattice(nu: nat, a: Point, b: Point, c: Point, k: nat)
    requires k + 1 < nu
    ensures EdgePoint(nu, a, b, k) == Bary(nu, a, b, c, k + 1, 0)
  {
    assert (nu - 2 - k + 1) == nu - (k + 1);
  }

  /** On-edge point k of side a-c is lattice point (k+1, k+1) of face (a, b, c). */
  lemma EdgePointIsLatticeAC(nu: nat, a: Point, b: Point, c: Point, k: nat)
    requires k + 1 < nu
    ensures EdgePoint(nu, a, c, k) == Bary(nu, a, b, c, k + 1, k + 1)
  {
    assert (nu - 2 - k + 1) == nu - (k + 1);
    assert (k + 1 - (k + 1)) as real / nu as real == 0.0;
  }

  /** On-edge point k of side b-c is lattice point (nu, k+1) of face (a, b, c). */
  lemma EdgePointIsLatticeBC(nu: nat, a: Point, b: Point, c: Point, k: nat)
    requires k + 1 < nu
    ensures EdgePoint(nu, b, c, k) == Bary(nu, a, b, c, nu, k + 1)
  {
    assert (nu - 2 - k + 1) == nu - (k + 1);
    assert (nu - nu) as real / nu as real == 0.0;
  }

  /** The corners of the lattice are the corners of the face. */
  lemma BaryCorners(nu: nat, a: Point, b: Point, c: Point)
    requires nu >= 1
    ensures Bary(nu, a, b, c, 0, 0) == a
    ensures Bary(nu, a, b, c, nu, 0) == b
    ensures Bary(nu, a, b, c, nu, nu) == c
  {
    var n := nu as real;
    assert (nu - 0) as real / n == 1.0 && (0 - 0) as real / n == 0.0 && 0 as real / n == 0.0;
    assert (nu - nu) as real / n == 0.0 && nu as real / n == 1.0;
    PickFirst(a, b, c);
    PickSecond(a, b, c);
    PickThird(a, b, c);
  }

  lemma PickFirst(a: Point, b: Point, c: Point)
    ensures Add(Mix(1.0, a, 0.0, b), Scale(0.0, c)) == a
  {
    ScaleOne(a); ScaleZero(b); ScaleZero(c);
    AddOrigin(a); AddOrigin(Add(a, Origin()));
  }

  lemma PickSecond(a: Point, b: Point, c: Point)
    ensures Add(Mix(0.0, a, 1.0, b), Scale(0.0, c)) == b
  {
    ScaleZero(a); ScaleOne(b); ScaleZero(c);
    AddOrigin(b);
  }

  lemma PickThird(a: Point, b: Point, c: Point)
    ensures Add(Mix(0.0, a, 0.0, b), Scale(1.0, c)) == c
  {
    ScaleZero(a); ScaleZero(b); ScaleOne(c);
    AddOrigin(Origin()); AddOrigin(c);
  }

  function Origin(): Point {
    Point(0.0, 0.0, 0.0)
  }

  lemma ScaleZero(p: Point)
    ensures Scale(0.0, p) == Origin()
  {
  }

  lemma ScaleOne(p: Point)
    ensures Scale(1.0, p) == p
  {
  }

  lemma AddOrigin(p: Point)
    ensures Add(p, Origin()) == p && Add(Origin(), p) == p
  {
  }

  /** The interior points of row i (1 <= i), between the i-th on-edge points of
      the two sides: w[-1-k]*vAB[i] + w[k]*vAC[i] with w[k] = (k+1)/(i+1). */
  function InsideRow(vAB: seq<Point>, vAC: seq<Point>, i: nat): (row: seq<Point>)
    requires i < |vAB| && i < |vAC|
    ensures |row| == i
  {
    seq(i, k requires 0 <= k < i => Mix((i - k) as real / (i + 1) as real, vAB[i], (k + 1) as real / (i + 1) as real, vAC[i]))
  }

  /** Rows 1 .. m-1 of interior points, concatenated. */
  function InsideUpTo(vAB: seq<Point>, vAC: seq<Point>, m: nat): (v: seq<Point>)
    requires m <= |vAB| && m <= |vAC|
    ensures |v| == RingStart(m)
  {
    if m <= 1 then []
    else InsideUpTo(vAB, vAC, m - 1) + InsideRow(vAB, vAC, m - 1)
  }

  /** inside_points: all interior points, row by row. */
  function Inside(vAB: seq<Point>, vAC: seq<Point>): (v: seq<Point>)
    requires |vAB| <= |vAC|
    ensures |v| == RingStart(|vAB|)
  {
    InsideUpTo(vAB, vAC, |vAB|)
  }

  /** Interior point k of row i sits at index Pt(i-1, k), the reading-order
      index of lattice point (i+1, k+1) among the interior points. */
  lemma {:induction false} InsideAt(vAB: seq<Point>, vAC: seq<Point>, m: nat, i: nat, k: nat)
    requires m <= |vAB| && m <= |vAC| && 1 <= i < m && k < i
    ensures Pt(i - 1, k) < |InsideUpTo(vAB, vAC, m)|
    ensures InsideUpTo(vAB, vAC, m)[Pt(i - 1, k)] == InsideRow(vAB, vAC, i)[k]
  {
    var prefix := InsideUpTo(vAB, vAC, m - 1);
    var row := InsideRow(vAB, vAC, m - 1);
    assert InsideUpTo(vAB, vAC, m) == prefix + row;
    if i < m - 1 {
      InsideAt(vAB, vAC, m - 1, i, k);
      assert (prefix + row)[Pt(i - 1, k)] == prefix[Pt(i - 1, k)];
    } else {
      assert |prefix| == Pt(i - 1, 0);
      assert (prefix + row)[|prefix| + k] == row[k];
    }
  }

  /** Interior point k of row i is entry Pt(i-1, k) of inside_points. */
  lemma InsidePointAt(vAB: seq<Point>, vAC: seq<Point>, i: nat, k: nat)
    requires |vAB| <= |vAC| && 1 <= i < |vAB| && k < i
    ensures Pt(i - 1, k) < |Inside(vAB, vAC)|
    ensures Inside(vAB, vAC)[Pt(i - 1, k)] == InsideRow(vAB, vAC, i)[k]
  {
    InsideAt(vAB, vAC, |vAB|, i, k);
  }

  /** inside_points: grows the list of interior points row by row, as the
      source loops do. */
  method InsidePoints(vAB: seq<Point>, vAC: seq<Point>) returns (v: seq<Point>)
    requires |vAB| <= |vAC|
    ensures v == Inside(vAB, vAC)
  {
    v := [];
    var i := 1;
    while i < |vAB|
      invariant 1 <= i && (i <= |vAB| || |vAB| == 0)
      invariant v == InsideUpTo(vAB, vAC, if |vAB| == 0 then 0 else i)
    {
      ghost var prefix := v;
      for k := 0 to i
        invariant v == prefix + InsideRow(vAB, vAC, i)[..k]
      {
        var wl := (i - k) as real / (i + 1) as real;
        var wr := (k + 1) as real / (i + 1) as real;
        v := v + [Mix(wl, vAB[i], wr, vAC[i])];
        assert InsideRow(vAB, vAC, i)[..k + 1] == InsideRow(vAB, vAC, i)[..k] + [InsideRow(vAB, vAC, i)[k]];
      }
      assert InsideRow(vAB, vAC, i)[..i] == InsideRow(vAB, vAC, i);
      i := i + 1;
    }
  }

  /** When vAB and vAC are the on-edge points of sides a-b and a-c, interior
      point k of row i is lattice point (i+1, k+1) of the face. */
  lemma InsideIsLattice(nu: nat, a: Point, b: Point, c: Point, vAB: seq<Point>, vAC: seq<Point>, i: nat, k: nat)
    requires |vAB| == nu - 1 && |vAC| == nu - 1 && nu >= 1
    requires forall j :: 0 <= j < nu - 1 ==> vAB[j] == EdgePoint(nu, a, b, j) && vAC[j] == EdgePoint(nu, a, c, j)
    requires 1 <= i < nu - 1 && k < i
    ensures InsideRow(vAB, vAC, i)[k] == Bary(nu, a, b, c, i + 1, k + 1)
  {
    var n := nu as real;
    var m := (i + 1) as real;
    var wl := (i - k) as real / m;
    var wr := (k + 1) as real / m;
    var s := (nu - 1 - i) as real / n;
    var t := m / n;
    assert vAB[i] == Mix(s, a, t, b) by {
      assert nu - 2 - i + 1 == nu - 1 - i;
    }
    assert vAC[i] == Mix(s, a, t, c);
    MixExpand(wl, vAB[i], wr, vAC[i], s, a, t, b, c);
    RowWeights(n, m, (i - k) as real, (k + 1) as real, (nu - 1 - i) as real);
    assert (nu - (i + 1)) as real == (nu - 1 - i) as real;
    assert (i + 1 - (k + 1)) as real == (i - k) as real;
  }

  /** inside_points over the on-edge points of sides a-b and a-c gives the
      interior lattice points of face (a, b, c): entry Pt(r-2, col-1) is
      lattice point (r, col). */
  lemma InsideLattice(nu: nat, a: Point, b: Point, c: Point, vAB: seq<Point>, vAC: seq<Point>, r: nat, col: nat)
    requires |vAB| == nu - 1 && |vAC| == nu - 1 && nu >= 1
    requires forall j :: 0 <= j < nu - 1 ==> vAB[j] == EdgePoint(nu, a, b, j) && vAC[j] == EdgePoint(nu, a, c, j)
    requires 0 < col < r < nu
    ensures Pt(r - 2, col - 1) < |Inside(vAB, vAC)|
    ensures Inside(vAB, vAC)[Pt(r - 2, col - 1)] == Bary(nu, a, b, c, r, col)
  {
    InsidePointAt(vAB, vAC, r - 1, col - 1);
    InsideIsLattice(nu, a, b, c, vAB, vAC, r - 1, col - 1);
  }

  /** The weight algebra behind InsideIsLattice: a row weight times a side
      weight is a face weight. */
  lemma RowWeights(n: real, m: real, x: real, y: real, z: real)
    requires n > 0.0 && m > 0.0 && x + y == m
    ensures (x / m) * (z / n) + (y / m) * (z / n) == z / n
    ensures (x / m) * (m / n) == x / n
    ensures (y / m) * (m / n) == y / n
  {
    Cancel(x, m, n);
    Cancel(y, m, n);
    assert (x / m) * (z / n) + (y / m) * (z / n) == ((x + y) / m) * (z / n);
    assert (x + y) / m == 1.0;
  }

  lemma Cancel(x: real, m: real, n: real)
    requires n > 0.0 && m > 0.0
    ensures (x / m) * (m / n) == x / n
  {
    assert (x / m) * m == x;
    assert (m / n) * n == m;
    assert ((x / m) * (m / n)) * n == (x / m) * m;
  }

  /** Bary with its three weights written out, coordinate by coordinate. */
  lemma MixExpand(wl: real, p: Point, wr: real, q: Point, s: real, a: Point, t: real, b: Point, c: Point)
    requires p == Mix(s, a, t, b) && q == Mix(s, a, t, c)
    ensures Mix(wl, p, wr, q) == Add(Mix(wl * s + wr * s, a, wl * t, b), Scale(wr * t, c))
  {
  }
}
