/** Values shared by every part of the subdivision engine: index triples,
    points in space, and the small sequence operations the engine is built from. */
module Mesh {

  /** An ordered triple of vertex indices: a face of a mesh, or one local
      triangle of the per-face template. */
  datatype Tri = Tri(a: nat, b: nat, c: nat)

  /** All three indices of t lie in [0, n). */
  predicate TriBelow(t: Tri, n: nat) {
    t.a < n && t.b < n && t.c < n
  }

  /** Every corner of every face names one of n vertices. */
  predicate FacesBelow(faces: seq<Tri>, n: nat) {
    forall f :: 0 <= f < |faces| ==> TriBelow(faces[f], n)
  }

  /** The three corners of t are pairwise different. */
  predicate NonDegenerate(t: Tri) {
    t.a != t.b && t.a != t.c && t.b != t.c
  }

  /** Every index in s lies in [0, n). */
  predicate IdsBelow(s: seq<nat>, n: nat) {
    forall k :: 0 <= k < |s| ==> s[k] < n
  }

  lemma IdsBelowConcat(x: seq<nat>, y: seq<nat>, n: nat)
    requires IdsBelow(x, n) && IdsBelow(y, n)
    ensures IdsBelow(x + y, n)
  {
    forall k | 0 <= k < |x + y|
      ensures (x + y)[k] < n
    {
      if k >= |x| {
        assert (x + y)[k] == y[k - |x|];
      }
    }
  }

  /** Indexing the list s with the index triple t, element by element
      (numpy's `s[t]` for one row of an index array). */
  function Compose(s: seq<nat>, t: Tri): Tri
    requires TriBelow(t, |s|)
  {
    Tri(s[t.a], s[t.b], s[t.c])
  }

  /** The integers lo, lo+1, ..., hi-1; empty when hi <= lo, like Python's range. */
  function Range(lo: nat, hi: nat): (r: seq<nat>)
    ensures |r| == if hi <= lo then 0 else hi - lo
    ensures forall j :: 0 <= j < |r| ==> r[j] == lo + j
    decreases hi - lo
  {
    if hi <= lo then [] else [lo] + Range(lo + 1, hi)
  }

  /** The sequence s read backwards (Python's `s[::-1]`). */
  function Reversed<T>(s: seq<T>): (r: seq<T>)
    ensures |r| == |s|
    ensures multiset(r) == multiset(s)
  {
    if s == [] then []
    else
      assert s == [s[0]] + s[1..];
      Reversed(s[1..]) + [s[0]]
  }

  lemma {:induction false} ReversedAt<T>(s: seq<T>, k: nat)
    requires k < |s|
    ensures Reversed(s)[k] == s[|s| - 1 - k]
  {
    if k < |s| - 1 {
      ReversedAt(s[1..], k);
    }
  }

  lemma {:induction false} ReversedInvolution<T>(s: seq<T>)
    ensures Reversed(Reversed(s)) == s
  {
    var r := Reversed(s);
    forall k | 0 <= k < |s|
      ensures Reversed(r)[k] == s[k]
    {
      ReversedAt(r, k);
      ReversedAt(s, |s| - 1 - k);
    }
  }

  /** A point (or vector) in three-dimensional space, over exact reals. */
  datatype Point = Point(x: real, y: real, z: real)

  function Add(p: Point, q: Point): Point {
    Point(p.x + q.x, p.y + q.y, p.z + q.z)
  }

  function Scale(w: real, p: Point): Point {
    Point(w * p.x, w * p.y, w * p.z)
  }

  function Neg(p: Point): Point {
    Point(-p.x, -p.y, -p.z)
  }

  /** The weighted sum wp*p + wq*q, the form every interpolation of the
      source is written in. */
  function Mix(wp: real, p: Point, wq: real, q: Point): Point {
    Add(Scale(wp, p), Scale(wq, q))
  }

  function SqNorm(p: Point): real {
    p.x * p.x + p.y * p.y + p.z * p.z
  }

  /** Element-wise indexing of s by the index list idx (numpy's `s[idx]`). */
  function Gather<T>(s: seq<T>, idx: seq<nat>): (r: seq<T>)
    requires forall i :: 0 <= i < |idx| ==> idx[i] < |s|
    ensures |r| == |idx|
    ensures forall i :: 0 <= i < |idx| ==> r[i] == s[idx[i]]
  {
    seq(|idx|, i requires 0 <= i < |idx| => s[idx[i]])
  }

  /** The blocks one after another. */
  function Concat<T>(blocks: seq<seq<T>>): seq<T> {
    if blocks == [] then [] else Concat(blocks[..|blocks| - 1]) + blocks[|blocks| - 1]
  }

  /** Every block has length w. */
  predicate Uniform<T>(blocks: seq<seq<T>>, w: nat) {
    forall j :: 0 <= j < |blocks| ==> |blocks[j]| == w
  }

  /** Concatenating one more block appends it. */
  lemma ConcatSnoc<T>(blocks: seq<seq<T>>, n: nat)
    requires n < |blocks|
    ensures Concat(blocks[..n + 1]) == Concat(blocks[..n]) + blocks[n]
  {
    assert blocks[..n + 1][..n] == blocks[..n];
  }

  /** The same, behind a fixed prefix. */
  lemma PrefixSnoc<T>(pre: seq<T>, blocks: seq<seq<T>>, n: nat)
    requires n < |blocks|
    ensures pre + Concat(blocks[..n]) + blocks[n] == pre + Concat(blocks[..n + 1])
  {
    ConcatSnoc(blocks, n);
  }

  lemma {:induction false} ConcatLength<T>(blocks: seq<seq<T>>, w: nat)
    requires Uniform(blocks, w)
    ensures |Concat(blocks)| == |blocks| * w
  {
    if blocks != [] {
      var n := |blocks| - 1;
      ConcatLength(blocks[..n], w);
      assert |blocks| * w == n * w + w;
    }
  }

  /** Element k of block i sits at position i*w + k of the concatenation of
      blocks of length w. */
  lemma {:induction false} ConcatAt<T>(blocks: seq<seq<T>>, w: nat, i: nat, k: nat)
    requires Uniform(blocks, w) && i < |blocks| && k < w
    ensures i * w + k < |Concat(blocks)|
    ensures Concat(blocks)[i * w + k] == blocks[i][k]
  {
    var n := |blocks| - 1;
    var prefix := Concat(blocks[..n]);
    assert Concat(blocks) == prefix + blocks[n];
    ConcatLength(blocks[..n], w);
    assert |prefix| == n * w;
    if i < n {
      ConcatAt(blocks[..n], w, i, k);
      assert (prefix + blocks[n])[i * w + k] == prefix[i * w + k];
    } else {
      assert (prefix + blocks[n])[n * w + k] == blocks[n][k];
    }
  }

  /** Every position j of the concatenation of blocks of length w is slot k
      of some block i, with j = i*w + k. */
  lemma {:induction false} ConcatIndex<T>(blocks: seq<seq<T>>, w: nat, j: nat) returns (i: nat, k: nat)
    requires Uniform(blocks, w) && j < |Concat(blocks)|
    ensures i < |blocks| && k < w && j == i * w + k
    ensures Concat(blocks)[j] == blocks[i][k]
  {
    var n := |blocks| - 1;
    var prefix := Concat(blocks[..n]);
    assert Concat(blocks) == prefix + blocks[n];
    ConcatLength(blocks[..n], w);
    if j < |prefix| {
      i, k := ConcatIndex(blocks[..n], w, j);
      assert (prefix + blocks[n])[j] == prefix[j];
    } else {
      i, k := n, j - n * w;
      assert (prefix + blocks[n])[j] == blocks[n][k];
    }
  }

  /** Slot k of block i, addressed by its position j = i*w + k. */
  lemma ConcatAtIndex<T>(blocks: seq<seq<T>>, w: nat, i: nat, k: nat, j: nat)
    requires Uniform(blocks, w) && i < |blocks| && k < w && j == i * w + k
    ensures j < |Concat(blocks)| && Concat(blocks)[j] == blocks[i][k]
  {
    ConcatAt(blocks, w, i, k);
  }

  /** After a prefix, slot k of block i sits at position |pre| + i*w + k. */
  lemma ConcatAfter<T>(pre: seq<T>, blocks: seq<seq<T>>, w: nat, i: nat, k: nat, j: nat)
    requires Uniform(blocks, w) && i < |blocks| && k < w && j == |pre| + i * w + k
    ensures j < |pre + Concat(blocks)| && (pre + Concat(blocks))[j] == blocks[i][k]
  {
    ConcatAt(blocks, w, i, k);
  }
}
