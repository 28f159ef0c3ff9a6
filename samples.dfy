/** The numpy arrays the public methods of
    bayesml/metatree/_metatree_x_discrete.py take (feature vectors and
    targets) and the input checks they run before touching a tree. */
module Samples {
  import opened Wrappers

  /** A numpy integer array: its shape and its entries in row-major order. */
  datatype IntArray = IntArray(shape: seq<nat>, flat: seq<int>)

  /** The number of entries of an array of the given shape. */
  function Size(shape: seq<nat>): nat
  {
    if shape == [] then 1 else Size(shape[..|shape| - 1]) * shape[|shape| - 1]
  }

  /** An array of vectors: at least one dimension, and as many entries as
      its shape says. */
  predicate Vectors(a: IntArray)
  {
    |a.shape| >= 1 && |a.flat| == Size(a.shape)
  }

  /** `x.shape[-1]` */
  function Width(a: IntArray): nat
    requires Vectors(a)
  {
    a.shape[|a.shape| - 1]
  }

  /** `x.shape[:-1]` */
  function Lead(a: IntArray): seq<nat>
    requires Vectors(a)
  {
    a.shape[..|a.shape| - 1]
  }

  /** `x.max()`, or `None` for an empty array (numpy raises ValueError). */
  function MaxOf(v: seq<int>): (m: Option<int>)
    ensures m.None? <==> v == []
    ensures m.Some? ==> m.value in v && forall i :: 0 <= i < |v| ==> v[i] <= m.value
  {
    if v == [] then None
    else
      match MaxOf(v[1..])
      case None => Some(v[0])
      case Some(t) =>
        assert forall i :: 1 <= i < |v| ==> v[i] == v[1..][i - 1];
        Some(if v[0] >= t then v[0] else t)
  }

  /** Row `i` of `n` rows of width `w` lies inside the `n * w` entries. */
  lemma {:induction false} MulBound(i: nat, n: nat, w: nat)
    requires i < n
    ensures i * w + w <= n * w
    decreases n
  {
    if i + 1 < n {
      MulBound(i, n - 1, w);
      assert n * w == (n - 1) * w + w;
    } else {
      assert i * w + w == n * w;
    }
  }

  /** `x.reshape(-1, w)`: `n` rows of `w` consecutive entries. */
  function Rows(flat: seq<int>, n: nat, w: nat): (r: seq<seq<int>>)
    requires |flat| == n * w
    ensures |r| == n && forall i :: 0 <= i < n ==> |r[i]| == w
  {
    var r := seq(n, i requires 0 <= i < n => (MulBound(i, n, w); flat[i * w .. i * w + w]));
    assert forall i :: 0 <= i < n ==> |r[i]| == w by {
      forall i | 0 <= i < n ensures |r[i]| == w {
        MulBound(i, n, w);
      }
    }
    r
  }

  /** Row `i`, entry `j` of the reshaped array is entry `i * w + j` of the
      flat array. */
  lemma RowEntry(flat: seq<int>, n: nat, w: nat, i: nat, j: nat)
    requires |flat| == n * w && i < n && j < w
    ensures i * w + j < |flat|
    ensures Rows(flat, n, w)[i][j] == flat[i * w + j]
  {
    MulBound(i, n, w);
  }

  /** Reshaping an array of vectors of width `w > 0` to rows of `w`. */
  function AsRows(a: IntArray): (r: seq<seq<int>>)
    requires Vectors(a)
    ensures |r| == Size(Lead(a))
  {
    Rows(a.flat, Size(Lead(a)), Width(a))
  }

  /** Every entry of the reshaped rows has a property every entry of the
      flat array has. */
  lemma RowsAll(flat: seq<int>, n: nat, w: nat, P: int -> bool)
    requires |flat| == n * w && forall k :: 0 <= k < |flat| ==> P(flat[k])
    ensures forall i, j :: 0 <= i < n && 0 <= j < w ==> P(Rows(flat, n, w)[i][j])
  {
    forall i, j | 0 <= i < n && 0 <= j < w ensures P(Rows(flat, n, w)[i][j]) {
      RowEntry(flat, n, w, i, j);
    }
  }
}
