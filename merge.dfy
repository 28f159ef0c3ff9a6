/** Structural comparison of meta-trees (`_compare_metatree_recursion`,
    bayesml/metatree/_metatree_x_discrete.py lines 1303-1312) and the merge
    of equal candidates in a list of meta-trees with their probabilities
    (`_marge_metatrees`, lines 1314-1325). */
module Merge {
  import opened Wrappers
  import opened Nodes
  import opened Builders
  import opened Prediction

  // ---------------------------------------------------------------------
  // Comparison
  // ---------------------------------------------------------------------

  /** `_compare_metatree_recursion(a, b)` with `c` child slots: two leaves
      are equal; otherwise equal split features send the comparison through
      the child pairs in slot order, stopping at the first unequal pair;
      different features are unequal.  An unset slot (`None`) has no
      attribute `leaf`, which raises. */
  function Compare<S>(a: Node<S>, b: Node<S>, c: nat): Result<bool>
    decreases a, 1, 0
  {
    if a.leaf && b.leaf then Ok(true)
    else if a.k == b.k then CompareKids(a, b, c, 0)
    else Ok(false)
  }

  /** The loop over child slots `i .. c-1` of `_compare_metatree_recursion`. */
  function CompareKids<S>(a: Node<S>, b: Node<S>, c: nat, i: nat): Result<bool>
    decreases a, 0, c - i
  {
    if i >= c then Ok(true)
    else if i >= |a.children| || i >= |b.children| then Err(AttributeError)
    else
      match Compare(a.children[i], b.children[i], c)
      case Err(e) => Err(e)
      case Ok(false) => Ok(false)
      case Ok(true) => CompareKids(a, b, c, i + 1)
  }

  /** The comparison reports the two trees equal. */
  predicate Equal<S>(a: Node<S>, b: Node<S>, c: nat)
  {
    Compare(a, b, c) == Ok(true)
  }

  /** Stopping weights and leaf models never take part in the comparison. */
  lemma {:induction false} CompareIgnoresContents<S>(a: Node<S>, b: Node<S>, c: nat)
    ensures Compare(Strip(a), Strip(b), c) == Compare(a, b, c)
    decreases a, 1, 0
  {
    if !(a.leaf && b.leaf) && a.k == b.k {
      CompareKidsIgnoresContents(a, b, c, 0);
    }
  }

  lemma {:induction false} CompareKidsIgnoresContents<S>(a: Node<S>, b: Node<S>, c: nat, i: nat)
    ensures CompareKids(Strip(a), Strip(b), c, i) == CompareKids(a, b, c, i)
    decreases a, 0, c - i
  {
    if i < c && i < |a.children| && i < |b.children| {
      assert Strip(a).children[i] == Strip(a.children[i]);
      assert Strip(b).children[i] == Strip(b.children[i]);
      CompareIgnoresContents(a.children[i], b.children[i], c);
      CompareKidsIgnoresContents(a, b, c, i + 1);
    }
  }

  /** A tree whose leaves are bare (no split feature, no child slots) and
      whose internal nodes split on a feature into `c` filled slots: the
      trees `_MTRF` copies from fitted decision trees. */
  ghost predicate Clean<S>(n: Node<S>, c: nat)
  {
    if n.leaf then n.k.None? && n.children == []
    else n.k.Some? && |n.children| == c && forall i :: 0 <= i < c ==> Clean(n.children[i], c)
  }

  /** On clean trees the comparison never raises, and it reports equality
      exactly when the two trees have the same decision structure. */
  lemma {:induction false} CompareClean<S>(a: Node<S>, b: Node<S>, c: nat)
    requires Clean(a, c) && Clean(b, c)
    ensures Compare(a, b, c) == Ok(ShapeOf(a) == ShapeOf(b))
    decreases a, 1, 0
  {
    if !(a.leaf && b.leaf) && a.k == b.k {
      CompareKidsClean(a, b, c, 0);
      var sa, sb := ShapeOf(a).kids, ShapeOf(b).kids;
      assert sa[0..] == sa && sb[0..] == sb;
    }
  }

  lemma {:induction false} CompareKidsClean<S>(a: Node<S>, b: Node<S>, c: nat, i: nat)
    requires Clean(a, c) && Clean(b, c) && !a.leaf && !b.leaf && i <= c
    ensures CompareKids(a, b, c, i) == Ok(ShapeOf(a).kids[i..] == ShapeOf(b).kids[i..])
    decreases a, 0, c - i
  {
    var sa, sb := ShapeOf(a).kids, ShapeOf(b).kids;
    if i < c {
      CompareClean(a.children[i], b.children[i], c);
      CompareKidsClean(a, b, c, i + 1);
      assert sa[i..] == [sa[i]] + sa[i + 1..];
      assert sb[i..] == [sb[i]] + sb[i + 1..];
    }
  }

  /** Every pair of the list compares without raising. */
  ghost predicate Comparable<S>(t: seq<Node<S>>, c: nat)
  {
    forall i, j :: 0 <= i < j < |t| ==> Compare(t[i], t[j], c).Ok?
  }

  lemma CleanComparable<S>(t: seq<Node<S>>, c: nat)
    requires forall i :: 0 <= i < |t| ==> Clean(t[i], c)
    ensures Comparable(t, c)
  {
    forall i, j | 0 <= i < j < |t| ensures Compare(t[i], t[j], c).Ok? {
      CompareClean(t[i], t[j], c);
    }
  }

  /** Copying a fitted tree into a new node that is not a leaf yields a
      clean binary tree. */
  lemma {:induction false} CopyClean<S>(n: Node<S>, t: Skeleton, id: nat, g: real, init: S)
    requires ValidSkeleton(t) && id < |t.left|
    requires !n.leaf && n.k.None? && n.children == []
    requires CopyError(n, t, id, g, init).None?
    ensures Clean(CopyTree(n, t, id, g, init), 2)
    decreases |t.left| - id
  {
    assert SkeletonNode(t, id);
    if t.left[id] != TREE_LEAF {
      var k := t.feature[id] as nat;
      var child := SkeletonChild(n, Remove(n.kCandidates, k).value, g, init);
      var l := t.left[id] as nat;
      var r := t.right[id] as nat;
      var c0 := CopyTree(child, t, l, g, init);
      var c1 := CopyTree(child, t, r, g, init);
      assert Clean(c0, 2) by { CopyClean(child, t, l, g, init); }
      assert Clean(c1, 2) by { CopyClean(child, t, r, g, init); }
      CopyKids(n, t, id, g, init);
      CleanSplit(CopyTree(n, t, id, g, init), c0, c1);
    }
  }

  lemma CleanSplit<S>(m: Node<S>, c0: Node<S>, c1: Node<S>)
    requires !m.leaf && m.k.Some? && m.children == [c0, c1] && Clean(c0, 2) && Clean(c1, 2)
    ensures Clean(m, 2)
  {
    assert forall i :: 0 <= i < 2 ==> m.children[i] == c0 || m.children[i] == c1;
  }

  // ---------------------------------------------------------------------
  // Merging
  // ---------------------------------------------------------------------

  /** The first position `m >= j` whose tree equals the tree at `i`. */
  function FirstLater<S>(t: seq<Node<S>>, c: nat, i: nat, j: nat): (r: Option<nat>)
    requires i < |t|
    ensures r.Some? ==> j <= r.value < |t| && Equal(t[i], t[r.value], c)
    ensures r.Some? ==> forall m :: j <= m < r.value ==> !Equal(t[i], t[m], c)
    ensures r.None? ==> forall m :: j <= m < |t| ==> !Equal(t[i], t[m], c)
    decreases |t| - j
  {
    if j >= |t| then None
    else if Equal(t[i], t[j], c) then Some(j)
    else FirstLater(t, c, i, j + 1)
  }

  /** The tree at `i` has no equal tree after it, so the merge keeps it. */
  predicate Survives<S>(t: seq<Node<S>>, c: nat, i: nat)
    requires i < |t|
  {
    FirstLater(t, c, i, i + 1).None?
  }

  /** Pass `i` of the outer loop: when a later tree equals tree `i`, the
      first such tree `j` takes over the probability of `i`, and `i` is
      marked with -1. */
  function Step<S>(t: seq<Node<S>>, c: nat, p: seq<real>, i: nat): (r: seq<real>)
    requires i < |t| == |p|
    ensures |r| == |p|
  {
    match FirstLater(t, c, i, i + 1)
    case None => p
    case Some(j) => p[j := p[j] + p[i]][i := -1.0]
  }

  /** The probability vector after the first `k` passes. */
  function Masses<S>(t: seq<Node<S>>, c: nat, p: seq<real>, k: nat): (r: seq<real>)
    requires k <= |t| == |p|
    ensures |r| == |p|
  {
    if k == 0 then p else Step(t, c, Masses(t, c, p, k - 1), k - 1)
  }

  /** The elements of `s` whose flag in `keep` is set, in order. */
  function FilterBy<T>(s: seq<T>, keep: seq<bool>): (r: seq<T>)
    requires |s| == |keep|
    ensures |r| <= |s|
  {
    if s == [] then []
    else FilterBy(s[..|s| - 1], keep[..|s| - 1]) + (if keep[|s| - 1] then [s[|s| - 1]] else [])
  }

  function SurvivorMask<S>(t: seq<Node<S>>, c: nat): (m: seq<bool>)
    ensures |m| == |t| && forall i :: 0 <= i < |t| ==> m[i] == Survives(t, c, i)
  {
    seq(|t|, i requires 0 <= i < |t| => Survives(t, c, i))
  }

  /** `v > -0.5` elementwise. */
  function AboveMask(v: seq<real>): (m: seq<bool>)
    ensures |m| == |v| && forall i :: 0 <= i < |v| ==> m[i] == (v[i] > -0.5)
  {
    seq(|v|, i requires 0 <= i < |v| => v[i] > -0.5)
  }

  /** What `_marge_metatrees(t, p)` returns: the trees not set to None, and
      the probabilities above -0.5. */
  function MergeSpec<S>(t: seq<Node<S>>, p: seq<real>, c: nat): (seq<Node<S>>, seq<real>)
    requires |t| == |p|
  {
    var m := Masses(t, c, p, |t|);
    (FilterBy(t, SurvivorMask(t, c)), FilterBy(m, AboveMask(m)))
  }

  /** The list as the outer loop leaves it after `k` passes. */
  function ListAfter<S>(t: seq<Node<S>>, c: nat, k: nat): (r: seq<Option<Node<S>>>)
    ensures |r| == |t|
  {
    seq(|t|, m requires 0 <= m < |t| => if m < k && !Survives(t, c, m) then None else Some(t[m]))
  }

  /** `_marge_metatrees(metatree_list, metatree_prob_vec)`: for each `i`, the
      first later tree equal to tree `i` absorbs its probability and tree
      `i` is dropped; the survivors and their probabilities are returned in
      their original order. */
  method MergeMetatrees<S>(trees: seq<Node<S>>, probs: seq<real>, c: nat) returns (kept: seq<Node<S>>, keptProbs: seq<real>)
    requires |probs| == |trees|
    requires Comparable(trees, c)
    ensures (kept, keptProbs) == MergeSpec(trees, probs, c)
  {
    var n := |trees|;
    var list := new Option<Node<S>>[n](m requires 0 <= m < n => Some(trees[m]));
    var p := new real[n](m requires 0 <= m < n => probs[m]);
    assert p[..] == Masses(trees, c, probs, 0);
    var i := 0;
    while i < n
      invariant 0 <= i <= n
      invariant p[..] == Masses(trees, c, probs, i)
      invariant list[..] == ListAfter(trees, c, i)
    {
      MergePass(trees, probs, c, list, p, i);
      i := i + 1;
    }
    kept := KeepSurvivors(trees, c, list);
    keptProbs := KeepAboveHalf(p);
  }

  /** One pass of the outer loop of `_marge_metatrees`: scan the trees after
      `i` for the first one equal to tree `i`; if there is one, move the
      probability of `i` to it, set `list[i]` to None and `p[i]` to -1. */
  method MergePass<S>(trees: seq<Node<S>>, probs: seq<real>, c: nat,
                      list: array<Option<Node<S>>>, p: array<real>, i: nat)
    requires list.Length == p.Length == |trees| == |probs| && i < |trees|
    requires Comparable(trees, c)
    requires p[..] == Masses(trees, c, probs, i) && list[..] == ListAfter(trees, c, i)
    modifies list, p
    ensures p[..] == Masses(trees, c, probs, i + 1) && list[..] == ListAfter(trees, c, i + 1)
  {
    var n := list.Length;
    var j := i + 1;
    while j < n
      invariant i + 1 <= j <= n
      invariant p[..] == Masses(trees, c, probs, i) && list[..] == ListAfter(trees, c, i)
      invariant forall m :: i + 1 <= m < j ==> !Equal(trees[i], trees[m], c)
    {
      assert list[i] == Some(trees[i]) && list[j] == Some(trees[j]);
      var same := Compare(list[i].value, list[j].value, c);
      assert same.Ok?;
      if same.value {
        FirstLaterIs(trees, c, i, i + 1, j);
        ghost var before := p[..];
        ghost var listBefore := list[..];
        list[i] := None;
        p[j] := p[j] + p[i];
        p[i] := -1.0;
        assert p[..] == before[j := before[j] + before[i]][i := -1.0];
        assert list[..] == listBefore[i := None];
        return;
      }
      j := j + 1;
    }
    assert Survives(trees, c, i);
    assert ListAfter(trees, c, i + 1) == ListAfter(trees, c, i);
  }

  /** `[tmp for tmp in metatree_list if tmp != None]` after the last pass. */
  method KeepSurvivors<S>(trees: seq<Node<S>>, c: nat, list: array<Option<Node<S>>>) returns (kept: seq<Node<S>>)
    requires list[..] == ListAfter(trees, c, |trees|)
    ensures kept == FilterBy(trees, SurvivorMask(trees, c))
  {
    var n := list.Length;
    kept := [];
    var k := 0;
    while k < n
      invariant 0 <= k <= n
      invariant kept == FilterBy(trees[..k], SurvivorMask(trees, c)[..k])
    {
      assert trees[..k + 1][..k] == trees[..k];
      assert SurvivorMask(trees, c)[..k + 1][..k] == SurvivorMask(trees, c)[..k];
      if list[k].Some? {
        kept := kept + [list[k].value];
      }
      k := k + 1;
    }
    assert trees[..n] == trees && SurvivorMask(trees, c)[..n] == SurvivorMask(trees, c);
  }

  /** `metatree_prob_vec[metatree_prob_vec > -0.5]` */
  method KeepAboveHalf(p: array<real>) returns (r: seq<real>)
    ensures r == FilterBy(p[..], AboveMask(p[..]))
  {
    var n := p.Length;
    r := [];
    var k := 0;
    while k < n
      invariant 0 <= k <= n
      invariant r == FilterBy(p[..k], AboveMask(p[..])[..k])
    {
      assert p[..k + 1][..k] == p[..k];
      assert AboveMask(p[..])[..k + 1][..k] == AboveMask(p[..])[..k];
      if p[k] > -0.5 {
        r := r + [p[k]];
      }
      k := k + 1;
    }
    assert p[..n] == p[..] && AboveMask(p[..])[..n] == AboveMask(p[..]);
  }

  /** The scan for an equal tree stops at the first one. */
  lemma {:induction false} FirstLaterIs<S>(t: seq<Node<S>>, c: nat, i: nat, j0: nat, j: nat)
    requires i < |t| && j0 <= j < |t|
    requires forall m :: j0 <= m < j ==> !Equal(t[i], t[m], c)
    requires Equal(t[i], t[j], c)
    ensures FirstLater(t, c, i, j0) == Some(j)
    decreases j - j0
  {
    if j0 < j {
      FirstLaterIs(t, c, i, j0 + 1, j);
    }
  }

  // ----- properties of the merge -----

  /** The trees dropped in the first `k` passes. */
  function DroppedMask<S>(t: seq<Node<S>>, c: nat, k: nat): (d: seq<bool>)
    ensures |d| == |t| && forall m :: 0 <= m < |t| ==> d[m] == (m < k && !Survives(t, c, m))
  {
    seq(|t|, m requires 0 <= m < |t| => m < k && !Survives(t, c, m))
  }

  /** `v` with the flagged entries replaced by zero. */
  function Masked(v: seq<real>, d: seq<bool>): (r: seq<real>)
    requires |v| == |d|
    ensures |r| == |v| && forall i :: 0 <= i < |v| ==> r[i] == if d[i] then 0.0 else v[i]
  {
    seq(|v|, i requires 0 <= i < |v| => if d[i] then 0.0 else v[i])
  }

  lemma {:induction false} SumUpdate(v: seq<real>, i: nat, x: real)
    requires i < |v|
    ensures Sum(v[i := x]) == Sum(v) - v[i] + x
  {
    if i > 0 {
      SumUpdate(v[1..], i - 1, x);
      assert v[i := x][1..] == v[1..][i - 1 := x];
    }
  }

  lemma {:induction false} SumAppend(a: seq<real>, b: seq<real>)
    ensures Sum(a + b) == Sum(a) + Sum(b)
  {
    if a == [] {
      assert a + b == b;
    } else {
      SumAppend(a[1..], b);
      assert (a + b)[1..] == a[1..] + b;
    }
  }

  /** With nonnegative probabilities, after `k` passes a tree dropped in
      them holds -1, and every other tree a nonnegative probability. */
  lemma {:induction false} MassesSigns<S>(t: seq<Node<S>>, c: nat, p: seq<real>, k: nat)
    requires k <= |t| == |p|
    requires forall i :: 0 <= i < |p| ==> p[i] >= 0.0
    ensures forall m :: 0 <= m < |p| ==>
              if m < k && !Survives(t, c, m) then Masses(t, c, p, k)[m] == -1.0 else Masses(t, c, p, k)[m] >= 0.0
  {
    if k > 0 {
      MassesSigns(t, c, p, k - 1);
    }
  }

  /** No pass creates or destroys probability: the probabilities of the trees
      not yet dropped always add up to the original total. */
  lemma {:induction false} MassesConserve<S>(t: seq<Node<S>>, c: nat, p: seq<real>, k: nat)
    requires k <= |t| == |p|
    ensures Sum(Masked(Masses(t, c, p, k), DroppedMask(t, c, k))) == Sum(p)
  {
    if k == 0 {
      assert Masked(p, DroppedMask(t, c, 0)) == p;
    } else {
      var i := k - 1;
      var before := Masses(t, c, p, i);
      MassesConserve(t, c, p, i);
      var mb := Masked(before, DroppedMask(t, c, i));
      var ma := Masked(Masses(t, c, p, k), DroppedMask(t, c, k));
      match FirstLater(t, c, i, i + 1)
      case None =>
        MassesKept(t, c, p, i);
      case Some(j) =>
        MassesMoved(t, c, p, i, j);
        var moved := mb[j := mb[j] + before[i]];
        SumUpdate(mb, j, mb[j] + before[i]);
        SumUpdate(moved, i, 0.0);
    }
  }

  /** A pass for a tree with no equal tree after it changes nothing. */
  lemma MassesKept<S>(t: seq<Node<S>>, c: nat, p: seq<real>, i: nat)
    requires i < |t| == |p| && FirstLater(t, c, i, i + 1).None?
    ensures Masked(Masses(t, c, p, i + 1), DroppedMask(t, c, i + 1)) == Masked(Masses(t, c, p, i), DroppedMask(t, c, i))
  {
  }

  /** A pass for a tree with an equal tree `j` after it moves its
      probability to `j` and drops it. */
  lemma MassesMoved<S>(t: seq<Node<S>>, c: nat, p: seq<real>, i: nat, j: nat)
    requires i < |t| == |p| && FirstLater(t, c, i, i + 1) == Some(j)
    ensures var before := Masses(t, c, p, i);
            var mb := Masked(before, DroppedMask(t, c, i));
            && i < j < |t| && mb[i] == before[i]
            && Masked(Masses(t, c, p, i + 1), DroppedMask(t, c, i + 1)) == mb[j := mb[j] + before[i]][i := 0.0]
  {
  }

  /** Filtering out the flagged entries adds up to the same as zeroing them. */
  lemma {:induction false} FilterSum(v: seq<real>, keep: seq<bool>, d: seq<bool>)
    requires |v| == |keep| == |d| && forall i :: 0 <= i < |v| ==> keep[i] == !d[i]
    ensures Sum(FilterBy(v, keep)) == Sum(Masked(v, d))
  {
    if v != [] {
      var n := |v| - 1;
      FilterSum(v[..n], keep[..n], d[..n]);
      assert Masked(v, d) == Masked(v[..n], d[..n]) + [Masked(v, d)[n]];
      SumAppend(Masked(v[..n], d[..n]), [Masked(v, d)[n]]);
      SumAppend(FilterBy(v[..n], keep[..n]), if keep[n] then [v[n]] else []);
    }
  }

  /** Filtering two lists of one length with one mask keeps as many
      elements of each. */
  lemma {:induction false} FilterLength<T, U>(a: seq<T>, b: seq<U>, keep: seq<bool>)
    requires |a| == |b| == |keep|
    ensures |FilterBy(a, keep)| == |FilterBy(b, keep)|
  {
    if a != [] {
      FilterLength(a[..|a| - 1], b[..|a| - 1], keep[..|a| - 1]);
    }
  }

  /** Every element the filter keeps comes from a flagged position. */
  lemma {:induction false} FilterMember<T>(s: seq<T>, keep: seq<bool>, x: T)
    requires |s| == |keep| && x in FilterBy(s, keep)
    ensures exists i :: 0 <= i < |s| && keep[i] && s[i] == x
  {
    var n := |s| - 1;
    if x in FilterBy(s[..n], keep[..n]) {
      FilterMember(s[..n], keep[..n], x);
      var i :| 0 <= i < n && keep[..n][i] && s[..n][i] == x;
      assert keep[i] && s[i] == x;
    } else {
      assert keep[n] && s[n] == x;
    }
  }

  /** With all flags set the filter keeps everything. */
  lemma {:induction false} FilterAll<T>(s: seq<T>, keep: seq<bool>)
    requires |s| == |keep| && forall i :: 0 <= i < |s| ==> keep[i]
    ensures FilterBy(s, keep) == s
  {
    if s != [] {
      FilterAll(s[..|s| - 1], keep[..|s| - 1]);
    }
  }

  /** With nonnegative probabilities the merge returns as many probabilities
      as trees, none of them negative, and they add up to the original
      total. */
  lemma MergeConserves<S>(t: seq<Node<S>>, p: seq<real>, c: nat)
    requires |t| == |p| && forall i :: 0 <= i < |p| ==> p[i] >= 0.0
    ensures |MergeSpec(t, p, c).0| == |MergeSpec(t, p, c).1|
    ensures Sum(MergeSpec(t, p, c).1) == Sum(p)
    ensures forall x :: x in MergeSpec(t, p, c).1 ==> x >= 0.0
  {
    var m := Masses(t, c, p, |t|);
    MassesSigns(t, c, p, |t|);
    assert AboveMask(m) == SurvivorMask(t, c);
    FilterLength(t, m, SurvivorMask(t, c));
    MassesConserve(t, c, p, |t|);
    FilterSum(m, AboveMask(m), DroppedMask(t, c, |t|));
    forall x | x in MergeSpec(t, p, c).1 ensures x >= 0.0 {
      FilterMember(m, AboveMask(m), x);
    }
  }

  /** No two trees the merge keeps compare equal (earlier against later). */
  lemma MergeLeavesNoEqualPair<S>(t: seq<Node<S>>, p: seq<real>, c: nat)
    requires |t| == |p|
    ensures forall a, b :: 0 <= a < b < |MergeSpec(t, p, c).0| ==>
              !Equal(MergeSpec(t, p, c).0[a], MergeSpec(t, p, c).0[b], c)
  {
    NoEqualAfterFilter(t, SurvivorMask(t, c), c);
  }

  lemma {:induction false} NoEqualAfterFilter<S>(s: seq<Node<S>>, keep: seq<bool>, c: nat)
    requires |s| == |keep|
    requires forall i, j :: 0 <= i < j < |s| && keep[i] ==> !Equal(s[i], s[j], c)
    ensures forall a, b :: 0 <= a < b < |FilterBy(s, keep)| ==> !Equal(FilterBy(s, keep)[a], FilterBy(s, keep)[b], c)
  {
    if s != [] {
      var n := |s| - 1;
      var f := FilterBy(s[..n], keep[..n]);
      NoEqualAfterFilter(s[..n], keep[..n], c);
      if keep[n] {
        forall a | 0 <= a < |f| ensures !Equal(f[a], s[n], c) {
          FilterMember(s[..n], keep[..n], f[a]);
        }
        assert FilterBy(s, keep) == f + [s[n]];
      }
    }
  }

  /** When no tree has a later equal one, no pass changes anything. */
  lemma {:induction false} MassesUnchanged<S>(t: seq<Node<S>>, c: nat, p: seq<real>, k: nat)
    requires k <= |t| == |p|
    requires forall i :: 0 <= i < |t| ==> Survives(t, c, i)
    ensures Masses(t, c, p, k) == p
  {
    if k > 0 {
      MassesUnchanged(t, c, p, k - 1);
      assert Survives(t, c, k - 1);
    }
  }

  /** Merging a merged list again changes nothing. */
  lemma MergeIdempotent<S>(t: seq<Node<S>>, p: seq<real>, c: nat)
    requires |t| == |p| && forall i :: 0 <= i < |p| ==> p[i] >= 0.0
    ensures |MergeSpec(t, p, c).0| == |MergeSpec(t, p, c).1|
    ensures MergeSpec(MergeSpec(t, p, c).0, MergeSpec(t, p, c).1, c) == MergeSpec(t, p, c)
  {
    var (t1, p1) := MergeSpec(t, p, c);
    MergeConserves(t, p, c);
    MergeLeavesNoEqualPair(t, p, c);
    forall i | 0 <= i < |t1| ensures Survives(t1, c, i) {
      var r := FirstLater(t1, c, i, i + 1);
      assert r.None?;
    }
    MassesUnchanged(t1, c, p1, |t1|);
    FilterAll(t1, SurvivorMask(t1, c));
    forall i | 0 <= i < |p1| ensures AboveMask(p1)[i] {
      assert p1[i] in p1;
    }
    FilterAll(p1, AboveMask(p1));
  }
}
