/** The meta-tree node (`_Node`, bayesml/metatree/_metatree_x_discrete.py
    lines 43-76), the Python list operations the builders use on feature
    candidates, and the shape predicates that the rest of the model relies on. */
module Nodes {
  import opened Wrappers

  /** One node of a meta-tree.  `children` is empty while every child slot is
      unset, and otherwise holds one node per slot (the source fills the
      `c_num_children` slots together).  `k` is the split feature (None when
      unset), `hg` the stopping weight `h_g`, `sub` the node's own sub-model,
      `leaf` and `mapLeaf` the two flags. */
  datatype Node<S> = Node(
    depth: nat,
    children: seq<Node<S>>,
    kCandidates: seq<nat>,
    hg: real,
    k: Option<nat>,
    sub: Option<S>,
    leaf: bool,
    mapLeaf: bool)

  /** `_Node(depth, c_num_children, k_candidates, h_g, sub_model=..., leaf=...)`:
      unset children, no split feature, `map_leaf` false. */
  function NewNode<S>(depth: nat, kCandidates: seq<nat>, hg: real, sub: Option<S>, leaf: bool): (n: Node<S>)
    ensures n.children == [] && n.k == None && !n.mapLeaf
    ensures n.depth == depth && n.kCandidates == kCandidates && n.hg == hg && n.sub == sub && n.leaf == leaf
  {
    Node(depth, [], kCandidates, hg, None, sub, leaf, false)
  }

  /** `list(range(n))` */
  function Range(n: nat): (r: seq<nat>)
    ensures |r| == n
    ensures forall i :: 0 <= i < n ==> r[i] == i
  {
    seq(n, i requires 0 <= i < n => i)
  }

  /** No value occurs twice. */
  predicate Distinct(s: seq<nat>)
  {
    forall i, j :: 0 <= i < j < |s| ==> s[i] != s[j]
  }

  /** Position of the first occurrence of `v`. */
  function IndexOf(s: seq<nat>, v: nat): (r: nat)
    requires v in s
    ensures r < |s| && s[r] == v && v !in s[..r]
  {
    if s[0] == v then 0
    else
      var j := IndexOf(s[1..], v);
      assert s[1..][..j] == s[1..j + 1];
      j + 1
  }

  /** `child = copy.copy(s); child.remove(v)`: the copy without the first
      occurrence of `v`, or the ValueError that `list.remove` raises when `v`
      is not in the list. */
  function Remove(s: seq<nat>, v: nat): (r: Result<seq<nat>>)
    ensures r.Ok? <==> v in s
    ensures r.Err? ==> r.error == ValueError
    ensures r.Ok? ==> |r.value| + 1 == |s| && multiset(r.value) == multiset(s) - multiset{v}
  {
    if v in s then
      var i := IndexOf(s, v);
      assert s == s[..i] + [s[i]] + s[i + 1..];
      Ok(s[..i] + s[i + 1..])
    else Err(ValueError)
  }

  /** Removing a value from a list without repeats leaves a list without
      repeats that no longer holds the value. */
  lemma RemoveDistinct(s: seq<nat>, v: nat)
    requires Distinct(s) && v in s
    ensures Distinct(Remove(s, v).value)
    ensures v !in Remove(s, v).value
    ensures forall f :: f in Remove(s, v).value <==> f in s && f != v
  {
    var i := IndexOf(s, v);
    var r := Remove(s, v).value;
    RemoveSkips(s, v);
    assert Distinct(r);
    assert v !in r;
    forall f | f in s && f != v ensures f in r {
      var m :| 0 <= m < |s| && s[m] == f;
      if m < i { assert r[m] == f; } else { assert r[m - 1] == f; }
    }
  }

  /** Position `m` of the list without `v` holds what the list held at
      position `Skip(IndexOf(s, v), m)`. */
  lemma RemoveSkips(s: seq<nat>, v: nat)
    requires v in s
    ensures forall m :: 0 <= m < |Remove(s, v).value| ==>
              && Remove(s, v).value[m] == s[Skip(IndexOf(s, v), m)]
              && Skip(IndexOf(s, v), m) != IndexOf(s, v)
  {
    var i := IndexOf(s, v);
    assert Remove(s, v).value == s[..i] + s[i + 1..];
  }

  /** The position in a list of position `m` of the list without its `i`-th
      element. */
  function Skip(i: nat, m: nat): (r: nat)
    ensures m < r <==> i <= m
  {
    if m < i then m else m + 1
  }

  /** Every node has either no children or one per slot (the source fills
      the `c_num_children` slots of a node together) one level deeper, and
      has a split feature exactly when it has children.  This holds for every
      node, including the stale subtrees a leaf may keep below it. */
  ghost predicate Shaped<S>(n: Node<S>, c: nat)
  {
    && (n.children == [] || |n.children| == c)
    && (n.k.Some? <==> n.children != [])
    && (forall i :: 0 <= i < |n.children| ==> n.children[i].depth == n.depth + 1)
    && forall i :: 0 <= i < |n.children| ==> Shaped(n.children[i], c)
  }

  /** A node's own candidate list: distinct features below `c_k`, one fewer
      per level of depth. */
  ghost predicate CandidatesOk<S>(n: Node<S>, cK: nat)
  {
    && Distinct(n.kCandidates)
    && (forall f :: f in n.kCandidates ==> f < cK)
    && n.depth + |n.kCandidates| == cK
  }

  /** The live part of a tree (the root and every child of a node that is not
      a leaf): candidate lists are well kept, a node that is not a leaf splits
      on one of its candidates, has children, and gives each child its
      candidates without the split feature. */
  ghost predicate Consistent<S>(n: Node<S>, cK: nat)
  {
    && CandidatesOk(n, cK)
    && (!n.leaf ==>
          && n.k.Some? && n.k.value in n.kCandidates && n.children != []
          && forall i :: 0 <= i < |n.children| ==>
               && n.children[i].kCandidates == Remove(n.kCandidates, n.k.value).value
               && Consistent(n.children[i], cK))
  }

  /** The invariant every meta-tree this code builds keeps. */
  ghost predicate WellFormed<S>(n: Node<S>, c: nat, cK: nat)
  {
    Shaped(n, c) && Consistent(n, cK)
  }

  /** Every node that is not a leaf has all its child slots filled; a
      reference tree handed in by a caller need not satisfy anything else. */
  ghost predicate Complete<S>(n: Node<S>, c: nat)
  {
    !n.leaf ==> |n.children| == c && forall i :: 0 <= i < c ==> Complete(n.children[i], c)
  }

  /** Every node has a sub-model. */
  ghost predicate HasSubs<S>(n: Node<S>)
  {
    n.sub.Some? && forall i :: 0 <= i < |n.children| ==> HasSubs(n.children[i])
  }

  /** Every stopping weight lies in [0, 1]. */
  ghost predicate StopWeightsIn01<S>(n: Node<S>)
  {
    0.0 <= n.hg <= 1.0 && forall i :: 0 <= i < |n.children| ==> StopWeightsIn01(n.children[i])
  }

  /** The node with its stopping weights (when `hg`) and its sub-models
      (when `sub`) erased everywhere: what is left are the other fields. */
  function Erase<S>(n: Node<S>, hg: bool, sub: bool): (r: Node<S>)
    ensures r.depth == n.depth && r.k == n.k && r.kCandidates == n.kCandidates
    ensures r.leaf == n.leaf && r.mapLeaf == n.mapLeaf && |r.children| == |n.children|
    ensures r.hg == (if hg then 0.0 else n.hg) && r.sub == (if sub then None else n.sub)
  {
    n.(hg := if hg then 0.0 else n.hg, sub := if sub then None else n.sub,
       children := seq(|n.children|, i requires 0 <= i < |n.children| => Erase(n.children[i], hg, sub)))
  }

  /** The tree's structure: depths, features, candidates and flags. */
  function Strip<S>(n: Node<S>): (r: Node<S>)
    ensures r == Erase(n, true, true)
  {
    Erase(n, true, true)
  }

  /** Erasing more after erasing less is erasing more. */
  lemma {:induction false} EraseStrip<S>(n: Node<S>, hg: bool, sub: bool)
    ensures Strip(Erase(n, hg, sub)) == Strip(n)
  {
    var e := Erase(n, hg, sub);
    forall i | 0 <= i < |n.children|
      ensures Strip(e).children[i] == Strip(n).children[i]
    {
      EraseStrip(n.children[i], hg, sub);
      assert e.children[i] == Erase(n.children[i], hg, sub);
    }
  }

  /** Well-formedness is a property of the structure alone. */
  lemma {:induction false} WellFormedStrip<S>(n: Node<S>, c: nat, cK: nat)
    ensures Shaped(n, c) <==> Shaped(Strip(n), c)
    ensures Consistent(n, cK) <==> Consistent(Strip(n), cK)
    ensures WellFormed(n, c, cK) <==> WellFormed(Strip(n), c, cK)
  {
    var s := Strip(n);
    forall i | 0 <= i < |n.children|
      ensures Shaped(n.children[i], c) <==> Shaped(s.children[i], c)
      ensures Consistent(n.children[i], cK) <==> Consistent(s.children[i], cK)
      ensures s.children[i].kCandidates == n.children[i].kCandidates
    {
      WellFormedStrip(n.children[i], c, cK);
      assert s.children[i] == Strip(n.children[i]);
    }
    assert n.children == [] <==> s.children == [];
  }

  /** Two trees with the same structure are both well-formed or neither. */
  lemma WellFormedSameShape<S>(a: Node<S>, b: Node<S>, c: nat, cK: nat)
    requires Strip(a) == Strip(b)
    ensures WellFormed(a, c, cK) <==> WellFormed(b, c, cK)
  {
    WellFormedStrip(a, c, cK);
    WellFormedStrip(b, c, cK);
  }

  /** The frame of a tree: its depths, flags and child slots, with the
      stopping weights, sub-models, split features and candidate lists
      erased. */
  function Outline<S>(n: Node<S>): (r: Node<S>)
    ensures r.depth == n.depth && r.leaf == n.leaf && r.mapLeaf == n.mapLeaf && |r.children| == |n.children|
  {
    n.(hg := 0.0, sub := None, k := None, kCandidates := [],
       children := seq(|n.children|, i requires 0 <= i < |n.children| => Outline(n.children[i])))
  }

  /** Every internal node has its child slots filled. */
  ghost predicate Grown<S>(n: Node<S>)
  {
    !n.leaf ==> n.children != [] && forall i :: 0 <= i < |n.children| ==> Grown(n.children[i])
  }

  /** The decision structure of a tree: where it stops and which feature each
      split uses; the contents of leaves (and of anything below a leaf) do not
      take part. */
  datatype Shape = Stop | Split(feature: Option<nat>, kids: seq<Shape>)

  function ShapeOf<S>(n: Node<S>): Shape
  {
    if n.leaf then Stop
    else Split(n.k, seq(|n.children|, i requires 0 <= i < |n.children| => ShapeOf(n.children[i])))
  }

  /** The subtree reached by following the child indices `p` from `n`. */
  function At<S>(n: Node<S>, p: seq<nat>): Option<Node<S>>
    decreases |p|
  {
    if p == [] then Some(n)
    else if p[0] < |n.children| then At(n.children[p[0]], p[1..])
    else None
  }

  /** `p` is a prefix of `q`. */
  predicate IsPrefix(p: seq<nat>, q: seq<nat>)
  {
    |p| <= |q| && q[..|p|] == p
  }

  /** Following `children[x[node.k]]` from `n` reaches a leaf without an
      index or attribute error. */
  ghost predicate Navigable<S>(n: Node<S>, x: seq<int>)
  {
    !n.leaf ==>
      && n.k.Some? && n.k.value < |x|
      && 0 <= x[n.k.value] < |n.children|
      && Navigable(n.children[x[n.k.value]], x)
  }

  /** The child index chosen at an internal node. */
  function Branch<S>(n: Node<S>, x: seq<int>): (i: nat)
    requires Navigable(n, x) && !n.leaf
    ensures i < |n.children|
  {
    x[n.k.value]
  }

  /** The child indices of the root-to-leaf path that `x` selects. */
  function PathOf<S>(n: Node<S>, x: seq<int>): (p: seq<nat>)
    requires Navigable(n, x)
    ensures At(n, p).Some? && At(n, p).value.leaf
    ensures n.leaf <==> p == []
  {
    if n.leaf then []
    else
      var i := Branch(n, x);
      var rest := PathOf(n.children[i], x);
      assert ([i] + rest)[1..] == rest;
      [i] + rest
  }

  /** A feature vector the checks in `calc_pred_dist` and `update_posterior`
      accept: `c_k` entries, each in [0, c_num_children). */
  predicate ValidX(x: seq<int>, c: nat, cK: nat)
  {
    |x| == cK && forall j :: 0 <= j < |x| ==> 0 <= x[j] < c
  }

  /** In a well-formed tree every accepted feature vector leads to a leaf. */
  lemma {:induction false} WellFormedNavigable<S>(n: Node<S>, c: nat, cK: nat, x: seq<int>)
    requires WellFormed(n, c, cK) && ValidX(x, c, cK)
    ensures Navigable(n, x)
  {
    if !n.leaf {
      var f := n.k.value;
      assert f < cK;
      WellFormedNavigable(n.children[x[f]], c, cK, x);
    }
  }
}
