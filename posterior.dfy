/** The online posterior update of one meta-tree
    (`_update_posterior_leaf` and `_update_posterior_recursion`,
    bayesml/metatree/_metatree_x_discrete.py lines 1275-1301): one observation
    walks the path `children[x[node.k]]` down to a leaf, every node on it
    absorbs the observation into its sub-model, and every internal node on it
    reweights its stopping weight by Bayes' rule. */
module Posterior {
  import opened Wrappers
  import opened Nodes
  import opened LeafModel

  /** `(1 - g) * eLoc + g * eCh`: the evidence of a node that stops with
      probability `1 - g` and continues into the child with probability `g`. */
  function Mix(g: real, eLoc: real, eCh: real): real
  {
    (1.0 - g) * eLoc + g * eCh
  }

  function Min(a: real, b: real): real { if a <= b then a else b }
  function Max(a: real, b: real): real { if a >= b then a else b }

  /** With a stopping weight in [0, 1] and positive evidences, the mixture lies
      between the two evidences, and the reweighted `g * eCh / Mix` is the
      posterior probability of "continue": it lies in [0, 1], and its
      complement is the posterior probability of "stop". */
  lemma MulNonneg(a: real, b: real)
    requires a >= 0.0 && b >= 0.0
    ensures a * b >= 0.0
  {
  }

  lemma MixtureStep(g: real, eLoc: real, eCh: real)
    requires 0.0 <= g <= 1.0 && eLoc > 0.0 && eCh > 0.0
    ensures Min(eLoc, eCh) <= Mix(g, eLoc, eCh) <= Max(eLoc, eCh)
    ensures Mix(g, eLoc, eCh) > 0.0
    ensures 0.0 <= g * eCh / Mix(g, eLoc, eCh) <= 1.0
    ensures (1.0 - g * eCh / Mix(g, eLoc, eCh)) * Mix(g, eLoc, eCh) == (1.0 - g) * eLoc
  {
    var m := Mix(g, eLoc, eCh);
    if eLoc <= eCh {
      assert m - eLoc == g * (eCh - eLoc);
      MulNonneg(g, eCh - eLoc);
      assert eCh - m == (1.0 - g) * (eCh - eLoc);
      MulNonneg(1.0 - g, eCh - eLoc);
    } else {
      assert m - eCh == (1.0 - g) * (eLoc - eCh);
      MulNonneg(1.0 - g, eLoc - eCh);
      assert eLoc - m == g * (eLoc - eCh);
      MulNonneg(g, eLoc - eCh);
    }
    assert m > 0.0;
    var q := g * eCh / m;
    assert q * m == g * eCh;
    assert g * eCh <= m by {
      assert m - g * eCh == (1.0 - g) * eLoc;
    }
    assert (1.0 - q) * m == m - q * m;
  }

  /** The predictive value a node reports for `y` before it absorbs it. */
  function LocalEvidence<S, H>(fam: LearnSub<S, H>, n: Node<S>, x: seq<int>, y: real): real
    requires n.sub.Some?
  {
    fam.predictive(fam.calcPred(n.sub.value, x), y)
  }

  /** What `_update_posterior_recursion(node, x, y)` needs to run without an
      error and without dividing by zero: the path exists, every node on it
      has a sub-model with a positive predictive value for `y`, and every
      internal node on it has a stopping weight in [0, 1]. */
  ghost predicate Updatable<S, H>(fam: LearnSub<S, H>, n: Node<S>, x: seq<int>, y: real)
  {
    && n.sub.Some?
    && LocalEvidence(fam, n, x, y) > 0.0
    && (!n.leaf ==>
          && 0.0 <= n.hg <= 1.0
          && n.k.Some? && n.k.value < |x|
          && 0 <= x[n.k.value] < |n.children|
          && Updatable(fam, n.children[x[n.k.value]], x, y))
  }

  lemma {:induction false} UpdatableNavigable<S, H>(fam: LearnSub<S, H>, n: Node<S>, x: seq<int>, y: real)
    requires Updatable(fam, n, x, y)
    ensures Navigable(n, x)
  {
    if !n.leaf {
      UpdatableNavigable(fam, n.children[x[n.k.value]], x, y);
    }
  }

  /** The smallest and the largest local evidence on the path of `x`. */
  function PathMinEvidence<S, H>(fam: LearnSub<S, H>, n: Node<S>, x: seq<int>, y: real): real
    requires Updatable(fam, n, x, y)
  {
    if n.leaf then LocalEvidence(fam, n, x, y)
    else Min(LocalEvidence(fam, n, x, y), PathMinEvidence(fam, n.children[x[n.k.value]], x, y))
  }

  function PathMaxEvidence<S, H>(fam: LearnSub<S, H>, n: Node<S>, x: seq<int>, y: real): real
    requires Updatable(fam, n, x, y)
  {
    if n.leaf then LocalEvidence(fam, n, x, y)
    else Max(LocalEvidence(fam, n, x, y), PathMaxEvidence(fam, n.children[x[n.k.value]], x, y))
  }

  /** `_update_posterior_recursion(node, x, y)`: the updated subtree and the
      evidence it returns.  The child is updated first; then the node's own
      sub-model computes its predictive value `e_loc` for `y` and absorbs
      `(x, y)`; an internal node returns `(1-g)*e_loc + g*e_ch` and stores
      `g*e_ch/that` as its new stopping weight.  The evidence is a weighted
      average of the local evidences on the path, so it is positive and lies
      between their extremes; only stopping weights and sub-models change. */
  function UpdatePath<S, H>(fam: LearnSub<S, H>, n: Node<S>, x: seq<int>, y: real): (r: (Node<S>, real))
    requires Updatable(fam, n, x, y)
    ensures r.1 > 0.0
    ensures PathMinEvidence(fam, n, x, y) <= r.1 <= PathMaxEvidence(fam, n, x, y)
    ensures Strip(r.0) == Strip(n)
    ensures r.0.sub == Some(fam.absorb(fam.calcPred(n.sub.value, x), x, y))
    ensures StopWeightsIn01(n) ==> StopWeightsIn01(r.0)
    ensures HasSubs(n) ==> HasSubs(r.0)
  {
    var s1 := fam.calcPred(n.sub.value, x);
    var eLoc := fam.predictive(s1, y);
    var sub' := Some(fam.absorb(s1, x, y));
    if n.leaf then
      (n.(sub := sub'), eLoc)
    else
      var i := x[n.k.value];
      var (child', eCh) := UpdatePath(fam, n.children[i], x, y);
      var g := n.hg;
      MixtureStep(g, eLoc, eCh);
      var tmp2 := Mix(g, eLoc, eCh);
      var r0 := n.(children := n.children[i := child'], sub := sub', hg := g * eCh / tmp2);
      assert Strip(r0) == Strip(n) by {
        assert forall j :: 0 <= j < |n.children| ==> Strip(r0).children[j] == Strip(n).children[j];
      }
      (r0, tmp2)
  }

  /** Locality: the update leaves every subtree that hangs off the path of
      `x` exactly as it was. */
  lemma {:induction false} UpdateLocality<S, H>(fam: LearnSub<S, H>, n: Node<S>, x: seq<int>, y: real, p: seq<nat>)
    requires Updatable(fam, n, x, y)
    requires !IsPrefix(p, (UpdatableNavigable(fam, n, x, y); PathOf(n, x)))
    ensures At(UpdatePath(fam, n, x, y).0, p) == At(n, p)
  {
    UpdatableNavigable(fam, n, x, y);
    var r := UpdatePath(fam, n, x, y).0;
    assert p != [];
    if p[0] < |n.children| {
      if !n.leaf && p[0] == x[n.k.value] {
        var i := x[n.k.value];
        var rest := PathOf(n.children[i], x);
        assert PathOf(n, x) == [i] + rest;
        UpdateLocality(fam, n.children[i], x, y, p[1..]);
        assert r.children[i] == UpdatePath(fam, n.children[i], x, y).0;
      } else {
        assert r.children[p[0]] == n.children[p[0]];
      }
    }
  }

  /** On the path, every node absorbs the observation: the sub-model found at
      a prefix of the path afterwards is the old one after computing its
      predictive distribution and absorbing `(x, y)`. */
  lemma {:induction false} UpdateOnPath<S, H>(fam: LearnSub<S, H>, n: Node<S>, x: seq<int>, y: real, p: seq<nat>)
    requires Updatable(fam, n, x, y)
    requires IsPrefix(p, (UpdatableNavigable(fam, n, x, y); PathOf(n, x)))
    ensures At(n, p).Some? && At(n, p).value.sub.Some?
    ensures At(UpdatePath(fam, n, x, y).0, p).Some?
    ensures At(UpdatePath(fam, n, x, y).0, p).value.sub
         == Some(fam.absorb(fam.calcPred(At(n, p).value.sub.value, x), x, y))
  {
    UpdatableNavigable(fam, n, x, y);
    var r := UpdatePath(fam, n, x, y).0;
    if p != [] {
      var i := x[n.k.value];
      var rest := PathOf(n.children[i], x);
      assert PathOf(n, x) == [i] + rest;
      assert p[0] == i;
      assert IsPrefix(p[1..], rest);
      UpdateOnPath(fam, n.children[i], x, y, p[1..]);
      assert r.children[i] == UpdatePath(fam, n.children[i], x, y).0;
    }
  }
}
