/** Path traversal and prediction on one meta-tree
    (bayesml/metatree/_metatree_x_discrete.py: `_gen_sample_recursion`
    lines 332-350, `_calc_pred_dist_recursion` lines 1683-1687, the
    prediction recursions lines 1706-1743) and the combination of the
    per-tree predictions in `make_prediction` (lines 1745-1772). */
module Prediction {
  import opened Wrappers
  import opened Nodes
  import opened LeafModel
  import opened Posterior

  // ---------------------------------------------------------------------
  // Following `children[x[node.k]]`
  // ---------------------------------------------------------------------

  /** Python's `s[i]` on a list of length `len`: a negative index counts from
      the end, anything outside [-len, len) is an IndexError.  On that range
      it is the remainder of `i` modulo `len`. */
  function PyIndex(i: int, len: nat): (r: Option<nat>)
    ensures r.Some? <==> -(len as int) <= i < len
    ensures r.Some? ==> r.value < len && r.value == i % len
    ensures 0 <= i < len ==> r == Some(i)
  {
    if 0 <= i < len then Some(i)
    else if -(len as int) <= i < 0 then
      assert (i + len) % len == i % len by { ModShift(i, len); }
      Some(i + len)
    else None
  }

  lemma ModShift(i: int, len: nat)
    requires -(len as int) <= i < 0
    ensures (i + len) % len == i % len == i + len
  {
    var q := i + len;
    assert 0 <= q < len;
    assert q % len == q;
    assert i == -1 * len + q;
  }

  /** `_gen_sample_recursion` down to the leaf: a leaf is the answer; an
      internal node indexes `x` with its split feature and its child list
      with that entry, with Python's indexing rules.  `c` is the number of
      child slots, used when they are all unset (`None`). */
  function Follow<S>(n: Node<S>, x: seq<int>, c: nat): (r: Result<Node<S>>)
    ensures r.Ok? ==> r.value.leaf
  {
    if n.leaf then Ok(n)
    else if n.k.None? then Err(TypeError)               // x[None] is not an index
    else if n.k.value >= |x| then Err(IndexError)
    else
      var v := x[n.k.value];
      if n.children == [] then
        // an unset slot is None and has no attribute `leaf`
        if PyIndex(v, c).Some? then Err(AttributeError) else Err(IndexError)
      else
        match PyIndex(v, |n.children|)
        case None => Err(IndexError)
        case Some(i) => Follow(n.children[i], x, c)
  }

  /** On a navigable path the traversal reaches exactly the leaf that
      `PathOf` names. */
  lemma {:induction false} FollowPath<S>(n: Node<S>, x: seq<int>, c: nat)
    requires Navigable(n, x)
    ensures Follow(n, x, c) == Ok(At(n, PathOf(n, x)).value)
  {
    if !n.leaf {
      var i := Branch(n, x);
      FollowPath(n.children[i], x, c);
      assert PathOf(n, x) == [i] + PathOf(n.children[i], x);
      assert ([i] + PathOf(n.children[i], x))[1..] == PathOf(n.children[i], x);
    }
  }

  /** Every feature vector the input checks accept leads a well-formed tree
      to a leaf. */
  lemma FollowWellFormed<S>(n: Node<S>, c: nat, cK: nat, x: seq<int>)
    requires WellFormed(n, c, cK) && ValidX(x, c, cK)
    ensures Follow(n, x, c).Ok?
  {
    WellFormedNavigable(n, c, cK, x);
    FollowPath(n, x, c);
  }

  /** Each entry of `x` reduced modulo `c`. */
  function Wrap(x: seq<int>, c: nat): (w: seq<int>)
    requires c > 0
    ensures |w| == |x| && forall j :: 0 <= j < |x| ==> 0 <= w[j] < c
  {
    seq(|x|, j requires 0 <= j < |x| => x[j] % c)
  }

  /** `gen_sample` only checks that `x` holds integers below `c`, and Python
      list indexing counts negative indices from the end: an entry in
      [-c, 0) selects the same child as that entry plus `c`. */
  lemma {:induction false} FollowWraps<S>(n: Node<S>, x: seq<int>, c: nat)
    requires c > 0 && Shaped(n, c)
    requires forall j :: 0 <= j < |x| ==> -(c as int) <= x[j] < c
    ensures Follow(n, x, c) == Follow(n, Wrap(x, c), c)
  {
    var w := Wrap(x, c);
    if !n.leaf && n.k.Some? && n.k.value < |x| && n.children != [] {
      var f := n.k.value;
      assert PyIndex(x[f], c) == PyIndex(w[f], c);
      var i := PyIndex(x[f], c).value;
      FollowWraps(n.children[i], x, c);
    }
  }

  /** `_gen_sample_recursion(root, x)`: the sample the leaf reached by `x`
      draws (the sample with number `no`). */
  function GenSampleOne<S, H>(fam: GenSub<S, H>, n: Node<S>, x: seq<int>, c: nat, no: nat): (r: Result<real>)
    ensures r.Ok? <==> Follow(n, x, c).Ok? && Follow(n, x, c).value.sub.Some?
    ensures r.Ok? ==> r.value == fam.sample(Follow(n, x, c).value.sub.value, x, no)
  {
    var leaf :- Follow(n, x, c);
    if leaf.sub.None? then Err(AttributeError) else Ok(fam.sample(leaf.sub.value, x, no))
  }

  // ---------------------------------------------------------------------
  // Predictive distributions on the path
  // ---------------------------------------------------------------------

  /** `_calc_pred_dist_recursion(root, x)`: the leaf reached by `x` computes
      its predictive distribution; nothing else in the tree changes. */
  function CalcPredPath<S, H>(fam: LearnSub<S, H>, n: Node<S>, x: seq<int>): (r: Node<S>)
    requires Navigable(n, x) && HasSubs(n)
    ensures Erase(r, false, true) == Erase(n, false, true)
    ensures HasSubs(r)
  {
    if n.leaf then n.(sub := Some(fam.calcPred(n.sub.value, x)))
    else
      var i := Branch(n, x);
      var child' := CalcPredPath(fam, n.children[i], x);
      var r := n.(children := n.children[i := child']);
      assert Erase(r, false, true) == Erase(n, false, true) by {
        assert forall j :: 0 <= j < |n.children| ==>
          Erase(r, false, true).children[j] == Erase(n, false, true).children[j];
      }
      r
  }

  /** Only the sub-model of the leaf on the path of `x` changes: it becomes
      the old one after `calc_pred_dist(x)`; every other node keeps its
      sub-model. */
  lemma {:induction false} CalcPredSubs<S, H>(fam: LearnSub<S, H>, n: Node<S>, x: seq<int>, p: seq<nat>)
    requires Navigable(n, x) && HasSubs(n) && At(n, p).Some?
    ensures At(CalcPredPath(fam, n, x), p).Some?
    ensures p == PathOf(n, x) ==>
              && At(n, p).value.sub.Some?
              && At(CalcPredPath(fam, n, x), p).value.sub == Some(fam.calcPred(At(n, p).value.sub.value, x))
    ensures p != PathOf(n, x) ==> At(CalcPredPath(fam, n, x), p).value.sub == At(n, p).value.sub
    decreases |p|
  {
    var r := CalcPredPath(fam, n, x);
    if p != [] {
      var j := p[0];
      assert j < |n.children|;
      if !n.leaf && j == Branch(n, x) {
        assert r.children[j] == CalcPredPath(fam, n.children[j], x);
        assert PathOf(n, x) == [j] + PathOf(n.children[j], x);
        assert p == [j] + p[1..];
        assert p == PathOf(n, x) <==> p[1..] == PathOf(n.children[j], x);
        CalcPredSubs(fam, n.children[j], x, p[1..]);
      } else {
        assert r.children[j] == n.children[j];
        assert p != PathOf(n, x) by {
          if !n.leaf { assert PathOf(n, x)[0] == Branch(n, x); }
        }
      }
    } else if !n.leaf {
      assert PathOf(n, x) != [];
    }
  }

  // ---------------------------------------------------------------------
  // Squared loss: the stopping distribution along the path
  // ---------------------------------------------------------------------

  function Sum(v: seq<real>): real
  {
    if v == [] then 0.0 else v[0] + Sum(v[1..])
  }

  lemma SumCons(a: real, v: seq<real>)
    ensures Sum([a] + v) == a + Sum(v)
  {
    assert ([a] + v)[1..] == v;
  }

  /** `w @ v` */
  function Dot(w: seq<real>, v: seq<real>): real
    requires |w| == |v|
  {
    if w == [] then 0.0 else w[0] * v[0] + Dot(w[1..], v[1..])
  }

  lemma DotCons(a: real, u: seq<real>, b: real, v: seq<real>)
    requires |u| == |v|
    ensures Dot([a] + u, [b] + v) == a * b + Dot(u, v)
  {
    assert ([a] + u)[1..] == u && ([b] + v)[1..] == v;
  }

  /** Weighting `[m] + v` with `[1 - g] + g * w`. */
  lemma DotStep(g: real, m: real, w: seq<real>, v: seq<real>)
    requires |w| == |v|
    ensures Dot([1.0 - g] + Scale(g, w), [m] + v) == (1.0 - g) * m + g * Dot(w, v)
  {
    DotCons(1.0 - g, Scale(g, w), m, v);
    ScaleDot(g, w, v);
  }

  function Scale(g: real, w: seq<real>): (r: seq<real>)
    ensures |r| == |w| && forall i :: 0 <= i < |w| ==> r[i] == g * w[i]
  {
    if w == [] then [] else [g * w[0]] + Scale(g, w[1..])
  }

  lemma {:induction false} ScaleSum(g: real, w: seq<real>)
    ensures Sum(Scale(g, w)) == g * Sum(w)
  {
    if w != [] {
      ScaleSum(g, w[1..]);
      assert Scale(g, w) == [g * w[0]] + Scale(g, w[1..]);
    }
  }

  lemma {:induction false} ScaleDot(g: real, w: seq<real>, v: seq<real>)
    requires |w| == |v|
    ensures Dot(Scale(g, w), v) == g * Dot(w, v)
  {
    if w != [] {
      ScaleDot(g, w[1..], v[1..]);
      assert Scale(g, w) == [g * w[0]] + Scale(g, w[1..]);
    }
  }

  /** The number of nodes on the path of `x`. */
  function PathLength<S>(n: Node<S>, x: seq<int>): nat
    requires Navigable(n, x)
  {
    if n.leaf then 1 else 1 + PathLength(n.children[Branch(n, x)], x)
  }

  /** The probability that the tree stops at each node on the path of `x`:
      `1 - h_g` at an internal node times the probability of reaching it,
      and everything that reaches the leaf stops there. */
  function StopDist<S>(n: Node<S>, x: seq<int>): (w: seq<real>)
    requires Navigable(n, x)
    ensures |w| == PathLength(n, x)
  {
    if n.leaf then [1.0]
    else [1.0 - n.hg] + Scale(n.hg, StopDist(n.children[Branch(n, x)], x))
  }

  /** The leaf-model means (`make_prediction(loss='squared')`) on the path of
      `x`, root first. */
  function PathMeans<S, H>(fam: LearnSub<S, H>, n: Node<S>, x: seq<int>): (v: seq<real>)
    requires Navigable(n, x) && HasSubs(n)
    ensures |v| == PathLength(n, x)
  {
    if n.leaf then [fam.mean(n.sub.value)]
    else [fam.mean(n.sub.value)] + PathMeans(fam, n.children[Branch(n, x)], x)
  }

  /** `_make_prediction_recursion_squared`: `(1-g)*local + g*child` at an
      internal node, the local mean at the leaf. */
  function PredictSquared<S, H>(fam: LearnSub<S, H>, n: Node<S>, x: seq<int>): (r: real)
    requires Navigable(n, x) && HasSubs(n)
  {
    if n.leaf then fam.mean(n.sub.value)
    else (1.0 - n.hg) * fam.mean(n.sub.value) + n.hg * PredictSquared(fam, n.children[Branch(n, x)], x)
  }

  /** The stopping probabilities add up to one. */
  lemma {:induction false} StopDistSumsToOne<S>(n: Node<S>, x: seq<int>)
    requires Navigable(n, x)
    ensures Sum(StopDist(n, x)) == 1.0
  {
    if !n.leaf {
      var ch := n.children[Branch(n, x)];
      var w := StopDist(ch, x);
      var sw := Scale(n.hg, w);
      assert Sum(sw) == n.hg * 1.0 by {
        StopDistSumsToOne(ch, x);
        ScaleSum(n.hg, w);
      }
      assert StopDist(n, x) == [1.0 - n.hg] + sw;
      SumCons(1.0 - n.hg, sw);
    }
  }

  /** With every stopping weight in [0, 1] no stopping probability is
      negative. */
  lemma {:induction false} StopDistNonneg<S>(n: Node<S>, x: seq<int>)
    requires Navigable(n, x) && StopWeightsIn01(n)
    ensures forall i :: 0 <= i < |StopDist(n, x)| ==> StopDist(n, x)[i] >= 0.0
  {
    if !n.leaf {
      var ch := n.children[Branch(n, x)];
      var w := StopDist(ch, x);
      StopDistNonneg(ch, x);
      var sw := Scale(n.hg, w);
      forall i | 0 <= i < |w| ensures sw[i] >= 0.0 {
        MulNonneg(n.hg, w[i]);
      }
      assert StopDist(n, x) == [1.0 - n.hg] + sw;
    }
  }

  /** The squared-loss prediction of a tree is the mean of the leaf-model
      means on the path weighted by the stopping distribution. */
  lemma {:induction false} PredictSquaredIsExpectation<S, H>(fam: LearnSub<S, H>, n: Node<S>, x: seq<int>)
    requires Navigable(n, x) && HasSubs(n)
    ensures PredictSquared(fam, n, x) == Dot(StopDist(n, x), PathMeans(fam, n, x))
  {
    if !n.leaf {
      var ch := n.children[Branch(n, x)];
      PredictSquaredIsExpectation(fam, ch, x);
      var g := n.hg;
      var m := fam.mean(n.sub.value);
      var d := StopDist(ch, x);
      var pm := PathMeans(fam, ch, x);
      assert StopDist(n, x) == [1.0 - g] + Scale(g, d);
      assert PathMeans(fam, n, x) == [m] + pm;
      DotStep(g, m, d, pm);
      MixEqual(g, m, PredictSquared(fam, ch, x), Dot(d, pm));
    }
  }

  /** Mixing `m` with equal values gives equal results. */
  lemma MixEqual(g: real, m: real, a: real, b: real)
    requires a == b
    ensures (1.0 - g) * m + g * a == (1.0 - g) * m + g * b
  {
  }

  /** Weighting values in [lo, hi] with nonnegative weights gives a value
      between `Sum(w) * lo` and `Sum(w) * hi`. */
  lemma {:induction false} DotBounds(w: seq<real>, v: seq<real>, lo: real, hi: real)
    requires |w| == |v|
    requires forall i :: 0 <= i < |w| ==> w[i] >= 0.0 && lo <= v[i] <= hi
    ensures Sum(w) * lo <= Dot(w, v) <= Sum(w) * hi
  {
    if w != [] {
      DotBounds(w[1..], v[1..], lo, hi);
      MulNonneg(w[0], v[0] - lo);
      MulNonneg(w[0], hi - v[0]);
    }
  }

  /** With stopping weights in [0, 1], the squared-loss prediction lies within
      any bounds of the leaf-model means on the path. */
  lemma PredictSquaredBounds<S, H>(fam: LearnSub<S, H>, n: Node<S>, x: seq<int>, lo: real, hi: real)
    requires Navigable(n, x) && HasSubs(n) && StopWeightsIn01(n)
    requires forall i :: 0 <= i < |PathMeans(fam, n, x)| ==> lo <= PathMeans(fam, n, x)[i] <= hi
    ensures lo <= PredictSquared(fam, n, x) <= hi
  {
    StopDistSumsToOne(n, x);
    StopDistNonneg(n, x);
    PredictSquaredIsExpectation(fam, n, x);
    DotBounds(StopDist(n, x), PathMeans(fam, n, x), lo, hi);
    UnitBounds(Sum(StopDist(n, x)), lo, hi, Dot(StopDist(n, x), PathMeans(fam, n, x)));
  }

  lemma UnitBounds(s: real, lo: real, hi: real, d: real)
    requires s == 1.0 && s * lo <= d <= s * hi
    ensures lo <= d <= hi
  {
  }

  // ---------------------------------------------------------------------
  // 0-1 loss: the most probable mode on the path
  // ---------------------------------------------------------------------

  /** `_make_prediction_leaf_01`: the mode of the node's predictive
      distribution and its density or mass. */
  function LocalMode<S, H>(fam: LearnSub<S, H>, n: Node<S>): (real, real)
    requires n.sub.Some?
  {
    (fam.mode(n.sub.value), fam.modeProb(n.sub.value))
  }

  /** The local modes on the path of `x`, root first. */
  function PathModes<S, H>(fam: LearnSub<S, H>, n: Node<S>, x: seq<int>): (v: seq<(real, real)>)
    requires Navigable(n, x) && HasSubs(n)
  {
    if n.leaf then [LocalMode(fam, n)]
    else [LocalMode(fam, n)] + PathModes(fam, n.children[Branch(n, x)], x)
  }

  /** `_make_prediction_recursion_01`: an internal node keeps its own mode
      only when `(1-g) * p_local` beats `g * p_child` strictly.  The answer
      is always the local mode of some node on the path. */
  function Predict01<S, H>(fam: LearnSub<S, H>, n: Node<S>, x: seq<int>): (r: (real, real))
    requires Navigable(n, x) && HasSubs(n)
    ensures r in PathModes(fam, n, x)
  {
    var local := LocalMode(fam, n);
    if n.leaf then local
    else
      var ch := n.children[Branch(n, x)];
      var child := Predict01(fam, ch, x);
      assert PathModes(fam, n, x) == [local] + PathModes(fam, ch, x);
      if (1.0 - n.hg) * local.1 > n.hg * child.1 then local else child
  }

  /** On a tie between the weighted local probability and the weighted
      child probability the child's mode wins; a strict win keeps the local
      mode. */
  lemma Predict01Ties<S, H>(fam: LearnSub<S, H>, n: Node<S>, x: seq<int>)
    requires Navigable(n, x) && HasSubs(n) && !n.leaf
    ensures var ch := Predict01(fam, n.children[Branch(n, x)], x);
            var loc := LocalMode(fam, n);
            && ((1.0 - n.hg) * loc.1 == n.hg * ch.1 ==> Predict01(fam, n, x) == ch)
            && ((1.0 - n.hg) * loc.1 > n.hg * ch.1 ==> Predict01(fam, n, x) == loc)
  {
  }

  // ---------------------------------------------------------------------
  // Combining the trees of the ensemble
  // ---------------------------------------------------------------------

  /** `np.argmax(v)`: the first position holding the largest value. */
  function FirstArgMax(v: seq<real>): (i: nat)
    requires |v| > 0
    ensures i < |v|
    ensures forall j :: 0 <= j < |v| ==> v[j] <= v[i]
    ensures forall j :: 0 <= j < i ==> v[j] < v[i]
  {
    if |v| == 1 then 0
    else
      var t := FirstArgMax(v[1..]);
      if v[0] >= v[t + 1] then 0 else t + 1
  }

  /** Only one position is both maximal and earlier than every other
      maximal position. */
  lemma FirstArgMaxUnique(v: seq<real>, i: nat)
    requires i < |v|
    requires forall j :: 0 <= j < |v| ==> v[j] <= v[i]
    requires forall j :: 0 <= j < i ==> v[j] < v[i]
    ensures FirstArgMax(v) == i
  {
    var m := FirstArgMax(v);
    assert v[m] == v[i];
  }

  /** `w * p` elementwise, for the mode probabilities `p`. */
  function Weighted(w: seq<real>, modes: seq<(real, real)>): (r: seq<real>)
    requires |w| == |modes|
    ensures |r| == |w| && forall i :: 0 <= i < |w| ==> r[i] == w[i] * modes[i].1
  {
    seq(|w|, i requires 0 <= i < |w| => w[i] * modes[i].1)
  }

  /** The entry of `v` that numpy pairs with position `i` of an elementwise
      product: a length-1 operand is stretched over the other. */
  function Stretched(v: seq<real>, i: nat): real
    requires |v| == 1 || i < |v|
  {
    if |v| == 1 then v[0] else v[i]
  }

  /** numpy's `w * p` on one-dimensional arrays: equal lengths multiply
      entry by entry, a length-1 side is broadcast over the other, and any
      other pair of lengths is a ValueError. */
  function Times(w: seq<real>, p: seq<real>): (r: Result<seq<real>>)
    ensures r.Err? <==> |w| != |p| && |w| != 1 && |p| != 1
    ensures r.Err? ==> r.error == ValueError
    ensures r.Ok? ==> |r.value| == (if |w| == 1 then |p| else |w|)
    ensures r.Ok? ==> forall i :: 0 <= i < |r.value| ==> r.value[i] == Stretched(w, i) * Stretched(p, i)
  {
    if |w| != |p| && |w| != 1 && |p| != 1 then Err(ValueError)
    else
      var n := if |w| == 1 then |p| else |w|;
      Ok(seq(n, i requires 0 <= i < n => Stretched(w, i) * Stretched(p, i)))
  }

  /** The mode probabilities of a list of (mode, probability) pairs. */
  function Probs(modes: seq<(real, real)>): (p: seq<real>)
    ensures |p| == |modes| && forall i :: 0 <= i < |modes| ==> p[i] == modes[i].1
  {
    seq(|modes|, i requires 0 <= i < |modes| => modes[i].1)
  }

  /** On equal lengths the broadcast product is the plain weighting. */
  lemma TimesEqualLengths(w: seq<real>, modes: seq<(real, real)>)
    requires |w| == |modes|
    ensures Times(w, Probs(modes)) == Ok(Weighted(w, modes))
  {
    var p := Times(w, Probs(modes)).value;
    assert forall i :: 0 <= i < |w| ==> p[i] == Stretched(w, i) * Stretched(Probs(modes), i) == w[i] * modes[i].1;
    assert p == Weighted(w, modes);
  }

  /** The "0-1" choice of `make_prediction` from the per-tree modes: the
      broadcast product of the weights with the mode probabilities, its
      first arg-max, and the mode at that position.  On equal lengths this
      is `Select01`; a single weight scales every tree alike; with a single
      tree any later maximum falls past the end. */
  function Choose01(w: seq<real>, modes: seq<(real, real)>): (r: Result<real>)
    ensures |w| != |modes| && |w| != 1 && |modes| != 1 ==> r == Err(ValueError)
    ensures |w| == 0 || |modes| == 0 ==> r == Err(ValueError)
    ensures |w| == |modes| > 0 ==> r == Ok(Select01(w, modes))
    ensures r.Ok? ==> exists i :: 0 <= i < |modes| && r.value == modes[i].0
    ensures r.Err? ==> r.error in {ValueError, IndexError}
  {
    var prod := Times(w, Probs(modes));
    if prod.Err? || |prod.value| == 0 then Err(ValueError)
    else
      var i := FirstArgMax(prod.value);
      assert |w| == |modes| ==> modes[i].0 == Select01(w, modes) by {
        if |w| == |modes| { TimesEqualLengths(w, modes); }
      }
      if i < |modes| then Ok(modes[i].0) else Err(IndexError)
  }

  /** One weight `a` for many trees: numpy stretches it over every tree and
      the choice is the first tree whose `a` times mode probability is
      largest. */
  lemma Choose01OneWeight(a: real, modes: seq<(real, real)>)
    requires |modes| > 0
    ensures var r := Choose01([a], modes);
            && r.Ok?
            && exists i :: 0 <= i < |modes| && r.value == modes[i].0
                 && (forall j :: 0 <= j < |modes| ==> a * modes[j].1 <= a * modes[i].1)
                 && (forall j :: 0 <= j < i ==> a * modes[j].1 < a * modes[i].1)
  {
    var prod := Times([a], Probs(modes)).value;
    forall j | 0 <= j < |modes| ensures prod[j] == a * modes[j].1 {
      assert Stretched([a], j) == a && Stretched(Probs(modes), j) == modes[j].1;
    }
    var i := FirstArgMax(prod);
    assert Choose01([a], modes) == Ok(modes[i].0);
    forall j | 0 <= j < |modes| ensures a * modes[j].1 <= a * modes[i].1 {
      calc {
        a * modes[j].1;
      ==
        prod[j];
      <=
        prod[i];
      ==
        a * modes[i].1;
      }
    }
    forall j | 0 <= j < i ensures a * modes[j].1 < a * modes[i].1 {
      calc {
        a * modes[j].1;
      ==
        prod[j];
      <
        prod[i];
      ==
        a * modes[i].1;
      }
    }
  }

  /** Many weights for one tree: the product stretches the tree's mode
      probability, and the call raises IndexError exactly when a later
      weight gives a strictly larger product than the first. */
  lemma Choose01OneTree(w: seq<real>, m: (real, real))
    requires |w| > 1
    ensures var r := Choose01(w, [m]);
            && (r.Ok? ==> r.value == m.0)
            && (r == Err(IndexError) <==> exists j :: 0 < j < |w| && w[j] * m.1 > w[0] * m.1)
  {
    var prod := Times(w, Probs([m])).value;
    assert forall j :: 0 <= j < |w| ==> prod[j] == w[j] * m.1;
    var i := FirstArgMax(prod);
    if i != 0 {
      assert prod[0] < prod[i];
    }
  }

  /** The squared-loss predictions of every tree. */
  function SquaredAll<S, H>(fam: LearnSub<S, H>, trees: seq<Node<S>>, x: seq<int>): (v: seq<real>)
    requires forall i :: 0 <= i < |trees| ==> Navigable(trees[i], x) && HasSubs(trees[i])
    ensures |v| == |trees|
    ensures forall i :: 0 <= i < |trees| ==> v[i] == PredictSquared(fam, trees[i], x)
  {
    seq(|trees|, i requires 0 <= i < |trees| => PredictSquared(fam, trees[i], x))
  }

  /** The 0-1 predictions (mode, probability) of every tree. */
  function ModesAll<S, H>(fam: LearnSub<S, H>, trees: seq<Node<S>>, x: seq<int>): (v: seq<(real, real)>)
    requires forall i :: 0 <= i < |trees| ==> Navigable(trees[i], x) && HasSubs(trees[i])
    ensures |v| == |trees|
    ensures forall i :: 0 <= i < |trees| ==> v[i] == Predict01(fam, trees[i], x)
  {
    seq(|trees|, i requires 0 <= i < |trees| => Predict01(fam, trees[i], x))
  }

  /** The 0-1 choice across the trees: the mode of the first tree whose
      weight times mode probability is largest (`np.argmax`).  No tree beats
      the chosen one, and every earlier tree is strictly worse. */
  function Select01(w: seq<real>, modes: seq<(real, real)>): (r: real)
    requires |w| == |modes| > 0
    ensures exists i :: 0 <= i < |modes| && r == modes[i].0
              && (forall j :: 0 <= j < |modes| ==> w[j] * modes[j].1 <= w[i] * modes[i].1)
              && (forall j :: 0 <= j < i ==> w[j] * modes[j].1 < w[i] * modes[i].1)
  {
    var i := FirstArgMax(Weighted(w, modes));
    modes[i].0
  }

  /** `make_prediction(loss)` over the trees `trees` with weight vector `w`
      (`None` while the list is empty).  "squared" is the weighted sum of the
      per-tree predictions; "0-1" is the mode of the first tree whose weight
      times mode probability is largest; any other loss is a CriteriaError.
      numpy rejects vectors of different lengths (ValueError; the
      elementwise product of "0-1" broadcasts a length-1 side first) and the
      arg-max of an empty vector (ValueError); a broadcast position past the
      last tree is an IndexError.  A missing vector is an operand without
      dimensions for `@` (ValueError); under "0-1" it is multiplied with
      each per-tree probability (TypeError), and with no tree there is
      nothing to multiply and the arg-max of the empty product raises
      ValueError. */
  function MakePrediction<S, H>(fam: LearnSub<S, H>, loss: string, w: Option<seq<real>>, trees: seq<Node<S>>, x: seq<int>): (r: Result<real>)
    requires forall i :: 0 <= i < |trees| ==> Navigable(trees[i], x) && HasSubs(trees[i])
    ensures loss != "squared" && loss != "0-1" ==> r == Err(CriteriaError)
    ensures loss == "squared" && w.None? ==> r == Err(ValueError)
    ensures loss == "0-1" && w.None? ==> r == Err(if trees == [] then ValueError else TypeError)
    ensures loss == "0-1" && trees == [] ==> r == Err(ValueError)
    ensures loss == "squared" && w.Some? && |w.value| != |trees| ==> r == Err(ValueError)
    ensures loss == "squared" && w.Some? && |w.value| == |trees| ==> r == Ok(Dot(w.value, SquaredAll(fam, trees, x)))
    ensures loss == "0-1" && w.Some? && |w.value| != |trees| && |w.value| != 1 && |trees| != 1 ==> r == Err(ValueError)
    ensures loss == "0-1" && w.Some? && (|w.value| == 0 || |trees| == 0) ==> r == Err(ValueError)
    ensures loss == "0-1" && w.Some? && |w.value| == |trees| > 0 ==> r == Ok(Select01(w.value, ModesAll(fam, trees, x)))
    ensures loss == "0-1" && w.Some? ==> r == Choose01(w.value, ModesAll(fam, trees, x))
    ensures loss == "0-1" && r.Ok? ==> exists i :: 0 <= i < |trees| && r.value == ModesAll(fam, trees, x)[i].0
  {
    if loss == "squared" then
      var v := SquaredAll(fam, trees, x);
      if w.None? then Err(ValueError)
      else if |w.value| != |v| then Err(ValueError)
      else Ok(Dot(w.value, v))
    else if loss == "0-1" then
      var modes := ModesAll(fam, trees, x);
      if w.None? then Err(if trees == [] then ValueError else TypeError)
      else
        Choose01(w.value, modes)
    else Err(CriteriaError)
  }

  /** The squared-loss prediction of the ensemble is a weighted average: with
      a probability vector over the trees it lies within any bounds of the
      per-tree predictions. */
  lemma MakePredictionSquaredBounds<S, H>(fam: LearnSub<S, H>, w: seq<real>, trees: seq<Node<S>>, x: seq<int>, lo: real, hi: real)
    requires forall i :: 0 <= i < |trees| ==> Navigable(trees[i], x) && HasSubs(trees[i])
    requires |w| == |trees| && Sum(w) == 1.0
    requires forall i :: 0 <= i < |w| ==> w[i] >= 0.0 && lo <= PredictSquared(fam, trees[i], x) <= hi
    ensures MakePrediction(fam, "squared", Some(w), trees, x).Ok?
    ensures lo <= MakePrediction(fam, "squared", Some(w), trees, x).value <= hi
  {
    DotBounds(w, SquaredAll(fam, trees, x), lo, hi);
  }
}
