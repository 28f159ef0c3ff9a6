/** The learning model `LearnModel` of
    bayesml/metatree/_metatree_x_discrete.py (lines 686-1800): the prior
    (`h0_*`) and posterior (`hn_*`) hyperparameters, the checks on the
    data, the batch update of the posterior meta-trees (`_MTRF`, with the
    fitted decision trees passed in, and `_given_MT`), the predictive pass,
    prediction, the sequential `pred_and_update`, and the MAP meta-tree of
    `estimate_params`. */
module Learning {
  import opened Wrappers
  import opened Nodes
  import opened LeafModel
  import opened Builders
  import opened Posterior
  import opened Prediction
  import opened MapEstimate
  import opened MapCopy
  import opened Merge
  import opened Invariants
  import opened Ensemble
  import opened Samples
  import Generative

  // ---------------------------------------------------------------------
  // The checks on the data
  // ---------------------------------------------------------------------

  predicate NonNegative(v: seq<int>)
  {
    forall j :: 0 <= j < |v| ==> 0 <= v[j]
  }

  lemma SizeOne(shape: seq<nat>)
    requires |shape| == 1
    ensures Size(shape) == shape[0]
  {
    assert shape[..0] == [];
  }

  /** The checks `calc_pred_dist` and `pred_and_update` run on a feature
      vector: a one-dimensional array of non-negative integers with `c_k`
      entries, all below `c_num_children`.  Each failure is a
      DataFormatError, except that the maximum of an empty array raises
      ValueError. */
  function VectorError(x: IntArray, c: nat, cK: nat): (e: Option<Error>)
    requires |x.flat| == Size(x.shape)
    ensures e.None? <==> |x.shape| == 1 && x.flat != [] && ValidX(x.flat, c, cK)
    ensures e.Some? ==> e.value == DataFormatError || e.value == ValueError
  {
    if |x.shape| != 1 || !NonNegative(x.flat) then Some(DataFormatError)
    else
      SizeOne(x.shape);
      if x.shape[0] != cK then Some(DataFormatError)
      else
        match MaxOf(x.flat)
        case None => Some(ValueError)
        case Some(m) => if m >= c then Some(DataFormatError) else None
  }

  /** `np.zeros(c_k, dtype=int)` */
  function Zeros(n: nat): (z: seq<int>)
    ensures |z| == n && forall j :: 0 <= j < n ==> z[j] == 0
  {
    seq(n, _ => 0)
  }

  /** The target `update_posterior` takes: a scalar, or a numpy array given
      by its shape and its entries in row-major order. */
  datatype Target = Scalar(v: real) | Targets(shape: seq<nat>, flat: seq<real>)

  predicate TargetOk(y: Target)
  {
    y.Targets? ==> |y.flat| == Size(y.shape)
  }

  /** The checks `update_posterior` runs, in order: `x` an array of
      non-negative integer vectors of width `c_k` whose maximum lies below
      `c_num_children`, and `y` an array of shape `x.shape[:-1]` or a scalar
      when `x` is a single vector.  Each failure is a DataFormatError,
      except that the maximum of an empty array raises ValueError. */
  function ObservationError(x: IntArray, y: Target, c: nat, cK: nat): (e: Option<Error>)
    requires |x.flat| == Size(x.shape)
    ensures e.None? ==> Vectors(x) && NonNegative(x.flat) && Width(x) == cK && x.flat != []
    ensures e.None? ==> (y.Targets? ==> y.shape == Lead(x)) && (y.Scalar? ==> Lead(x) == [])
    ensures e.Some? ==> e.value == DataFormatError || e.value == ValueError
  {
    if !Vectors(x) || !NonNegative(x.flat) then Some(DataFormatError)
    else if Width(x) != cK then Some(DataFormatError)
    else
      match MaxOf(x.flat)
      case None => Some(ValueError)
      case Some(m) =>
        if m >= c then Some(DataFormatError)
        else if y.Targets? && y.shape != Lead(x) then Some(DataFormatError)
        else if y.Scalar? && Lead(x) != [] then Some(DataFormatError)
        else None
  }

  /** Rows of `c_k` entries in [0, c_num_children), one target per row. */
  predicate RowsValid(rows: seq<seq<int>>, ys: seq<real>, c: nat, cK: nat)
  {
    |rows| == |ys| && forall i :: 0 <= i < |rows| ==> ValidX(rows[i], c, cK)
  }

  /** `x.reshape(-1, c_k)` and `np.ravel(y)` after the checks: the rows and
      their targets, as many of one as of the other, every row a feature
      vector the trees accept. */
  function Observations(x: IntArray, y: Target, c: nat, cK: nat): (r: (seq<seq<int>>, seq<real>))
    requires |x.flat| == Size(x.shape) && TargetOk(y) && ObservationError(x, y, c, cK).None?
    ensures RowsValid(r.0, r.1, c, cK) && |r.0| > 0
  {
    var m := MaxOf(x.flat).value;
    assert forall k :: 0 <= k < |x.flat| ==> 0 <= x.flat[k] < c;
    RowsAll(x.flat, Size(Lead(x)), Width(x), v => 0 <= v < c);
    var rows := AsRows(x);
    assert |rows| > 0 by {
      assert Size(x.shape) == Size(Lead(x)) * Width(x);
    }
    (rows, if y.Scalar? then [y.v] else y.flat)
  }

  /** A feature vector that passes the checks of `pred_and_update` passes
      those of `update_posterior` exactly when its target is a scalar or an
      array of shape `()`, and then it is the one row. */
  lemma SingleObservation(x: IntArray, y: Target, c: nat, cK: nat)
    requires |x.flat| == Size(x.shape) && TargetOk(y) && VectorError(x, c, cK).None?
    ensures ObservationError(x, y, c, cK).None? <==> (y.Targets? ==> y.shape == [])
    ensures ObservationError(x, y, c, cK).None? ==>
              Observations(x, y, c, cK) == ([x.flat], if y.Scalar? then [y.v] else y.flat)
  {
    SizeOne(x.shape);
    assert Lead(x) == [];
    if ObservationError(x, y, c, cK).None? {
      assert Size(Lead(x)) == 1 && Width(x) == cK && |x.flat| == cK;
      var rows := Rows(x.flat, 1, cK);
      assert rows[0] == x.flat[0 * cK .. 0 * cK + cK];
      assert x.flat[0 .. cK] == x.flat;
      assert rows == [x.flat];
    }
  }

  // ---------------------------------------------------------------------
  // One meta-tree absorbing the rows
  // ---------------------------------------------------------------------

  /** A weight times an evidence. */
  function Scaled(w: real, e: real): real
  {
    w * e
  }

  lemma ScaledPositive(a: real, b: real)
    requires a > 0.0 && b > 0.0
    ensures Scaled(a, b) > 0.0
  {
  }

  /** `_update_posterior_recursion(metatree, x, y)` on a tree whose path
      for `x` it can walk with positive predictive values: the updated tree
      and the value returned.  Elsewhere the source raises; the fold below
      then leaves the tree alone, and `AbsorbSound` shows that a sound tree
      and valid rows never get there. */
  ghost function Step<S, H>(fam: LearnSub<S, H>, t: Node<S>, x: seq<int>, y: real): (r: (Node<S>, real))
    ensures r.1 > 0.0 && Strip(r.0) == Strip(t)
  {
    if Updatable(fam, t, x, y) then UpdatePath(fam, t, x, y) else (t, 1.0)
  }

  /** `for j in range(x.shape[0]): log_post[i] += np.log(
      _update_posterior_recursion(metatree, x[j], y[j]))`, from row `j` on:
      the tree after absorbing rows `j`, `j + 1`, ... in order, and the
      product of the predictive values the recursion returns (the
      exponential of the summed logarithms).  Absorbing rows changes no
      tree's structure: only stopping weights and sub-models along the
      rows' paths move. */
  ghost function Absorb<S, H>(fam: LearnSub<S, H>, t: Node<S>, rows: seq<seq<int>>, ys: seq<real>, j: nat): (r: (Node<S>, real))
    requires |ys| == |rows| && j <= |rows|
    ensures r.1 > 0.0 && Strip(r.0) == Strip(t)
    decreases |rows| - j
  {
    if j == |rows| then (t, 1.0)
    else
      var u := Step(fam, t, rows[j], ys[j]);
      var rest := Absorb(fam, u.0, rows, ys, j + 1);
      ScaledPositive(u.1, rest.1);
      (rest.0, Scaled(u.1, rest.1))
  }

  /** On a sound tree and valid rows every step is the source's update,
      and the tree stays sound. */
  lemma {:induction false} AbsorbSound<S(!new), H>(fam: LearnSub<S, H>, t: Node<S>, rows: seq<seq<int>>, ys: seq<real>, j: nat, c: nat, cK: nat, dMax: nat)
    requires PositiveEvidence(fam) && Sound(t, c, cK, dMax) && RowsValid(rows, ys, c, cK) && j <= |rows|
    ensures Sound(Absorb(fam, t, rows, ys, j).0, c, cK, dMax)
    ensures var r := Absorb(fam, t, rows, ys, j).0;
            r.depth == t.depth && r.kCandidates == t.kCandidates
    decreases |rows| - j
  {
    if j < |rows| {
      AbsorbStep(fam, t, rows, ys, j, c, cK, dMax);
      var u := UpdatePath(fam, t, rows[j], ys[j]);
      AbsorbSound(fam, u.0, rows, ys, j + 1, c, cK, dMax);
    }
    StripKeepsRoot(t, Absorb(fam, t, rows, ys, j).0);
  }

  /** Row `j` of valid rows on a sound tree: the source's update, then the
      rest. */
  lemma AbsorbStep<S(!new), H>(fam: LearnSub<S, H>, t: Node<S>, rows: seq<seq<int>>, ys: seq<real>, j: nat, c: nat, cK: nat, dMax: nat)
    requires PositiveEvidence(fam) && Sound(t, c, cK, dMax) && RowsValid(rows, ys, c, cK) && j < |rows|
    ensures Updatable(fam, t, rows[j], ys[j]) && Sound(UpdatePath(fam, t, rows[j], ys[j]).0, c, cK, dMax)
    ensures var u := UpdatePath(fam, t, rows[j], ys[j]);
            var rest := Absorb(fam, u.0, rows, ys, j + 1);
            Absorb(fam, t, rows, ys, j) == (rest.0, Scaled(u.1, rest.1))
  {
    UpdateSound(fam, t, c, cK, dMax, rows[j], ys[j]);
  }

  lemma RowsValidAppend(r1: seq<seq<int>>, y1: seq<real>, r2: seq<seq<int>>, y2: seq<real>, c: nat, cK: nat)
    requires RowsValid(r1, y1, c, cK) && RowsValid(r2, y2, c, cK)
    ensures RowsValid(r1 + r2, y1 + y2, c, cK)
  {
    forall i | 0 <= i < |r1 + r2| ensures ValidX((r1 + r2)[i], c, cK) {
      if i >= |r1| { assert (r1 + r2)[i] == r2[i - |r1|]; }
    }
  }

  /** Past the first batch, absorbing the concatenation is absorbing the
      second batch. */
  lemma {:induction false} AbsorbShift<S, H>(fam: LearnSub<S, H>, t: Node<S>, r1: seq<seq<int>>, y1: seq<real>,
                                             r2: seq<seq<int>>, y2: seq<real>, k: nat)
    requires |r1| == |y1| && |r2| == |y2| && k <= |r2|
    ensures Absorb(fam, t, r1 + r2, y1 + y2, |r1| + k) == Absorb(fam, t, r2, y2, k)
    decreases |r2| - k
  {
    if k < |r2| {
      assert (r1 + r2)[|r1| + k] == r2[k] && (y1 + y2)[|r1| + k] == y2[k];
      var u := Step(fam, t, r2[k], y2[k]);
      AbsorbShift(fam, u.0, r1, y1, r2, y2, k + 1);
    }
  }

  /** Absorbing the concatenation from row `j` of the first batch on is
      absorbing the rest of the first batch, then the second, and the
      evidences multiply. */
  lemma {:induction false} AbsorbPrefix<S, H>(fam: LearnSub<S, H>, t: Node<S>, r1: seq<seq<int>>, y1: seq<real>,
                                              r2: seq<seq<int>>, y2: seq<real>, j: nat)
    requires |r1| == |y1| && |r2| == |y2| && j <= |r1|
    ensures var a := Absorb(fam, t, r1, y1, j);
            var b := Absorb(fam, a.0, r2, y2, 0);
            Absorb(fam, t, r1 + r2, y1 + y2, j) == (b.0, Scaled(a.1, b.1))
    decreases |r1| - j
  {
    if j == |r1| {
      AbsorbShift(fam, t, r1, y1, r2, y2, 0);
    } else {
      assert (r1 + r2)[j] == r1[j] && (y1 + y2)[j] == y1[j];
      var u := Step(fam, t, r1[j], y1[j]);
      AbsorbPrefix(fam, u.0, r1, y1, r2, y2, j + 1);
      var a1 := Absorb(fam, u.0, r1, y1, j + 1);
      var b := Absorb(fam, a1.0, r2, y2, 0);
      ScaledAssoc(u.1, a1.1, b.1);
    }
  }

  /** Absorbing two batches one after the other is absorbing their
      concatenation, and the evidences multiply. */
  lemma AbsorbAppend<S, H>(fam: LearnSub<S, H>, t: Node<S>, r1: seq<seq<int>>, y1: seq<real>, r2: seq<seq<int>>, y2: seq<real>)
    requires |r1| == |y1| && |r2| == |y2|
    ensures var a := Absorb(fam, t, r1, y1, 0);
            var b := Absorb(fam, a.0, r2, y2, 0);
            Absorb(fam, t, r1 + r2, y1 + y2, 0) == (b.0, Scaled(a.1, b.1))
  {
    AbsorbPrefix(fam, t, r1, y1, r2, y2, 0);
  }

  // ---------------------------------------------------------------------
  // The posterior weights of the meta-trees
  // ---------------------------------------------------------------------

  /** The evidence of every tree for the rows. */
  ghost function Evidences<S, H>(fam: LearnSub<S, H>, trees: seq<Node<S>>, rows: seq<seq<int>>, ys: seq<real>): (v: seq<real>)
    requires |ys| == |rows|
    ensures |v| == |trees| && forall i :: 0 <= i < |trees| ==> v[i] > 0.0
  {
    seq(|trees|, i requires 0 <= i < |trees| => Absorb(fam, trees[i], rows, ys, 0).1)
  }

  /** The trees after absorbing the rows: sound roots again. */
  ghost function Absorbed<S(!new), H>(fam: LearnSub<S, H>, trees: seq<Node<S>>, rows: seq<seq<int>>, ys: seq<real>, c: nat, cK: nat, dMax: nat): (r: seq<Node<S>>)
    requires PositiveEvidence(fam) && AllRoots(trees, c, cK, dMax) && RowsValid(rows, ys, c, cK)
    ensures |r| == |trees| && AllRoots(r, c, cK, dMax)
    ensures forall i :: 0 <= i < |trees| ==> r[i] == Absorb(fam, trees[i], rows, ys, 0).0
  {
    var r := seq(|trees|, i requires 0 <= i < |trees| => Absorb(fam, trees[i], rows, ys, 0).0);
    assert AllRoots(r, c, cK, dMax) by {
      forall i | 0 <= i < |trees| ensures Root(r[i], c, cK, dMax) {
        assert Root(trees[i], c, cK, dMax);
        AbsorbSound(fam, trees[i], rows, ys, 0, c, cK, dMax);
      }
    }
    r
  }

  /** Two trees with the same structure sit at the same depth over the same
      candidates. */
  lemma StripKeepsRoot<S>(a: Node<S>, b: Node<S>)
    requires Strip(a) == Strip(b)
    ensures a.depth == b.depth && a.kCandidates == b.kCandidates
  {
    assert Strip(a).depth == a.depth && Strip(b).depth == b.depth;
    assert Strip(a).kCandidates == a.kCandidates && Strip(b).kCandidates == b.kCandidates;
  }

  /** The unnormalised posterior weights: each prior weight times its tree's
      evidence. */
  function Scores(probs: seq<real>, ev: seq<real>): (s: seq<real>)
    requires |ev| == |probs|
    ensures |s| == |probs| && forall i :: 0 <= i < |probs| ==> s[i] == Scaled(probs[i], ev[i])
  {
    seq(|probs|, i requires 0 <= i < |probs| => Scaled(probs[i], ev[i]))
  }

  /** `v / v.sum()` */
  function Normalized(v: seq<real>): (r: seq<real>)
    requires Sum(v) > 0.0
    ensures |r| == |v|
  {
    Scale(1.0 / Sum(v), v)
  }

  lemma {:induction false} SumNonneg(v: seq<real>)
    requires forall i :: 0 <= i < |v| ==> v[i] >= 0.0
    ensures Sum(v) >= 0.0
  {
    if v != [] {
      SumNonneg(v[1..]);
    }
  }

  /** A sum of nonnegative terms one of which is positive is positive. */
  lemma {:induction false} SumPositive(v: seq<real>, i: nat)
    requires i < |v| && v[i] > 0.0 && forall k :: 0 <= k < |v| ==> v[k] >= 0.0
    ensures Sum(v) > 0.0
  {
    if i == 0 {
      SumNonneg(v[1..]);
    } else {
      SumPositive(v[1..], i - 1);
    }
  }

  /** A probability vector has a positive entry. */
  lemma SomePositive(p: seq<real>) returns (i: nat)
    requires ProbVector(p)
    ensures i < |p| && p[i] > 0.0
  {
    if forall k :: 0 <= k < |p| ==> p[k] <= 0.0 {
      SumConst(p, 0.0);
      assert false;
    }
    var k :| 0 <= k < |p| && p[k] > 0.0;
    i := k;
  }

  /** Bayes' rule over the meta-trees: prior weights that form a
      probability vector and positive evidences give a positive total
      score, and the normalised scores form a probability vector again. */
  lemma PosteriorIsProb(probs: seq<real>, ev: seq<real>)
    requires ProbVector(probs) && |ev| == |probs| && forall i :: 0 <= i < |ev| ==> ev[i] > 0.0
    ensures Sum(Scores(probs, ev)) > 0.0
    ensures ProbVector(Normalized(Scores(probs, ev)))
  {
    var s := Scores(probs, ev);
    forall k | 0 <= k < |s| ensures s[k] >= 0.0 {
      MulNonneg(probs[k], ev[k]);
    }
    var i := SomePositive(probs);
    ScaledPositive(probs[i], ev[i]);
    SumPositive(s, i);
    NormalizedIsProb(s);
  }

  /** `v / v.sum()` of nonnegative entries with a positive total sums to one. */
  lemma NormalizedIsProb(v: seq<real>)
    requires Sum(v) > 0.0 && forall k :: 0 <= k < |v| ==> v[k] >= 0.0
    ensures ProbVector(Normalized(v))
  {
    var t := Sum(v);
    var q := 1.0 / t;
    Unit(t, q, q * t);
    Reciprocal(t);
    ScaledUnit(v, q);
    ScaledNonneg(v, q);
  }

  lemma ScaledUnit(v: seq<real>, q: real)
    requires q * Sum(v) == 1.0
    ensures Sum(Scale(q, v)) == 1.0
  {
    ScaleSum(q, v);
  }

  lemma ScaledNonneg(v: seq<real>, q: real)
    requires q >= 0.0 && forall k :: 0 <= k < |v| ==> v[k] >= 0.0
    ensures forall k :: 0 <= k < |v| ==> Scale(q, v)[k] >= 0.0
  {
    forall k | 0 <= k < |v| ensures Scale(q, v)[k] >= 0.0 {
      MulNonneg(q, v[k]);
    }
  }

  lemma Reciprocal(t: real)
    requires t > 0.0
    ensures 1.0 / t > 0.0
  {
  }

  lemma Unit(t: real, q: real, u: real)
    requires t > 0.0 && q == 1.0 / t && u == q * t
    ensures u == 1.0
  {
  }

  /** Multiplying every score by the same positive factor does not change
      the normalised weights: subtracting the largest log-score before
      exponentiating, as `_MTRF` and `_given_MT` do, only rescales. */
  lemma NormalizeShift(v: seq<real>, a: real)
    requires a > 0.0 && Sum(v) > 0.0
    ensures Sum(Scale(a, v)) > 0.0
    ensures Normalized(Scale(a, v)) == Normalized(v)
  {
    ScaleSum(a, v);
    var s := Sum(v);
    var t := Sum(Scale(a, v));
    PositiveProduct(a, s);
    var q := 1.0 / t;
    assert Normalized(Scale(a, v)) == Scale(q, Scale(a, v));
    ScaleScale(q, a, v);
    Cancel(a, s, t);
    ScaleEq(q * a, 1.0 / s, v);
  }

  lemma PositiveProduct(a: real, s: real)
    requires a > 0.0 && s > 0.0
    ensures a * s > 0.0
  {
  }

  lemma ScaleEq(g: real, h: real, v: seq<real>)
    requires g == h
    ensures Scale(g, v) == Scale(h, v)
  {
  }

  /** Scaling twice is scaling by the product. */
  lemma ScaleScale(g: real, a: real, v: seq<real>)
    ensures Scale(g, Scale(a, v)) == Scale(g * a, v)
  {
    forall i | 0 <= i < |v| ensures Scale(g, Scale(a, v))[i] == Scale(g * a, v)[i] {
      ScaleScaleAt(g, a, v, i);
    }
  }

  lemma ScaleScaleAt(g: real, a: real, v: seq<real>, i: nat)
    requires i < |v|
    ensures Scale(g, Scale(a, v))[i] == Scale(g * a, v)[i]
  {
    Regrouped(g, a, v[i], Scale(a, v)[i], Scale(g, Scale(a, v))[i], Scale(g * a, v)[i]);
  }

  /** `g * (a * x)` and `(g * a) * x`, each given by name. */
  lemma Regrouped(g: real, a: real, x: real, y: real, z: real, w: real)
    requires y == a * x && z == g * y && w == (g * a) * x
    ensures z == w
  {
    Assoc(g, a, x);
  }

  lemma Assoc(g: real, a: real, x: real)
    ensures g * (a * x) == (g * a) * x
  {
  }

  /** Dividing by `a * s` after multiplying by `a` is dividing by `s`. */
  lemma Cancel(a: real, s: real, t: real)
    requires a > 0.0 && s > 0.0 && t == a * s
    ensures (1.0 / t) * a == 1.0 / s
  {
    assert (1.0 / t) * a * s == 1.0;
  }

  /** What `_given_MT` leaves, and what `_MTRF` leaves for the merged trees:
      every tree after absorbing the rows, and the normalised products of
      prior weight and evidence. */
  ghost function Reweighted<S(!new), H>(fam: LearnSub<S, H>, trees: seq<Node<S>>, probs: seq<real>,
                                        rows: seq<seq<int>>, ys: seq<real>, c: nat, cK: nat, dMax: nat): (r: (seq<Node<S>>, seq<real>))
    requires PositiveEvidence(fam) && AllRoots(trees, c, cK, dMax) && RowsValid(rows, ys, c, cK)
    requires |probs| == |trees| && ProbVector(probs)
    ensures |r.0| == |trees| && AllRoots(r.0, c, cK, dMax)
    ensures |r.1| == |trees| && ProbVector(r.1)
  {
    var ev := Evidences(fam, trees, rows, ys);
    PosteriorIsProb(probs, ev);
    (Absorbed(fam, trees, rows, ys, c, cK, dMax), Normalized(Scores(probs, ev)))
  }

  /** Entrywise products. */
  function Products(e1: seq<real>, e2: seq<real>): (e: seq<real>)
    requires |e1| == |e2|
    ensures |e| == |e1| && forall i :: 0 <= i < |e1| ==> e[i] == Scaled(e1[i], e2[i])
  {
    seq(|e1|, i requires 0 <= i < |e1| => Scaled(e1[i], e2[i]))
  }

  /** The scores for the concatenated batches are the scores after the first
      batch, renormalised, times the second batch's evidences, up to the
      first total. */
  lemma RescoreAppend(probs: seq<real>, e1: seq<real>, e2: seq<real>)
    requires ProbVector(probs) && |e1| == |e2| == |probs|
    requires forall i :: 0 <= i < |probs| ==> e1[i] > 0.0 && e2[i] > 0.0
    ensures Sum(Scores(probs, e1)) > 0.0
    ensures Scores(Normalized(Scores(probs, e1)), e2) == Scale(1.0 / Sum(Scores(probs, e1)), Scores(probs, Products(e1, e2)))
  {
    PosteriorIsProb(probs, e1);
    var s := Sum(Scores(probs, e1));
    var e := Products(e1, e2);
    forall i | 0 <= i < |probs|
      ensures Scores(Normalized(Scores(probs, e1)), e2)[i] == Scale(1.0 / s, Scores(probs, e))[i]
    {
      RescoreAt(probs, e1, e2, i);
    }
  }

  lemma RescoreAt(probs: seq<real>, e1: seq<real>, e2: seq<real>, i: nat)
    requires |e1| == |e2| == |probs| && i < |probs| && Sum(Scores(probs, e1)) > 0.0
    ensures Scores(Normalized(Scores(probs, e1)), e2)[i]
            == Scale(1.0 / Sum(Scores(probs, e1)), Scores(probs, Products(e1, e2)))[i]
  {
    var v := Scores(probs, e1);
    var q := 1.0 / Sum(v);
    var n := Normalized(v);
    var e := Products(e1, e2);
    var sc := Scores(probs, e);
    RegroupAt(q, probs[i], e1[i], e2[i], v[i], n[i], Scores(n, e2)[i], e[i], sc[i], Scale(q, sc)[i]);
  }

  /** `Regroup`, with each product given by name. */
  lemma RegroupAt(q: real, p: real, a: real, b: real, v: real, n: real, x: real, ee: real, sc: real, y: real)
    requires v == Scaled(p, a) && n == q * v && x == Scaled(n, b)
    requires ee == Scaled(a, b) && sc == Scaled(p, ee) && y == q * sc
    ensures x == y
  {
    Regroup(q, p, a, b);
  }

  lemma Regroup(q: real, p: real, a: real, b: real)
    ensures Scaled(q * Scaled(p, a), b) == q * Scaled(p, Scaled(a, b))
  {
  }

  /** Per tree, two batches one after the other leave the trees one
      concatenated batch leaves, and the evidences multiply. */
  lemma AbsorbedAppend<S(!new), H>(fam: LearnSub<S, H>, trees: seq<Node<S>>,
                                   r1: seq<seq<int>>, y1: seq<real>, r2: seq<seq<int>>, y2: seq<real>, c: nat, cK: nat, dMax: nat)
    requires PositiveEvidence(fam) && AllRoots(trees, c, cK, dMax)
    requires RowsValid(r1, y1, c, cK) && RowsValid(r2, y2, c, cK) && RowsValid(r1 + r2, y1 + y2, c, cK)
    ensures var mid := Absorbed(fam, trees, r1, y1, c, cK, dMax);
            && Absorbed(fam, mid, r2, y2, c, cK, dMax) == Absorbed(fam, trees, r1 + r2, y1 + y2, c, cK, dMax)
            && Evidences(fam, trees, r1 + r2, y1 + y2)
               == Products(Evidences(fam, trees, r1, y1), Evidences(fam, mid, r2, y2))
  {
    var mid := Absorbed(fam, trees, r1, y1, c, cK, dMax);
    forall i | 0 <= i < |trees| ensures AbsorbAppendAt(fam, trees, r1, y1, r2, y2, i) {
      AbsorbAppend(fam, trees[i], r1, y1, r2, y2);
    }
    var after := Absorbed(fam, mid, r2, y2, c, cK, dMax);
    var once := Absorbed(fam, trees, r1 + r2, y1 + y2, c, cK, dMax);
    forall i | 0 <= i < |trees| ensures after[i] == once[i] {
      assert AbsorbAppendAt(fam, trees, r1, y1, r2, y2, i);
    }
    var e := Evidences(fam, trees, r1 + r2, y1 + y2);
    var p := Products(Evidences(fam, trees, r1, y1), Evidences(fam, mid, r2, y2));
    forall i | 0 <= i < |trees| ensures e[i] == p[i] {
      assert AbsorbAppendAt(fam, trees, r1, y1, r2, y2, i);
    }
  }

  /** The batches of `AbsorbedAppend` at tree `i`. */
  ghost predicate AbsorbAppendAt<S, H>(fam: LearnSub<S, H>, trees: seq<Node<S>>, r1: seq<seq<int>>, y1: seq<real>,
                                       r2: seq<seq<int>>, y2: seq<real>, i: nat)
    requires |r1| == |y1| && |r2| == |y2| && i < |trees|
  {
    var a := Absorb(fam, trees[i], r1, y1, 0);
    var b := Absorb(fam, a.0, r2, y2, 0);
    Absorb(fam, trees[i], r1 + r2, y1 + y2, 0) == (b.0, Scaled(a.1, b.1))
  }

  /** Sequential updating agrees with batch updating: reweighting with one
      batch of rows and then with another gives the trees and the weights
      that reweighting once with both batches gives.  This is what makes a
      run of `pred_and_update` calls equal to one `update_posterior` call
      with `alg_type='given_MT'` on all the rows. */
  lemma SequentialIsBatch<S(!new), H>(fam: LearnSub<S, H>, trees: seq<Node<S>>, probs: seq<real>,
                                      r1: seq<seq<int>>, y1: seq<real>, r2: seq<seq<int>>, y2: seq<real>, c: nat, cK: nat, dMax: nat)
    requires PositiveEvidence(fam) && AllRoots(trees, c, cK, dMax) && |probs| == |trees| && ProbVector(probs)
    requires RowsValid(r1, y1, c, cK) && RowsValid(r2, y2, c, cK)
    ensures RowsValid(r1 + r2, y1 + y2, c, cK)
    ensures var first := Reweighted(fam, trees, probs, r1, y1, c, cK, dMax);
            Reweighted(fam, first.0, first.1, r2, y2, c, cK, dMax) == Reweighted(fam, trees, probs, r1 + r2, y1 + y2, c, cK, dMax)
  {
    RowsValidAppend(r1, y1, r2, y2, c, cK);
    var mid := Absorbed(fam, trees, r1, y1, c, cK, dMax);
    var e1 := Evidences(fam, trees, r1, y1);
    var e2 := Evidences(fam, mid, r2, y2);
    AbsorbedAppend(fam, trees, r1, y1, r2, y2, c, cK, dMax);
    Renormalize(probs, e1, e2);
  }

  /** Renormalising after the first batch's evidences and again after the
      second's is normalising once after their products. */
  lemma Renormalize(probs: seq<real>, e1: seq<real>, e2: seq<real>)
    requires ProbVector(probs) && |e1| == |e2| == |probs|
    requires forall i :: 0 <= i < |probs| ==> e1[i] > 0.0 && e2[i] > 0.0
    ensures Sum(Scores(probs, e1)) > 0.0
    ensures Sum(Scores(Normalized(Scores(probs, e1)), e2)) > 0.0
    ensures Sum(Scores(probs, Products(e1, e2))) > 0.0
    ensures Normalized(Scores(Normalized(Scores(probs, e1)), e2)) == Normalized(Scores(probs, Products(e1, e2)))
  {
    PosteriorIsProb(probs, e1);
    PosteriorIsProb(Normalized(Scores(probs, e1)), e2);
    RescoreAppend(probs, e1, e2);
    var e := Products(e1, e2);
    forall i | 0 <= i < |probs| ensures e[i] > 0.0 {
      ScaledPositive(e1[i], e2[i]);
    }
    PosteriorIsProb(probs, e);
    NormalizeShift(Scores(probs, e), 1.0 / Sum(Scores(probs, e1)));
  }

  /** The loops of `_given_MT` and of the end of `_MTRF`: every tree absorbs
      every row in order while its log-score accumulates, then the scores
      are exponentiated and normalised.  The result is the reweighted
      ensemble, whose weights form a probability vector. */
  method Reweight<S(!new), H>(fam: LearnSub<S, H>, trees: seq<Node<S>>, probs: seq<real>,
                              rows: seq<seq<int>>, ys: seq<real>, c: nat, cK: nat, dMax: nat)
    returns (out: seq<Node<S>>, post: seq<real>)
    requires PositiveEvidence(fam) && AllRoots(trees, c, cK, dMax) && RowsValid(rows, ys, c, cK)
    requires |probs| == |trees| && ProbVector(probs)
    ensures (out, post) == Reweighted(fam, trees, probs, rows, ys, c, cK, dMax)
    ensures AllRoots(out, c, cK, dMax) && ProbVector(post)
  {
    var scores;
    out, scores := AbsorbAll(fam, trees, probs, rows, ys, c, cK, dMax);
    PosteriorIsProb(probs, Evidences(fam, trees, rows, ys));
    post := Normalized(scores);
  }

  /** The loop over the trees: every tree after the rows, and its prior
      weight times its evidence. */
  method AbsorbAll<S(!new), H>(fam: LearnSub<S, H>, trees: seq<Node<S>>, probs: seq<real>,
                               rows: seq<seq<int>>, ys: seq<real>, c: nat, cK: nat, dMax: nat)
    returns (out: seq<Node<S>>, scores: seq<real>)
    requires PositiveEvidence(fam) && AllRoots(trees, c, cK, dMax) && RowsValid(rows, ys, c, cK)
    requires |probs| == |trees|
    ensures out == Absorbed(fam, trees, rows, ys, c, cK, dMax)
    ensures scores == Scores(probs, Evidences(fam, trees, rows, ys))
  {
    ghost var full := Absorbed(fam, trees, rows, ys, c, cK, dMax);
    ghost var goal := Scores(probs, Evidences(fam, trees, rows, ys));
    scores := [];
    out := [];
    var i := 0;
    while i < |trees|
      invariant 0 <= i <= |trees| && out == full[..i] && scores == goal[..i]
    {
      assert Root(trees[i], c, cK, dMax);
      var t, score := AbsorbRows(fam, trees[i], probs[i], rows, ys, c, cK, dMax);
      PrefixNext(full, i);
      PrefixNext(goal, i);
      out := out + [t];
      scores := scores + [score];
      i := i + 1;
    }
  }

  /** The inner loop for one tree: the tree after every row, and its prior
      weight times the product of the evidences. */
  method AbsorbRows<S(!new), H>(fam: LearnSub<S, H>, t0: Node<S>, prior: real,
                                rows: seq<seq<int>>, ys: seq<real>, c: nat, cK: nat, dMax: nat)
    returns (t: Node<S>, score: real)
    requires PositiveEvidence(fam) && Sound(t0, c, cK, dMax) && RowsValid(rows, ys, c, cK)
    ensures t == Absorb(fam, t0, rows, ys, 0).0
    ensures score == Scaled(prior, Absorb(fam, t0, rows, ys, 0).1)
  {
    t, score := t0, prior;
    var j := 0;
    while j < |rows|
      invariant 0 <= j <= |rows|
      invariant t == AbsorbFirst(fam, t0, rows, ys, j).0
      invariant score == Scaled(prior, AbsorbFirst(fam, t0, rows, ys, j).1)
    {
      t, score := AbsorbNext(fam, t0, prior, rows, ys, j, c, cK, dMax, t, score);
      j := j + 1;
    }
    AbsorbIsFirst(fam, t0, rows, ys);
  }

  /** One row of the inner loop: `_update_posterior_recursion` on the tree
      absorbed so far, and its evidence folded into the score. */
  method AbsorbNext<S(!new), H>(fam: LearnSub<S, H>, t0: Node<S>, prior: real, rows: seq<seq<int>>, ys: seq<real>,
                                j: nat, c: nat, cK: nat, dMax: nat, t: Node<S>, score: real)
    returns (t': Node<S>, score': real)
    requires PositiveEvidence(fam) && Sound(t0, c, cK, dMax) && RowsValid(rows, ys, c, cK) && j < |rows|
    requires t == AbsorbFirst(fam, t0, rows, ys, j).0 && score == Scaled(prior, AbsorbFirst(fam, t0, rows, ys, j).1)
    ensures t' == AbsorbFirst(fam, t0, rows, ys, j + 1).0
    ensures score' == Scaled(prior, AbsorbFirst(fam, t0, rows, ys, j + 1).1)
  {
    AbsorbFirstNext(fam, t0, rows, ys, j, c, cK, dMax);
    var u := UpdatePath(fam, t, rows[j], ys[j]);
    ScaledAssoc(prior, AbsorbFirst(fam, t0, rows, ys, j).1, u.1);
    t', score' := u.0, Scaled(score, u.1);
  }

  /** The first `j` rows absorbed, in order. */
  ghost function AbsorbFirst<S, H>(fam: LearnSub<S, H>, t: Node<S>, rows: seq<seq<int>>, ys: seq<real>, j: nat): (r: (Node<S>, real))
    requires |ys| == |rows| && j <= |rows|
    ensures r.1 > 0.0 && Strip(r.0) == Strip(t)
  {
    if j == 0 then (t, 1.0)
    else
      var p := AbsorbFirst(fam, t, rows, ys, j - 1);
      var u := Step(fam, p.0, rows[j - 1], ys[j - 1]);
      ScaledPositive(p.1, u.1);
      (u.0, Scaled(p.1, u.1))
  }

  /** Folding from the back and from the front agree. */
  lemma AbsorbIsFirst<S, H>(fam: LearnSub<S, H>, t: Node<S>, rows: seq<seq<int>>, ys: seq<real>)
    requires |ys| == |rows|
    ensures Absorb(fam, t, rows, ys, 0) == AbsorbFirst(fam, t, rows, ys, |rows|)
  {
    AbsorbSplit(fam, t, rows, ys, |rows|);
    var p := AbsorbFirst(fam, t, rows, ys, |rows|);
    assert Absorb(fam, p.0, rows, ys, |rows|) == (p.0, 1.0);
    assert Scaled(p.1, 1.0) == p.1;
  }

  /** The first rows keep a sound tree sound. */
  lemma {:induction false} AbsorbFirstSound<S(!new), H>(fam: LearnSub<S, H>, t: Node<S>, rows: seq<seq<int>>, ys: seq<real>, j: nat, c: nat, cK: nat, dMax: nat)
    requires PositiveEvidence(fam) && Sound(t, c, cK, dMax) && RowsValid(rows, ys, c, cK) && j <= |rows|
    ensures Sound(AbsorbFirst(fam, t, rows, ys, j).0, c, cK, dMax)
  {
    if j > 0 {
      AbsorbFirstSound(fam, t, rows, ys, j - 1, c, cK, dMax);
      var p := AbsorbFirst(fam, t, rows, ys, j - 1);
      UpdateSound(fam, p.0, c, cK, dMax, rows[j - 1], ys[j - 1]);
    }
  }

  /** One more row: the source's update, which the tree can take. */
  lemma AbsorbFirstNext<S(!new), H>(fam: LearnSub<S, H>, t: Node<S>, rows: seq<seq<int>>, ys: seq<real>, j: nat, c: nat, cK: nat, dMax: nat)
    requires PositiveEvidence(fam) && Sound(t, c, cK, dMax) && RowsValid(rows, ys, c, cK) && j < |rows|
    ensures Updatable(fam, AbsorbFirst(fam, t, rows, ys, j).0, rows[j], ys[j])
    ensures var p := AbsorbFirst(fam, t, rows, ys, j);
            var u := UpdatePath(fam, p.0, rows[j], ys[j]);
            AbsorbFirst(fam, t, rows, ys, j + 1) == (u.0, Scaled(p.1, u.1))
  {
    AbsorbFirstSound(fam, t, rows, ys, j, c, cK, dMax);
    UpdateSound(fam, AbsorbFirst(fam, t, rows, ys, j).0, c, cK, dMax, rows[j], ys[j]);
  }

  /** Absorbing all rows is absorbing the first `j`, then the rest, and the
      evidences multiply. */
  lemma {:induction false} AbsorbSplit<S, H>(fam: LearnSub<S, H>, t: Node<S>, rows: seq<seq<int>>, ys: seq<real>, j: nat)
    requires |ys| == |rows| && j <= |rows|
    ensures var p := AbsorbFirst(fam, t, rows, ys, j);
            var q := Absorb(fam, p.0, rows, ys, j);
            Absorb(fam, t, rows, ys, 0) == (q.0, Scaled(p.1, q.1))
  {
    if j > 0 {
      AbsorbSplit(fam, t, rows, ys, j - 1);
      var p := AbsorbFirst(fam, t, rows, ys, j - 1);
      var u := Step(fam, p.0, rows[j - 1], ys[j - 1]);
      var q := Absorb(fam, u.0, rows, ys, j);
      ScaledAssoc(p.1, u.1, q.1);
    }
  }

  lemma ScaledAssoc(a: real, b: real, c: real)
    ensures Scaled(a, Scaled(b, c)) == Scaled(Scaled(a, b), c)
  {
  }

  // ---------------------------------------------------------------------
  // _MTRF: meta-trees from fitted decision trees
  // ---------------------------------------------------------------------

  /** The decision trees a forest fitted with `max_depth=c_d_max` hands
      over: valid array layouts with a root, none deeper than `c_d_max`. */
  ghost predicate Forest(skels: seq<Skeleton>, dMax: nat)
  {
    forall i :: 0 <= i < |skels| ==> ValidSkeleton(skels[i]) && 0 < |skels[i].left| && SkeletonWithin(skels[i], dMax)
  }

  /** `_copy_tree_from_sklearn_tree` into the fresh binary root
      `_Node(0, 2, list(range(c_k)), hn_g, sub_model=LearnModel(**sub_hn_params))`. */
  function FittedTree<S>(t: Skeleton, cK: nat, hnG: real, h0G: real, sHn: S, sH0: S): (r: Result<Node<S>>)
    requires ValidSkeleton(t) && 0 < |t.left|
    ensures r.Err? ==> r.error == ValueError
  {
    CopyFromSkeleton(NewNode(0, Range(cK), hnG, Some(sHn), false), t, 0, h0G, sH0)
  }

  function FittedEach<S>(skels: seq<Skeleton>, cK: nat, hnG: real, h0G: real, sHn: S, sH0: S): (r: seq<Result<Node<S>>>)
    requires forall i :: 0 <= i < |skels| ==> ValidSkeleton(skels[i]) && 0 < |skels[i].left|
    ensures |r| == |skels| && forall i :: 0 <= i < |skels| ==> r[i] == FittedTree(skels[i], cK, hnG, h0G, sHn, sH0)
  {
    seq(|skels|, i requires 0 <= i < |skels| => FittedTree(skels[i], cK, hnG, h0G, sHn, sH0))
  }

  /** The first exception a list of results holds is the one `Collect`
      reports. */
  lemma CollectFirst<T>(rs: seq<Result<T>>, i: nat)
    requires i < |rs| && rs[i].Err? && forall j :: 0 <= j < i ==> rs[j].Ok?
    ensures Collect(rs) == Err(rs[i].error)
  {
    var r := Collect(rs);
    var k :| 0 <= k < |rs| && rs[k] == Err(r.error) && forall j :: 0 <= j < k ==> rs[j].Ok?;
    assert k == i;
  }

  /** Copies of fitted trees are sound binary roots, and clean, so that
      merging can compare them. */
  lemma FittedRoots<S>(skels: seq<Skeleton>, roots: seq<Node<S>>, cK: nat, dMax: nat, hnG: real, h0G: real, sHn: S, sH0: S)
    requires Forest(skels, dMax) && |roots| == |skels| && 0.0 <= hnG <= 1.0 && 0.0 <= h0G <= 1.0
    requires forall i :: 0 <= i < |skels| ==> FittedTree(skels[i], cK, hnG, h0G, sHn, sH0) == Ok(roots[i])
    ensures AllRoots(roots, 2, cK, dMax) && Comparable(roots, 2)
  {
    forall i | 0 <= i < |skels| ensures Root(roots[i], 2, cK, dMax) && Clean(roots[i], 2) {
      CopyRoot(skels[i], cK, dMax, hnG, h0G, sHn, sH0);
      CopyClean(NewNode(0, Range(cK), hnG, Some(sHn), false), skels[i], 0, h0G, sH0);
    }
    CleanComparable(roots, 2);
  }

  /** Merging equal trees keeps sound roots, at least one of them, and
      weights that still form a probability vector. */
  lemma MergedRoots<S>(roots: seq<Node<S>>, cK: nat, dMax: nat)
    requires |roots| > 0 && AllRoots(roots, 2, cK, dMax)
    ensures var m := MergeSpec(roots, Uniform(|roots|), 2);
            && 0 < |m.0| == |m.1| <= |roots|
            && AllRoots(m.0, 2, cK, dMax) && ProbVector(m.1)
  {
    var p := Uniform(|roots|);
    UniformIsProb(|roots|);
    MergeConserves(roots, p, 2);
    var m := MergeSpec(roots, p, 2);
    assert m.0 == FilterBy(roots, SurvivorMask(roots, 2));
    forall i | 0 <= i < |m.0| ensures Root(m.0[i], 2, cK, dMax) {
      FilterMember(roots, SurvivorMask(roots, 2), m.0[i]);
    }
    forall i | 0 <= i < |m.1| ensures m.1[i] >= 0.0 {
      assert m.1[i] in m.1;
    }
  }

  /** What `_MTRF(x, y)` returns for `c_num_children == 2`: the fitted
      trees copied into fresh roots (the first copy that raises ends the
      call), merged, then reweighted by the rows starting from uniform
      weights. */
  ghost function MtrfResult<S(!new), H>(fam: LearnSub<S, H>, skels: seq<Skeleton>, rows: seq<seq<int>>, ys: seq<real>,
                                        cK: nat, dMax: nat, hnG: real, h0G: real, sHn: S, sH0: S): (r: Result<(seq<Node<S>>, seq<real>)>)
    requires PositiveEvidence(fam) && 0 < |skels| && Forest(skels, dMax) && RowsValid(rows, ys, 2, cK)
    requires 0.0 <= hnG <= 1.0 && 0.0 <= h0G <= 1.0
    ensures r.Err? ==> r.error == ValueError
    ensures r.Ok? ==> && 0 < |r.value.0| == |r.value.1| <= |skels|
                      && AllRoots(r.value.0, 2, cK, dMax) && ProbVector(r.value.1)
  {
    var fitted := Collect(FittedEach(skels, cK, hnG, h0G, sHn, sH0));
    if fitted.Err? then Err(fitted.error)
    else
      var roots := fitted.value;
      FittedRoots(skels, roots, cK, dMax, hnG, h0G, sHn, sH0);
      MergedRoots(roots, cK, dMax);
      var m := MergeSpec(roots, Uniform(|roots|), 2);
      Ok(Reweighted(fam, m.0, m.1, rows, ys, 2, cK, dMax))
  }

  /** `_MTRF` with `c_num_children == 2` and the forest's trees given. */
  method Mtrf<S(!new), H>(fam: LearnSub<S, H>, skels: seq<Skeleton>, rows: seq<seq<int>>, ys: seq<real>,
                          cK: nat, dMax: nat, hnG: real, h0G: real, sHn: S, sH0: S)
    returns (r: Result<(seq<Node<S>>, seq<real>)>)
    requires PositiveEvidence(fam) && 0 < |skels| && Forest(skels, dMax) && RowsValid(rows, ys, 2, cK)
    requires 0.0 <= hnG <= 1.0 && 0.0 <= h0G <= 1.0
    ensures r == MtrfResult(fam, skels, rows, ys, cK, dMax, hnG, h0G, sHn, sH0)
  {
    ghost var each := FittedEach(skels, cK, hnG, h0G, sHn, sH0);
    var roots: seq<Node<S>> := [];
    var i := 0;
    while i < |skels|
      invariant 0 <= i <= |skels| && |roots| == i
      invariant forall k :: 0 <= k < i ==> FittedTree(skels[k], cK, hnG, h0G, sHn, sH0) == Ok(roots[k])
    {
      var t := FittedTree(skels[i], cK, hnG, h0G, sHn, sH0);
      if t.Err? {
        CollectFirst(each, i);
        return Err(t.error);
      }
      roots := roots + [t.value];
      i := i + 1;
    }
    assert Collect(each).Ok? && Collect(each).value == roots;
    FittedRoots(skels, roots, cK, dMax, hnG, h0G, sHn, sH0);
    MergedRoots(roots, cK, dMax);
    var kept, keptProbs := MergeMetatrees(roots, Uniform(|roots|), 2);
    var out, post := Reweight(fam, kept, keptProbs, rows, ys, 2, cK, dMax);
    return Ok((out, post));
  }

  // ---------------------------------------------------------------------
  // The predictive pass
  // ---------------------------------------------------------------------

  /** Sound roots lead every accepted feature vector to a leaf. */
  lemma AllNavigable<S>(trees: seq<Node<S>>, x: seq<int>, c: nat, cK: nat, dMax: nat)
    requires AllRoots(trees, c, cK, dMax) && ValidX(x, c, cK)
    ensures forall i :: 0 <= i < |trees| ==> Navigable(trees[i], x) && HasSubs(trees[i])
  {
    forall i | 0 <= i < |trees| ensures Navigable(trees[i], x) {
      WellFormedNavigable(trees[i], c, cK, x);
    }
  }

  /** `_calc_pred_dist_recursion` keeps a tree's structure and soundness. */
  lemma CalcPredSound<S, H>(fam: LearnSub<S, H>, n: Node<S>, x: seq<int>, c: nat, cK: nat, dMax: nat)
    requires Root(n, c, cK, dMax) && ValidX(x, c, cK)
    ensures Navigable(n, x)
    ensures Root(CalcPredPath(fam, n, x), c, cK, dMax) && Strip(CalcPredPath(fam, n, x)) == Strip(n)
  {
    WellFormedNavigable(n, c, cK, x);
    var r := CalcPredPath(fam, n, x);
    EraseStrip(r, false, true);
    EraseStrip(n, false, true);
    StopWeightsErase(r);
    StopWeightsErase(n);
    SoundSameShape(n, r, c, cK, dMax);
    StripKeepsRoot(n, r);
  }

  /** `for root in hn_metatree_list: _calc_pred_dist_recursion(root, x)`:
      every tree with the predictive distributions along the path of `x`
      computed. */
  ghost function PredictivePaths<S, H>(fam: LearnSub<S, H>, trees: seq<Node<S>>, x: seq<int>, c: nat, cK: nat, dMax: nat): (r: seq<Node<S>>)
    requires AllRoots(trees, c, cK, dMax) && ValidX(x, c, cK)
    ensures |r| == |trees| && AllRoots(r, c, cK, dMax)
    ensures forall i :: 0 <= i < |trees| ==> Strip(r[i]) == Strip(trees[i])
    ensures forall i :: 0 <= i < |trees| ==> Navigable(trees[i], x) && r[i] == CalcPredPath(fam, trees[i], x)
  {
    AllNavigable(trees, x, c, cK, dMax);
    var r := seq(|trees|, i requires 0 <= i < |trees| => CalcPredPath(fam, trees[i], x));
    assert forall i :: 0 <= i < |trees| ==> Root(r[i], c, cK, dMax) && Strip(r[i]) == Strip(trees[i]) by {
      forall i | 0 <= i < |trees| ensures Root(r[i], c, cK, dMax) && Strip(r[i]) == Strip(trees[i]) {
        CalcPredSound(fam, trees[i], x, c, cK, dMax);
      }
    }
    r
  }

  /** `trees` is what the predictive pass for `x` makes of the sound roots
      `before`. */
  ghost predicate PassedOver<S, H>(fam: LearnSub<S, H>, trees: seq<Node<S>>, before: seq<Node<S>>, x: seq<int>, c: nat, cK: nat, dMax: nat)
  {
    && AllRoots(before, c, cK, dMax) && ValidX(x, c, cK)
    && trees == PredictivePaths(fam, before, x, c, cK, dMax)
  }

  /** The loop of `calc_pred_dist` over the trees. */
  method CalcPredAll<S, H>(fam: LearnSub<S, H>, trees: seq<Node<S>>, x: seq<int>, c: nat, cK: nat, dMax: nat) returns (out: seq<Node<S>>)
    requires AllRoots(trees, c, cK, dMax) && ValidX(x, c, cK)
    ensures out == PredictivePaths(fam, trees, x, c, cK, dMax)
    ensures AllRoots(out, c, cK, dMax)
  {
    ghost var full := PredictivePaths(fam, trees, x, c, cK, dMax);
    out := [];
    var i := 0;
    while i < |trees|
      invariant 0 <= i <= |trees| && out == full[..i]
    {
      CalcPredSound(fam, trees[i], x, c, cK, dMax);
      PrefixNext(full, i);
      out := out + [CalcPredPath(fam, trees[i], x)];
      i := i + 1;
    }
  }

  /** One more element of a prefix. */
  lemma PrefixNext<T>(s: seq<T>, i: nat)
    requires i < |s|
    ensures s[..i + 1] == s[..i] + [s[i]]
  {
  }

  /** A probability vector for an ensemble with no trees does not exist, so
      a prediction that succeeds comes from at least one tree; with a
      supported loss, an ensemble with trees and its vector always predict,
      and an empty one (whose vector is missing) raises ValueError. */
  lemma PredictionNeedsTrees<S, H>(fam: LearnSub<S, H>, loss: string, w: Option<seq<real>>, trees: seq<Node<S>>, x: seq<int>)
    requires forall i :: 0 <= i < |trees| ==> Navigable(trees[i], x) && HasSubs(trees[i])
    requires VecFits(w, |trees|)
    ensures Prediction.MakePrediction(fam, loss, w, trees, x).Ok? ==> |trees| > 0 && w.Some?
    ensures loss == "squared" || loss == "0-1" ==>
              (Prediction.MakePrediction(fam, loss, w, trees, x).Ok? <==> |trees| > 0)
    ensures (loss == "squared" || loss == "0-1") && trees == [] ==>
              Prediction.MakePrediction(fam, loss, w, trees, x) == Err(ValueError)
  {
    if w == Some([]) {
      assert false;
    }
  }

  // ---------------------------------------------------------------------
  // The model
  // ---------------------------------------------------------------------

  class LearnModel<S(!new), H> {
    /** `SubModel`, the leaf family */
    const fam: LearnSub<S, H>
    /** `h0_k_prob_vec`, `h0_g`, `sub_h0_params`, `h0_metatree_list`,
        `h0_metatree_prob_vec` */
    const h0: HyperParams<S, H>
    /** `hn_k_prob_vec`, `hn_g`, `sub_hn_params`, `hn_metatree_list`,
        `hn_metatree_prob_vec` */
    const hn: HyperParams<S, H>
    /** `_tmp_x`, the feature vector of the last predictive pass */
    var tmpX: seq<int>

    /** Both records are coherent, distinct, share the constants and belong
        to this model's family; the last feature vector is one the trees
        accept; and the family's predictive values are positive. */
    ghost predicate Linked()
      reads this, h0, hn
    {
      && h0 != hn
      && h0.Coherent() && hn.Coherent()
      && h0.c == hn.c && h0.dMax == hn.dMax && h0.cK == hn.cK
      && h0.accepts == fam.accepts && hn.accepts == fam.accepts
      && h0.create == fam.create && hn.create == fam.create
      && h0.reset == fam.rePrior && hn.reset == fam.rePosterior
      && ValidX(tmpX, hn.c, hn.cK)
      && PositiveEvidence(fam)
    }

    /** The model as every public method leaves it when it raises
        nothing. */
    ghost predicate Valid()
      reads this, h0, hn
    {
      Linked() && h0.accepts(h0.subParams) && hn.accepts(hn.subParams)
    }

    constructor Init(fam: LearnSub<S, H>, h0: HyperParams<S, H>, hn: HyperParams<S, H>, cK: nat)
      ensures this.fam == fam && this.h0 == h0 && this.hn == hn && tmpX == Zeros(cK)
    {
      this.fam := fam;
      this.h0 := h0;
      this.hn := hn;
      tmpX := Zeros(cK);
    }

    /** `LearnModel(c_k, c_d_max, c_num_children, SubModel=...,
        h0_k_prob_vec=..., h0_g=..., sub_h0_params=..., h0_metatree_list=...,
        h0_metatree_prob_vec=...)`: the constants are checked, both records
        get their defaults (`empty` stands for the default `{}`), and the
        prior setter runs, which resets the posterior to the prior. */
    static method Create(fam: LearnSub<S, H>, cK: int, dMax: int, c: int, kv: Option<seq<real>>, g: real, sub: H, empty: H,
                         list: seq<Node<S>>, vec: Option<seq<real>>)
      returns (r: Result<LearnModel<S, H>>)
      requires PositiveEvidence(fam)
      requires c >= 1 ==> References(list, c as nat)
      ensures Generative.ConstantsError(cK, dMax, c).Some? ==> r == Err(Generative.ConstantsError(cK, dMax, c).value)
      ensures Generative.ConstantsError(cK, dMax, c).None? ==>
                var e := SettingError(cK as nat, dMax as nat, fam.accepts, kv, Some(g), Some(sub), Some(list), vec, 0);
                && (e.Some? ==> r == Err(e.value))
                && (e.None? ==> r.Ok?)
      ensures r.Ok? ==> fresh(r.value) && fresh(r.value.h0) && fresh(r.value.hn) && r.value.Valid() && r.value.fam == fam
      ensures r.Ok? ==> && r.value.h0.c == c && r.value.h0.dMax == dMax && r.value.h0.cK == cK
                        && r.value.h0.g == g && r.value.h0.subParams == sub && |r.value.h0.metatrees| == |list|
                        && r.value.hn.g == g && r.value.hn.subParams == sub && |r.value.hn.metatrees| == |list|
                        && r.value.hn.probVec == r.value.h0.probVec
      ensures r.Ok? ==> && r.value.h0.kProbVec == Pick(kv, Uniform(r.value.h0.cK)) && r.value.hn.kProbVec == r.value.h0.kProbVec
                        && r.value.h0.probVec == (if vec.Some? then vec else DefaultVec(|list|))
                        && r.value.h0.metatrees == r.value.h0.Installed([], Some(g), Some(sub), Some(list), g, sub)
      ensures r.Ok? ==> forall i :: 0 <= i < |list| ==> ShapeOf(r.value.h0.metatrees[i]) == Cut(ShapeOf(list[i]), 0, r.value.h0.dMax)
      ensures r.Ok? ==> forall i :: 0 <= i < |list| ==> ShapeOf(r.value.hn.metatrees[i]) == Cut(ShapeOf(r.value.h0.metatrees[i]), 0, r.value.hn.dMax)
      ensures r.Ok? ==> PassedOver(fam, r.value.hn.metatrees, r.value.hn.Installed([], Some(g), Some(sub), Some(r.value.h0.metatrees), g, sub),
                                   Zeros(r.value.h0.cK), r.value.hn.c, r.value.hn.cK, r.value.hn.dMax)
    {
      var ce := Generative.ConstantsError(cK, dMax, c);
      if ce.Some? {
        return Err(ce.value);
      }
      var prior := new HyperParams(c as nat, dMax as nat, cK as nat, fam.accepts, fam.create, fam.rePrior, empty);
      var posterior := new HyperParams(c as nat, dMax as nat, cK as nat, fam.accepts, fam.create, fam.rePosterior, empty);
      var m := new LearnModel.Init(fam, prior, posterior, cK as nat);
      var e := m.SetH0Params(kv, Some(g), Some(sub), Some(list), vec);
      if e.Some? {
        return Err(e.value);
      }
      return Ok(m);
    }

    /** `set_h0_params(...)`: the prior setter, then `reset_hn_params()`,
        which hands the new prior to the posterior setter.  On success the
        posterior equals the prior up to the cut at `c_d_max`, and the
        predictive pass has run for the all-zero vector. */
    method SetH0Params<R>(kv: Option<seq<real>>, gv: Option<real>, sub: Option<H>,
                          list: Option<seq<Node<R>>>, vec: Option<seq<real>>) returns (e: Option<Error>)
      requires Linked() && (sub.Some? || h0.accepts(h0.subParams))
      requires list.Some? ==> References(list.value, h0.c)
      modifies this, h0, hn
      ensures e == SettingError(h0.cK, h0.dMax, fam.accepts, kv, gv, sub, list, vec, |old(h0.metatrees)|)
      ensures e.None? ==> Valid() && tmpX == Zeros(h0.cK)
      ensures e.None? ==> h0.kProbVec == Pick(kv, old(h0.kProbVec)) && h0.g == Pick(gv, old(h0.g)) && h0.subParams == Pick(sub, old(h0.subParams))
      ensures e.None? && list.Some? ==>
                && |h0.metatrees| == |list.value|
                && forall i :: 0 <= i < |list.value| ==> ShapeOf(h0.metatrees[i]) == Cut(ShapeOf(list.value[i]), 0, h0.dMax)
      ensures e.None? ==> && hn.kProbVec == h0.kProbVec && hn.g == h0.g && hn.subParams == h0.subParams
                          && hn.probVec == h0.probVec && |hn.metatrees| == |h0.metatrees|
                          && forall i :: 0 <= i < |hn.metatrees| ==> ShapeOf(hn.metatrees[i]) == Cut(ShapeOf(h0.metatrees[i]), 0, hn.dMax)
      ensures e.None? ==> h0.probVec == (if vec.Some? then vec else if list.Some? then DefaultVec(|list.value|) else old(h0.probVec))
      ensures e.None? ==> h0.metatrees == h0.Installed(old(h0.metatrees), gv, sub, list, h0.g, h0.subParams)
      ensures e.None? ==> PassedOver(fam, hn.metatrees, hn.Installed(old(hn.metatrees), Some(h0.g), Some(h0.subParams), Some(h0.metatrees), h0.g, h0.subParams),
                                     Zeros(h0.cK), hn.c, hn.cK, hn.dMax)
    {
      e := h0.Set(kv, gv, sub, list, vec);
      if e.Some? {
        return;
      }
      e := ResetHnParams();
    }

    /** `reset_hn_params()`: the posterior setter with the prior's values. */
    method ResetHnParams() returns (e: Option<Error>)
      requires Linked() && h0.accepts(h0.subParams)
      modifies this, hn
      ensures e.None? && Valid() && tmpX == Zeros(h0.cK)
      ensures && hn.kProbVec == h0.kProbVec && hn.g == h0.g && hn.subParams == h0.subParams
              && hn.probVec == h0.probVec && |hn.metatrees| == |h0.metatrees|
              && forall i :: 0 <= i < |hn.metatrees| ==> ShapeOf(hn.metatrees[i]) == Cut(ShapeOf(h0.metatrees[i]), 0, hn.dMax)
      ensures PassedOver(fam, hn.metatrees, hn.Installed(old(hn.metatrees), Some(h0.g), Some(h0.subParams), Some(h0.metatrees), h0.g, h0.subParams),
                         Zeros(h0.cK), hn.c, hn.cK, hn.dMax)
    {
      RootsAreReferences(h0.metatrees, h0.c, h0.cK, h0.dMax);
      assert h0.probVec == (if h0.probVec.Some? then h0.probVec else DefaultVec(|h0.metatrees|));
      e := SetHnParams(Some(h0.kProbVec), Some(h0.g), Some(h0.subParams), Some(h0.metatrees), h0.probVec);
    }

    /** `set_hn_params(...)`: the posterior setter, then the predictive
        pass for the all-zero vector. */
    method SetHnParams<R>(kv: Option<seq<real>>, gv: Option<real>, sub: Option<H>,
                          list: Option<seq<Node<R>>>, vec: Option<seq<real>>) returns (e: Option<Error>)
      requires Linked() && h0.accepts(h0.subParams) && (sub.Some? || hn.accepts(hn.subParams))
      requires list.Some? ==> References(list.value, hn.c)
      modifies this, hn
      ensures e == SettingError(hn.cK, hn.dMax, fam.accepts, kv, gv, sub, list, vec, |old(hn.metatrees)|)
      ensures e.None? ==> Valid() && tmpX == Zeros(hn.cK)
      ensures e.None? ==> hn.kProbVec == Pick(kv, old(hn.kProbVec)) && hn.g == Pick(gv, old(hn.g)) && hn.subParams == Pick(sub, old(hn.subParams))
      ensures e.None? && list.Some? ==>
                && |hn.metatrees| == |list.value|
                && forall i :: 0 <= i < |list.value| ==> ShapeOf(hn.metatrees[i]) == Cut(ShapeOf(list.value[i]), 0, hn.dMax)
      ensures e.None? ==> hn.probVec == (if vec.Some? then vec else if list.Some? then DefaultVec(|list.value|) else old(hn.probVec))
      ensures e.None? ==> PassedOver(fam, hn.metatrees, hn.Installed(old(hn.metatrees), gv, sub, list, hn.g, hn.subParams),
                                     Zeros(hn.cK), hn.c, hn.cK, hn.dMax)
    {
      e := hn.Set(kv, gv, sub, list, vec);
      if e.Some? {
        return;
      }
      ghost var rebuilt := hn.metatrees;
      var zero := IntArray([hn.cK], Zeros(hn.cK));
      assert Size([hn.cK]) == hn.cK by { SizeOne([hn.cK]); }
      var ce := CalcPredDist(zero);
      assert ce.None? by {
        assert zero.flat != [] && ValidX(zero.flat, hn.c, hn.cK);
      }
      forall i | 0 <= i < |hn.metatrees| ensures ShapeOf(hn.metatrees[i]) == ShapeOf(rebuilt[i]) {
        ShapeOfStrip(hn.metatrees[i]);
        ShapeOfStrip(rebuilt[i]);
      }
    }

    /** `calc_pred_dist(x)`: after the checks, `_tmp_x` takes the vector
        and every posterior tree computes the predictive distributions along
        its path; the structure of every tree and its weight stay as they
        were.  A vector the checks refuse changes nothing. */
    method CalcPredDist(x: IntArray) returns (e: Option<Error>)
      requires Linked() && |x.flat| == Size(x.shape)
      modifies this, hn
      ensures Linked()
      ensures e == VectorError(x, hn.c, hn.cK)
      ensures hn.kProbVec == old(hn.kProbVec) && hn.g == old(hn.g) && hn.subParams == old(hn.subParams) && hn.probVec == old(hn.probVec)
      ensures e.Some? ==> tmpX == old(tmpX) && hn.metatrees == old(hn.metatrees)
      ensures e.None? ==> tmpX == x.flat && hn.metatrees == PredictivePaths(fam, old(hn.metatrees), x.flat, hn.c, hn.cK, hn.dMax)
    {
      e := VectorError(x, hn.c, hn.cK);
      if e.Some? {
        return;
      }
      tmpX := x.flat;
      hn.metatrees := CalcPredAll(fam, hn.metatrees, x.flat, hn.c, hn.cK, hn.dMax);
    }

    /** `make_prediction(loss)`: the prediction of the posterior ensemble at
        `_tmp_x` (the squared-loss mean or the 0-1 mode), or the exception
        for an unknown loss, which succeeds only with a tree; by
        `PredictionNeedsTrees`, a supported loss succeeds exactly when the
        ensemble has a tree, and the empty ensemble of a new model raises
        ValueError. */
    method MakePrediction(loss: string) returns (r: Result<real>)
      requires Linked()
      ensures (AllNavigable(hn.metatrees, tmpX, hn.c, hn.cK, hn.dMax);
               r == Prediction.MakePrediction(fam, loss, hn.probVec, hn.metatrees, tmpX))
      ensures r.Ok? ==> |hn.metatrees| > 0
    {
      AllNavigable(hn.metatrees, tmpX, hn.c, hn.cK, hn.dMax);
      PredictionNeedsTrees(fam, loss, hn.probVec, hn.metatrees, tmpX);
      r := Prediction.MakePrediction(fam, loss, hn.probVec, hn.metatrees, tmpX);
    }

    /** `_given_MT(x, y)` as `update_posterior` stores its result: every
        posterior tree absorbs the rows and the weights become the
        posterior over the trees; an empty list raises
        ParameterFormatError. */
    method GivenMt(rows: seq<seq<int>>, ys: seq<real>) returns (e: Option<Error>)
      requires Linked() && RowsValid(rows, ys, hn.c, hn.cK)
      modifies hn
      ensures Linked()
      ensures hn.kProbVec == old(hn.kProbVec) && hn.g == old(hn.g) && hn.subParams == old(hn.subParams)
      ensures old(hn.metatrees) == [] ==> e == Some(ParameterFormatError) && hn.metatrees == [] && hn.probVec == old(hn.probVec)
      ensures old(hn.metatrees) != [] ==>
                && old(hn.probVec).Some?
                && var w := Reweighted(fam, old(hn.metatrees), old(hn.probVec).value, rows, ys, hn.c, hn.cK, hn.dMax);
                   e.None? && hn.metatrees == w.0 && hn.probVec == Some(w.1)
    {
      if hn.metatrees == [] {
        return Some(ParameterFormatError);
      }
      var out, post := Reweight(fam, hn.metatrees, hn.probVec.value, rows, ys, hn.c, hn.cK, hn.dMax);
      hn.Repost(out, post);
      e := None;
    }

    /** `_MTRF(x, y)` as `update_posterior` stores its result, with the
        forest's trees given: ParameterFormatError unless
        `c_num_children == 2`; otherwise the posterior list and weights
        become those `_MTRF` returns, unless copying a fitted tree raises. */
    method RunMtrf(rows: seq<seq<int>>, ys: seq<real>, skels: seq<Skeleton>) returns (e: Option<Error>)
      requires Linked() && RowsValid(rows, ys, hn.c, hn.cK) && 0 < |skels| && Forest(skels, hn.dMax)
      modifies hn
      ensures Linked()
      ensures hn.kProbVec == old(hn.kProbVec) && hn.g == old(hn.g) && hn.subParams == old(hn.subParams)
      ensures hn.c != 2 ==> e == Some(ParameterFormatError) && hn.metatrees == old(hn.metatrees) && hn.probVec == old(hn.probVec)
      ensures hn.c == 2 ==>
                var m := MtrfResult(fam, skels, rows, ys, hn.cK, hn.dMax, hn.g, h0.g, fam.create(hn.subParams), fam.create(h0.subParams));
                && (m.Err? ==> e == Some(m.error) && hn.metatrees == old(hn.metatrees) && hn.probVec == old(hn.probVec))
                && (m.Ok? ==> e.None? && hn.metatrees == m.value.0 && hn.probVec == Some(m.value.1))
    {
      if hn.c != 2 {
        return Some(ParameterFormatError);
      }
      var r := Mtrf(fam, skels, rows, ys, hn.cK, hn.dMax, hn.g, h0.g, fam.create(hn.subParams), fam.create(h0.subParams));
      if r.Err? {
        return Some(r.error);
      }
      hn.Repost(r.value.0, r.value.1);
      e := None;
    }

    /** `update_posterior(x, y, alg_type)`: the checks on the data, then
        `_MTRF` or `_given_MT` on the rows; any other `alg_type` changes
        nothing.  The fitted forest `_MTRF` would grow from the data is
        given as `skels`.  Only the posterior list and weights change. */
    method UpdatePosterior(x: IntArray, y: Target, algType: string, skels: seq<Skeleton>) returns (e: Option<Error>)
      requires Valid() && |x.flat| == Size(x.shape) && TargetOk(y)
      requires algType == "MTRF" ==> 0 < |skels| && Forest(skels, hn.dMax)
      modifies hn
      ensures Valid()
      ensures hn.kProbVec == old(hn.kProbVec) && hn.g == old(hn.g) && hn.subParams == old(hn.subParams)
      ensures ObservationError(x, y, hn.c, hn.cK).Some? ==>
                e == ObservationError(x, y, hn.c, hn.cK) && hn.metatrees == old(hn.metatrees) && hn.probVec == old(hn.probVec)
      ensures ObservationError(x, y, hn.c, hn.cK).None? ==>
                var obs := Observations(x, y, hn.c, hn.cK);
                && (algType == "MTRF" && hn.c != 2 ==>
                      e == Some(ParameterFormatError) && hn.metatrees == old(hn.metatrees) && hn.probVec == old(hn.probVec))
                && (algType == "MTRF" && hn.c == 2 ==>
                      var m := MtrfResult(fam, skels, obs.0, obs.1, hn.cK, hn.dMax, hn.g, h0.g, fam.create(hn.subParams), fam.create(h0.subParams));
                      && (m.Err? ==> e == Some(m.error) && hn.metatrees == old(hn.metatrees) && hn.probVec == old(hn.probVec))
                      && (m.Ok? ==> e.None? && hn.metatrees == m.value.0 && hn.probVec == Some(m.value.1)))
                && (algType == "given_MT" && old(hn.metatrees) == [] ==>
                      e == Some(ParameterFormatError) && hn.metatrees == [] && hn.probVec == old(hn.probVec))
                && (algType == "given_MT" && old(hn.metatrees) != [] ==>
                      && old(hn.probVec).Some?
                      && var w := Reweighted(fam, old(hn.metatrees), old(hn.probVec).value, obs.0, obs.1, hn.c, hn.cK, hn.dMax);
                         e.None? && hn.metatrees == w.0 && hn.probVec == Some(w.1))
                && (algType != "MTRF" && algType != "given_MT" ==>
                      e.None? && hn.metatrees == old(hn.metatrees) && hn.probVec == old(hn.probVec))
    {
      e := ObservationError(x, y, hn.c, hn.cK);
      if e.Some? {
        return;
      }
      var obs := Observations(x, y, hn.c, hn.cK);
      if algType == "MTRF" {
        e := RunMtrf(obs.0, obs.1, skels);
      } else if algType == "given_MT" {
        e := GivenMt(obs.0, obs.1);
      }
    }

    /** `pred_and_update(x, y, loss)`: the vector is checked, the
        predictive pass runs for it, the prediction is taken from the
        posterior as it stood before `(x, y)` was seen, and then the
        posterior absorbs `(x, y)` with `alg_type='given_MT'`.  An exception
        of the prediction or of the update ends the call after the
        predictive pass (for the empty ensemble of a new model, the
        ValueError of the prediction). */
    method PredAndUpdate(x: IntArray, y: Target, loss: string) returns (r: Result<real>)
      requires Valid() && |x.flat| == Size(x.shape) && TargetOk(y)
      modifies this, hn
      ensures Valid()
      ensures hn.kProbVec == old(hn.kProbVec) && hn.g == old(hn.g) && hn.subParams == old(hn.subParams)
      ensures VectorError(x, hn.c, hn.cK).Some? ==>
                r == Err(VectorError(x, hn.c, hn.cK).value) && hn.metatrees == old(hn.metatrees) && hn.probVec == old(hn.probVec)
      ensures VectorError(x, hn.c, hn.cK).None? ==>
                var pre := PredictivePaths(fam, old(hn.metatrees), x.flat, hn.c, hn.cK, hn.dMax);
                var p := (AllNavigable(pre, x.flat, hn.c, hn.cK, hn.dMax);
                          Prediction.MakePrediction(fam, loss, old(hn.probVec), pre, x.flat));
                && tmpX == x.flat
                && (p.Err? ==> r == p && hn.metatrees == pre && hn.probVec == old(hn.probVec))
                && (p.Ok? && y.Targets? && y.shape != [] ==>
                      r == Err(DataFormatError) && hn.metatrees == pre && hn.probVec == old(hn.probVec))
                && (p.Ok? && (y.Targets? ==> y.shape == []) ==>
                      && pre != [] && old(hn.probVec).Some?
                      && var w := Reweighted(fam, pre, old(hn.probVec).value, [x.flat], if y.Scalar? then [y.v] else y.flat,
                                             hn.c, hn.cK, hn.dMax);
                         r == p && hn.metatrees == w.0 && hn.probVec == Some(w.1))
    {
      var ve := VectorError(x, hn.c, hn.cK);
      if ve.Some? {
        r := Err(ve.value);
      } else {
        var _ := CalcPredDist(x);
        r := MakePrediction(loss);
        if r.Ok? {
          SingleObservation(x, y, hn.c, hn.cK);
          var e := UpdatePosterior(x, y, "given_MT", []);
          if e.Some? {
            r := Err(e.value);
          }
        }
      }
    }

    /** `estimate_params(loss="0-1")`: every posterior tree is marked with
        its MAP subtree, the first tree with the largest weighted MAP value
        is chosen, and its MAP subtree is copied into a new well-formed
        root.  Another loss raises CriteriaError and an empty posterior list
        IndexError, both before any tree is touched. */
    method EstimateParams(loss: string) returns (r: Result<Node<S>>)
      requires Linked()
      modifies hn
      ensures Linked()
      ensures hn.kProbVec == old(hn.kProbVec) && hn.g == old(hn.g) && hn.subParams == old(hn.subParams) && hn.probVec == old(hn.probVec)
      ensures loss != "0-1" ==> r == Err(CriteriaError) && hn.metatrees == old(hn.metatrees)
      ensures loss == "0-1" ==>
                (r, hn.metatrees) == MapOutcome(old(hn.metatrees), hn.probVec, MapCfg(hn.c, hn.dMax, hn.cK, hn.g, fam.create(h0.subParams), true))
    {
      if loss == "0-1" {
        var cfg := MapCfg(hn.c, hn.dMax, hn.cK, hn.g, fam.create(h0.subParams), true);
        var marked;
        r, marked := EstimateMap(hn.metatrees, hn.probVec, cfg);
        hn.Retree(marked);
      } else {
        r := Err(CriteriaError);
      }
    }
  }

  /** What `estimate_params(loss='0-1')` returns and leaves in
      `hn_metatrees`: the MAP recursion marks every meta-tree, the tree
      with the largest posterior weight times MAP value wins (the first on
      ties), and its MAP subtree is copied out as a fresh tree rooted at
      depth 0 over every feature.  Without meta-trees there is nothing to
      index; with one child per node the source's exponent divides by zero
      in any tree with a leaf above `c_d_max` and `c_k`. */
  ghost function MapOutcome<S>(trees: seq<Node<S>>, w: Option<seq<real>>, cfg: MapCfg<S>): (o: (Result<Node<S>>, seq<Node<S>>))
    requires AllRoots(trees, cfg.c, cfg.cK, cfg.dMax) && VecFits(w, |trees|)
    requires cfg.c >= 1 && 0.0 <= cfg.hnG <= 1.0
    ensures |o.1| == |trees| && AllRoots(o.1, cfg.c, cfg.cK, cfg.dMax)
    ensures o.0.Err? <==> trees == [] || exists i :: 0 <= i < |trees| && DividesByZero(trees[i], cfg)
    ensures o.0.Err? ==> o.0 == Err(if trees == [] then IndexError else ZeroDivisionError) && o.1 == trees
  {
    MarkedRoots(trees, cfg);
    SelectErrorFits(trees, w, cfg, 0);
    var e := SelectError(trees, w, cfg, 0);
    if e.Some? then (Err(e.value), trees)
    else
      var all := MapAll(trees, cfg);
      var i := Scan(MapCopy.Weighted(w.value, Values(all))).0;
      ScanFirstMax(MapCopy.Weighted(w.value, Values(all)));
      EstimateCopies(trees[i], cfg);
      MapAllAt(trees, cfg, i);
      (Ok(CopyMap(0, Range(cfg.cK), Trees(all)[i], cfg.c).value), Trees(all))
  }

  /** The tree `estimate_params` returns is a copy of the MAP subtree of the
      tree the weighted scan picks, rooted at depth 0 over every feature,
      and every meta-tree is left marked by the MAP recursion. */
  lemma MapOutcomeChoice<S>(trees: seq<Node<S>>, w: Option<seq<real>>, cfg: MapCfg<S>)
    requires AllRoots(trees, cfg.c, cfg.cK, cfg.dMax) && VecFits(w, |trees|)
    requires cfg.c >= 1 && 0.0 <= cfg.hnG <= 1.0 && trees != []
    requires forall i :: 0 <= i < |trees| ==> !DividesByZero(trees[i], cfg)
    ensures forall i :: 0 <= i < |trees| ==> MapReady(trees[i], cfg)
    ensures var o := MapOutcome(trees, w, cfg);
            var all := MapAll(trees, cfg);
            var i := Scan(MapCopy.Weighted(w.value, Values(all))).0;
            && i < |all| && o.1 == Trees(all) && o.0.Ok?
            && o.0.value.depth == 0 && o.0.value.kCandidates == Range(cfg.cK)
            && WellFormed(o.0.value, cfg.c, cfg.cK) && Copied(o.0.value, o.1[i], cfg.c)
  {
    RootsMapReady(trees, cfg);
    SelectErrorFits(trees, w, cfg, 0);
    var all := MapAll(trees, cfg);
    var i := Scan(MapCopy.Weighted(w.value, Values(all))).0;
    ScanFirstMax(MapCopy.Weighted(w.value, Values(all)));
    EstimateCopies(trees[i], cfg);
    MapAllAt(trees, cfg, i);
  }

  /** The body of `estimate_params(loss='0-1')`. */
  method EstimateMap<S>(trees: seq<Node<S>>, w: Option<seq<real>>, cfg: MapCfg<S>) returns (r: Result<Node<S>>, marked: seq<Node<S>>)
    requires AllRoots(trees, cfg.c, cfg.cK, cfg.dMax) && VecFits(w, |trees|)
    requires cfg.c >= 1 && 0.0 <= cfg.hnG <= 1.0
    ensures (r, marked) == MapOutcome(trees, w, cfg)
  {
    MarkedRoots(trees, cfg);
    SelectErrorFits(trees, w, cfg, 0);
    var sel := SelectMap(trees, w, cfg);
    if sel.Err? {
      return Err(sel.error), trees;
    }
    var i;
    marked, i := sel.value.0, sel.value.1;
    EstimateCopies(trees[i], cfg);
    MapAllAt(trees, cfg, i);
    var copy := CopyMap(0, Range(cfg.cK), marked[i], cfg.c);
    r := Ok(copy.value);
  }

  /** Sound roots are ready for the MAP recursion. */
  lemma RootsMapReady<S>(trees: seq<Node<S>>, cfg: MapCfg<S>)
    requires AllRoots(trees, cfg.c, cfg.cK, cfg.dMax)
    ensures forall i :: 0 <= i < |trees| ==> MapReady(trees[i], cfg)
  {
    forall i | 0 <= i < |trees| ensures MapReady(trees[i], cfg) {
      SoundMapReady(trees[i], cfg);
    }
  }

  /** Marking every tree with its MAP subtree keeps sound roots. */
  lemma MarkedRoots<S>(trees: seq<Node<S>>, cfg: MapCfg<S>)
    requires AllRoots(trees, cfg.c, cfg.cK, cfg.dMax) && cfg.c >= 1 && 0.0 <= cfg.hnG <= 1.0
    ensures forall i :: 0 <= i < |trees| ==> MapReady(trees[i], cfg)
    ensures AllRoots(Trees(MapAll(trees, cfg)), cfg.c, cfg.cK, cfg.dMax)
  {
    RootsMapReady(trees, cfg);
    var all := MapAll(trees, cfg);
    forall i | 0 <= i < |trees| ensures Root(Trees(all)[i], cfg.c, cfg.cK, cfg.dMax) {
      MapRecSound(trees[i], cfg);
      MapAllAt(trees, cfg, i);
    }
  }

  /** Shapes ignore stopping weights and sub-models. */
  lemma {:induction false} ShapeOfStrip<S>(n: Node<S>)
    ensures ShapeOf(Strip(n)) == ShapeOf(n)
    decreases n
  {
    var s := Strip(n);
    if !n.leaf {
      forall i | 0 <= i < |n.children| ensures ShapeOf(s.children[i]) == ShapeOf(n.children[i]) {
        ShapeOfStrip(n.children[i]);
      }
    }
  }
}
