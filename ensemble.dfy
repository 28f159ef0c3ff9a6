/** The hyperparameters of a meta-tree ensemble, as `GenModel` keeps them
    (`h_k_prob_vec`, `h_g`, `sub_h_params`, `h_metatree_list`,
    `h_metatree_prob_vec`) and `LearnModel` keeps them twice (the `h0_*` prior
    and the `hn_*` posterior), together with the setter `set_h_params` and its
    twins `set_h0_params` and `set_hn_params` of
    bayesml/metatree/_metatree_x_discrete.py.  The three setters differ only
    in the sub-model they construct and in how they re-initialise a node's
    own sub-model; both are fields of the record. */
module Ensemble {
  import opened Wrappers
  import opened Nodes
  import opened Builders
  import opened Prediction
  import opened Invariants

  // ---------------------------------------------------------------------
  // Probability vectors
  // ---------------------------------------------------------------------

  /** A vector `_check.float_vec_sum_1` accepts: nonnegative entries that
      sum to one. */
  predicate ProbVector(v: seq<real>)
  {
    (forall i :: 0 <= i < |v| ==> 0.0 <= v[i]) && Sum(v) == 1.0
  }

  /** `np.ones(n) / n` */
  function Uniform(n: nat): (v: seq<real>)
    requires n > 0
    ensures |v| == n && forall i :: 0 <= i < n ==> v[i] == 1.0 / n as real
  {
    seq(n, _ => 1.0 / n as real)
  }

  lemma {:induction false} SumConst(v: seq<real>, a: real)
    requires forall i :: 0 <= i < |v| ==> v[i] == a
    ensures Sum(v) == |v| as real * a
  {
    if v != [] {
      SumConst(v[1..], a);
    }
  }

  /** The default weights over `n > 0` trees form a probability vector. */
  lemma UniformIsProb(n: nat)
    requires n > 0
    ensures ProbVector(Uniform(n))
  {
    SumConst(Uniform(n), 1.0 / n as real);
  }

  /** The weight vector a list of `n` trees gets when none is given: uniform,
      or `None` for an empty list. */
  function DefaultVec(n: nat): (r: Option<seq<real>>)
    ensures r.None? <==> n == 0
    ensures r.Some? ==> |r.value| == n && ProbVector(r.value)
  {
    if n == 0 then None else UniformIsProb(n); Some(Uniform(n))
  }

  /** The final check of `set_h*_params`: no vector for an empty list, or a
      probability vector with one weight per tree. */
  predicate VecFits(p: Option<seq<real>>, n: nat)
  {
    match p
    case None => n == 0
    case Some(v) => |v| == n && ProbVector(v)
  }

  /** The trees a caller may hand in as references: every internal node has
      all its children and every stopping weight lies in [0, 1]. */
  ghost predicate References<R>(refs: seq<Node<R>>, c: nat)
  {
    forall i :: 0 <= i < |refs| ==> Complete(refs[i], c) && StopWeightsIn01(refs[i])
  }

  /** Every reference's features are available where it splits, starting
      from the root's candidates `list(range(c_k))`. */
  ghost predicate AllFit<R>(refs: seq<Node<R>>, cK: nat, dMax: nat)
  {
    forall i :: 0 <= i < |refs| ==> FeaturesFit(refs[i], Range(cK), 0, dMax)
  }

  ghost predicate AllRoots<S>(ts: seq<Node<S>>, c: nat, cK: nat, dMax: nat)
  {
    forall i :: 0 <= i < |ts| ==> Root(ts[i], c, cK, dMax)
  }

  /** The roots of an ensemble are valid references for another ensemble
      with the same constants, and all their features fit. */
  lemma RootsAreReferences<S>(ts: seq<Node<S>>, c: nat, cK: nat, dMax: nat)
    requires AllRoots(ts, c, cK, dMax)
    ensures References(ts, c) && AllFit(ts, cK, dMax)
  {
    forall i | 0 <= i < |ts| ensures Complete(ts[i], c) && FeaturesFit(ts[i], Range(cK), 0, dMax) {
      WellFormedComplete(ts[i], c, cK);
      WellFormedFits(ts[i], c, cK, dMax);
    }
  }

  /** `value if value is not None else current` */
  function Pick<T>(o: Option<T>, current: T): T
  {
    if o.Some? then o.value else current
  }

  // ---------------------------------------------------------------------
  // The exceptions of the setter
  // ---------------------------------------------------------------------

  /** The first exception the steps of `set_h*_params` before the tree list
      raise: the feature weights (a probability vector of length `c_k`),
      `g` (in [0, 1]), the sub-model hyperparameters (the sub-model
      constructor accepts them); ParameterFormatError each. */
  ghost function FrontError<H>(cK: nat, accepts: H -> bool, kv: Option<seq<real>>, gv: Option<real>, sub: Option<H>): Option<Error>
  {
    if kv.Some? && !(ProbVector(kv.value) && |kv.value| == cK) then Some(ParameterFormatError)
    else if gv.Some? && !(0.0 <= gv.value <= 1.0) then Some(ParameterFormatError)
    else if sub.Some? && !accepts(sub.value) then Some(ParameterFormatError)
    else None
  }

  /** The first exception the remaining steps raise: a reference whose
      features do not fit (the ValueError of `list.remove`), tree weights
      that are not a probability vector, and the final length check
      (ParameterFormatError each).  `oldLen` is the number of trees held
      before the call. */
  ghost function TreesError<R>(cK: nat, dMax: nat, list: Option<seq<Node<R>>>, vec: Option<seq<real>>, oldLen: nat): Option<Error>
  {
    if list.Some? && !AllFit(list.value, cK, dMax) then Some(ValueError)
    else if vec.Some? && !ProbVector(vec.value) then Some(ParameterFormatError)
    else if vec.Some? && |vec.value| != (if list.Some? then |list.value| else oldLen) then Some(ParameterFormatError)
    else None
  }

  /** The first exception `set_h*_params` raises, in the order of its
      checks. */
  ghost function SettingError<H, R>(cK: nat, dMax: nat, accepts: H -> bool, kv: Option<seq<real>>, gv: Option<real>, sub: Option<H>,
                                    list: Option<seq<Node<R>>>, vec: Option<seq<real>>, oldLen: nat): Option<Error>
  {
    var e := FrontError(cK, accepts, kv, gv, sub);
    if e.Some? then e else TreesError(cK, dMax, list, vec, oldLen)
  }

  // ---------------------------------------------------------------------
  // The hyperparameter record
  // ---------------------------------------------------------------------

  class HyperParams<S, H> {
    /** `c_num_children` */
    const c: nat
    /** `c_d_max` */
    const dMax: nat
    /** `c_k` */
    const cK: nat
    /** constructing the sub-model from these hyperparameters succeeds */
    const accepts: H -> bool
    /** the sub-model constructed from these hyperparameters */
    const create: H -> S
    /** re-initialising a node's own sub-model from its own hyperparameters */
    const reset: S -> S

    var kProbVec: seq<real>
    var g: real
    var subParams: H
    var metatrees: seq<Node<S>>
    var probVec: Option<seq<real>>

    /** Everything but the sub-model hyperparameters: the constants are
        positive, the feature weights and the tree weights are probability
        vectors, `g` lies in [0, 1] and every tree is a sound root. */
    ghost predicate Coherent()
      reads this
    {
      && c >= 1 && cK >= 1 && dMax >= 1
      && |kProbVec| == cK && ProbVector(kProbVec)
      && 0.0 <= g <= 1.0
      && AllRoots(metatrees, c, cK, dMax)
      && VecFits(probVec, |metatrees|)
    }

    /** The record as every setter leaves it when it raises nothing. */
    ghost predicate Valid()
      reads this
    {
      Coherent() && accepts(subParams)
    }

    /** The defaults the constructors install before calling the setter:
        uniform feature weights, `g = 0.5`, the given default sub-model
        hyperparameters and no trees. */
    constructor (c: nat, dMax: nat, cK: nat, accepts: H -> bool, create: H -> S, reset: S -> S, empty: H)
      requires c >= 1 && cK >= 1 && dMax >= 1
      ensures Coherent()
      ensures this.c == c && this.dMax == dMax && this.cK == cK
      ensures this.accepts == accepts && this.create == create && this.reset == reset
      ensures kProbVec == Uniform(cK) && g == 0.5 && subParams == empty && metatrees == [] && probVec == None
    {
      this.c := c;
      this.dMax := dMax;
      this.cK := cK;
      this.accepts := accepts;
      this.create := create;
      this.reset := reset;
      kProbVec := Uniform(cK);
      g := 0.5;
      subParams := empty;
      metatrees := [];
      probVec := None;
      new;
      UniformIsProb(cK);
    }

    /** A tree after the stopping-weight and sub-model steps of the setter. */
    ghost function Refit(t: Node<S>, gv: Option<real>, sub: Option<H>): Node<S>
    {
      var t1 := if gv.Some? then SetHg(t, dMax, gv.value) else t;
      if sub.Some? then SetSubs(t1, create(sub.value)) else t1
    }

    ghost function Refits(ts: seq<Node<S>>, gv: Option<real>, sub: Option<H>): (r: seq<Node<S>>)
      ensures |r| == |ts| && forall i :: 0 <= i < |ts| ==> r[i] == Refit(ts[i], gv, sub)
    {
      seq(|ts|, i requires 0 <= i < |ts| => Refit(ts[i], gv, sub))
    }

    /** Tree `i` of the list after the tree-list step, from the trees `ts`
        held before it, the references and the defaults `g1` and `s1`: the
        kept tree, or a fresh root, rebuilt after reference `i`. */
    ghost function Rebuild<R>(ts: seq<Node<S>>, g1: real, s1: H, refs: seq<Node<R>>, i: nat): Node<S>
      requires i < |refs|
    {
      var t := if i < |ts| then ts[i] else NewNode(0, Range(cK), g1, Some(create(s1)), false);
      HyperTree(t, refs[i], HyperCfg(true, c, dMax, g1, create(s1), reset))
    }

    /** The whole tree list after a setter call that raises nothing, from
        the trees `ts` held before it: the refitted trees when no reference
        list is given, otherwise one rebuilt tree per reference. */
    ghost function Installed<R>(ts: seq<Node<S>>, gv: Option<real>, sub: Option<H>,
                                list: Option<seq<Node<R>>>, g1: real, s1: H): (r: seq<Node<S>>)
      ensures list.Some? ==> |r| == |list.value|
    {
      if list.None? then Refits(ts, gv, sub)
      else seq(|list.value|, i requires 0 <= i < |list.value| => Rebuild(Refits(ts, gv, sub), g1, s1, list.value, i))
    }

    /** Into a tree without children (every appended fresh root, and every
        held root that is a single leaf) the loop as written, which leaves
        existing children's candidate lists alone, raises and rebuilds
        exactly as `Rebuild` does. */
    lemma RebuildAsWritten<R>(ts: seq<Node<S>>, g1: real, s1: H, refs: seq<Node<R>>, i: nat)
      requires i < |refs| && (i < |ts| ==> ts[i].children == [])
      ensures var t := if i < |ts| then ts[i] else NewNode(0, Range(cK), g1, Some(create(s1)), false);
              var written := HyperCfg(false, c, dMax, g1, create(s1), reset);
              && HyperError(t, refs[i], written) == HyperError(t, refs[i], written.(refresh := true))
              && Rebuild(ts, g1, s1, refs, i) == HyperTree(t, refs[i], written)
    {
      var t := if i < |ts| then ts[i] else NewNode(0, Range(cK), g1, Some(create(s1)), false);
      FreshCopyIgnoresRefresh(t, refs[i], HyperCfg(false, c, dMax, g1, create(s1), reset));
    }

    /** `set_h_params` (and `set_h0_params`, `set_hn_params`): each given
        argument is checked and installed in turn; a new `g` or new sub-model
        hyperparameters are pushed into every tree held; a new reference list
        resizes the list (dropping trees at the end or appending fresh roots)
        and rebuilds tree `i` after reference `i`; the tree weights are the
        given ones, or uniform over a new non-empty list.  On success the
        record is valid again and each tree has the decision structure of its
        reference cut at `c_d_max`. */
    method Set<R>(kv: Option<seq<real>>, gv: Option<real>, sub: Option<H>,
                  list: Option<seq<Node<R>>>, vec: Option<seq<real>>) returns (e: Option<Error>)
      requires Coherent() && (sub.Some? || accepts(subParams))
      requires list.Some? ==> References(list.value, c)
      modifies this
      ensures e == SettingError(cK, dMax, accepts, kv, gv, sub, list, vec, |old(metatrees)|)
      ensures e.None? ==> Valid()
      ensures e.None? ==> kProbVec == Pick(kv, old(kProbVec)) && g == Pick(gv, old(g)) && subParams == Pick(sub, old(subParams))
      ensures e.None? && list.None? ==> metatrees == Refits(old(metatrees), gv, sub)
      ensures e.None? && list.Some? ==>
                && |metatrees| == |list.value|
                && forall i :: 0 <= i < |metatrees| ==>
                     && metatrees[i] == Rebuild(Refits(old(metatrees), gv, sub), g, subParams, list.value, i)
                     && ShapeOf(metatrees[i]) == Cut(ShapeOf(list.value[i]), 0, dMax)
      ensures e.None? ==> probVec == (if vec.Some? then vec else if list.Some? then DefaultVec(|list.value|) else old(probVec))
      ensures e.None? ==> metatrees == Installed(old(metatrees), gv, sub, list, g, subParams)
    {
      e := SetFront(kv, gv, sub);
      if e.Some? {
        return;
      }
      e := SetTrees(list, vec);
    }

    /** The steps of the setter before the tree list: the feature weights,
        then `g` (pushed into every tree), then the sub-model
        hyperparameters (pushed into every tree). */
    method SetFront(kv: Option<seq<real>>, gv: Option<real>, sub: Option<H>) returns (e: Option<Error>)
      requires Coherent() && (sub.Some? || accepts(subParams))
      modifies this
      ensures e == FrontError(cK, accepts, kv, gv, sub)
      ensures e.None? ==> Valid()
      ensures e.None? ==> kProbVec == Pick(kv, old(kProbVec)) && g == Pick(gv, old(g)) && subParams == Pick(sub, old(subParams))
      ensures e.None? ==> metatrees == Refits(old(metatrees), gv, sub)
      ensures probVec == old(probVec)
    {
      if kv.Some? {
        if !(ProbVector(kv.value) && |kv.value| == cK) {
          return Some(ParameterFormatError);
        }
        kProbVec := kv.value;
      }
      e := SetGSub(gv, sub);
    }

    /** The `h_g` step (the new default pushed into every tree) and the
        `sub_h_params` step (a sub-model constructed from the new
        hyperparameters, raising when that fails, pushed into every node). */
    method SetGSub(gv: Option<real>, sub: Option<H>) returns (e: Option<Error>)
      requires Coherent() && (sub.Some? || accepts(subParams))
      modifies this
      ensures e == FrontError(cK, accepts, None, gv, sub)
      ensures e.None? ==> Valid()
      ensures e.None? ==> g == Pick(gv, old(g)) && subParams == Pick(sub, old(subParams))
      ensures e.None? ==> metatrees == Refits(old(metatrees), gv, sub)
      ensures kProbVec == old(kProbVec) && probVec == old(probVec)
    {
      var ts := metatrees;
      if gv.Some? {
        if !(0.0 <= gv.value <= 1.0) {
          return Some(ParameterFormatError);
        }
        g := gv.value;
        ts := SetHgAll(ts, c, cK, dMax, gv.value);
        metatrees := ts;
      }
      ghost var ts1 := ts;
      if sub.Some? {
        if !accepts(sub.value) {
          return Some(ParameterFormatError);
        }
        subParams := sub.value;
        ts := SetSubsAll(ts, c, cK, dMax, create(sub.value));
        metatrees := ts;
      }
      assert ts == Refits(old(metatrees), gv, sub) by {
        forall i | 0 <= i < |ts| ensures ts[i] == Refit(old(metatrees)[i], gv, sub) {
          assert ts1[i] == if gv.Some? then SetHg(old(metatrees)[i], dMax, gv.value) else old(metatrees)[i];
        }
      }
      e := None;
    }

    /** The tree-list step, the tree-weight step and the final check. */
    method SetTrees<R>(list: Option<seq<Node<R>>>, vec: Option<seq<real>>) returns (e: Option<Error>)
      requires Coherent() && (list.Some? ==> References(list.value, c))
      modifies this
      ensures e == TreesError(cK, dMax, list, vec, |old(metatrees)|)
      ensures kProbVec == old(kProbVec) && g == old(g) && subParams == old(subParams)
      ensures e.None? ==> Coherent()
      ensures e.None? && list.None? ==> metatrees == old(metatrees)
      ensures e.None? && list.Some? ==>
                && |metatrees| == |list.value|
                && forall i :: 0 <= i < |metatrees| ==>
                     && metatrees[i] == Rebuild(old(metatrees), g, subParams, list.value, i)
                     && ShapeOf(metatrees[i]) == Cut(ShapeOf(list.value[i]), 0, dMax)
      ensures e.None? ==> probVec == (if vec.Some? then vec else if list.Some? then DefaultVec(|list.value|) else old(probVec))
    {
      if list.Some? {
        e := SetList(list.value);
        if e.Some? {
          return;
        }
        if vec.Some? {
          if !ProbVector(vec.value) {
            return Some(ParameterFormatError);
          }
          probVec := vec;
        } else {
          probVec := DefaultVec(|list.value|);
        }
      } else if vec.Some? {
        if !ProbVector(vec.value) {
          return Some(ParameterFormatError);
        }
        probVec := vec;
      }
      if probVec.Some? && |probVec.value| != |metatrees| {
        return Some(ParameterFormatError);
      } else if probVec.None? && |metatrees| > 0 {
        return Some(ParameterFormatError);
      }
      e := None;
    }

    /** Replacing every tree by a sound root in place, as the MAP recursion
        does when it marks the posterior trees, keeps the record coherent. */
    method Retree(ts: seq<Node<S>>)
      requires Coherent() && |ts| == |metatrees| && AllRoots(ts, c, cK, dMax)
      modifies this
      ensures Coherent() && metatrees == ts
      ensures kProbVec == old(kProbVec) && g == old(g) && subParams == old(subParams) && probVec == old(probVec)
    {
      metatrees := ts;
    }

    /** Replacing the trees and their weights by sound roots and a
        probability vector of the same length, as a posterior update does,
        keeps the record coherent. */
    method Repost(ts: seq<Node<S>>, w: seq<real>)
      requires Coherent() && AllRoots(ts, c, cK, dMax) && |w| == |ts| && ProbVector(w)
      modifies this
      ensures Coherent() && metatrees == ts && probVec == Some(w)
      ensures kProbVec == old(kProbVec) && g == old(g) && subParams == old(subParams)
    {
      metatrees, probVec := ts, Some(w);
    }

    /** The `h_metatree_list` step up to the tree weights: resize the list to
        the length of the references, then rebuild tree `i` after reference
        `i`, stopping at the first reference whose features do not fit. */
    method SetList<R>(refs: seq<Node<R>>) returns (e: Option<Error>)
      requires Coherent() && References(refs, c)
      modifies this
      ensures e == (if AllFit(refs, cK, dMax) then None else Some(ValueError))
      ensures kProbVec == old(kProbVec) && g == old(g) && subParams == old(subParams) && probVec == old(probVec)
      ensures e.None? ==> |metatrees| == |refs| && AllRoots(metatrees, c, cK, dMax)
      ensures e.None? ==> forall i :: 0 <= i < |refs| ==>
                && metatrees[i] == Rebuild(old(metatrees), g, subParams, refs, i)
                && ShapeOf(metatrees[i]) == Cut(ShapeOf(refs[i]), 0, dMax)
    {
      ghost var fresh_ := NewNode(0, Range(cK), g, Some(create(subParams)), false);
      Resize(|refs|);
      var cfg := HyperCfg(true, c, dMax, g, create(subParams), reset);
      var r := RebuildTrees(metatrees, refs, cfg, cK);
      if r.Err? {
        return Some(r.error);
      }
      assert forall i :: 0 <= i < |refs| ==> Rebuild(old(metatrees), g, subParams, refs, i) == HyperTree(metatrees[i], refs[i], cfg);
      metatrees := r.value;
      e := None;
    }

    /** `del h_metatree_list[n:]` when the list is longer than `n`, or
        appending fresh roots `_Node(0, c, list(range(c_k)), h_g, sub_model=...)`
        until it holds `n` trees. */
    method Resize(n: nat)
      requires Coherent()
      modifies this
      ensures kProbVec == old(kProbVec) && g == old(g) && subParams == old(subParams) && probVec == old(probVec)
      ensures |metatrees| == n
      ensures forall i :: 0 <= i < n ==>
                metatrees[i] == if i < |old(metatrees)| then old(metatrees)[i] else NewNode(0, Range(cK), g, Some(create(subParams)), false)
      ensures forall i :: 0 <= i < n ==> RootShaped(metatrees[i], c, cK)
    {
      var fresh_ := NewNode(0, Range(cK), g, Some(create(subParams)), false);
      assert RootShaped(fresh_, c, cK) by {
        assert StopWeightsIn01(fresh_) && HasSubs(fresh_);
      }
      if n < |metatrees| {
        metatrees := metatrees[..n];
      } else {
        while |metatrees| < n
          invariant |old(metatrees)| <= |metatrees| <= n
          invariant metatrees[..|old(metatrees)|] == old(metatrees)
          invariant forall j :: |old(metatrees)| <= j < |metatrees| ==> metatrees[j] == fresh_
          invariant kProbVec == old(kProbVec) && g == old(g) && subParams == old(subParams) && probVec == old(probVec)
          decreases n - |metatrees|
        {
          metatrees := metatrees + [fresh_];
        }
      }
      forall i | 0 <= i < n ensures RootShaped(metatrees[i], c, cK) {
        if i < |old(metatrees)| {
          assert metatrees[i] == old(metatrees)[i];
          assert Root(old(metatrees)[i], c, cK, dMax);
        }
      }
    }
  }

  /** `for h_root in h_metatree_list: _set_h_g_recursion(h_root)`: every
      tree gets the stopping weights of the new default and stays a sound
      root. */
  method SetHgAll<S>(ts: seq<Node<S>>, c: nat, cK: nat, dMax: nat, g: real) returns (r: seq<Node<S>>)
    requires AllRoots(ts, c, cK, dMax) && 0.0 <= g <= 1.0
    ensures |r| == |ts| && AllRoots(r, c, cK, dMax)
    ensures forall i :: 0 <= i < |ts| ==> r[i] == SetHg(ts[i], dMax, g)
  {
    r := ts;
    var i := 0;
    while i < |r|
      invariant 0 <= i <= |r| == |ts|
      invariant forall j :: 0 <= j < i ==> r[j] == SetHg(ts[j], dMax, g)
      invariant forall j :: i <= j < |r| ==> r[j] == ts[j]
      invariant AllRoots(r, c, cK, dMax)
    {
      SetHgSound(r[i], c, cK, dMax, g);
      r := r[i := SetHg(r[i], dMax, g)];
      i := i + 1;
    }
  }

  /** `for h_root in h_metatree_list: _set_sub_h_params_recursion(h_root)`:
      every node of every tree gets the sub-model `s` and every tree stays a
      sound root. */
  method SetSubsAll<S>(ts: seq<Node<S>>, c: nat, cK: nat, dMax: nat, s: S) returns (r: seq<Node<S>>)
    requires AllRoots(ts, c, cK, dMax)
    ensures |r| == |ts| && AllRoots(r, c, cK, dMax)
    ensures forall i :: 0 <= i < |ts| ==> r[i] == SetSubs(ts[i], s)
  {
    r := ts;
    var i := 0;
    while i < |r|
      invariant 0 <= i <= |r| == |ts|
      invariant forall j :: 0 <= j < i ==> r[j] == SetSubs(ts[j], s)
      invariant forall j :: i <= j < |r| ==> r[j] == ts[j]
      invariant AllRoots(r, c, cK, dMax)
    {
      SetSubsSound(r[i], c, cK, dMax, s);
      r := r[i := SetSubs(r[i], s)];
      i := i + 1;
    }
  }

  /** `for i in range(len(h_metatree_list)): _set_h_params_recursion(...)`:
      tree `i` is rebuilt after reference `i`; the loop stops at the first
      reference whose features do not fit, with the ValueError of
      `list.remove`.  This holds with refreshed candidate lists, and as
      written when no tree has children yet. */
  method RebuildTrees<S, R>(ts: seq<Node<S>>, refs: seq<Node<R>>, cfg: HyperCfg<S>, cK: nat) returns (r: Result<seq<Node<S>>>)
    requires cfg.refresh || Childless(ts)
    requires cfg.c >= 1 && 0.0 <= cfg.g <= 1.0
    requires References(refs, cfg.c) && |ts| == |refs|
    requires forall i :: 0 <= i < |ts| ==> RootShaped(ts[i], cfg.c, cK)
    ensures r.Ok? <==> AllFit(refs, cK, cfg.dMax)
    ensures r.Err? ==> r.error == ValueError
    ensures r.Ok? ==> |r.value| == |refs| && forall i :: 0 <= i < |refs| ==> RebuiltFrom(r.value[i], ts[i], refs[i], cfg, cK)
  {
    var out := ts;
    var i := 0;
    while i < |out|
      invariant 0 <= i <= |out| == |refs|
      invariant forall j :: 0 <= j < i ==> FeaturesFit(refs[j], Range(cK), 0, cfg.dMax)
      invariant forall j :: 0 <= j < i ==> RebuiltFrom(out[j], ts[j], refs[j], cfg, cK)
      invariant forall j :: i <= j < |out| ==> out[j] == ts[j]
    {
      var m := SetHyperRecursion(ts[i], refs[i], cfg);
      assert cfg.refresh || ts[i].children == [];
      RebuildOne(ts[i], refs[i], cfg, cK);
      if m.Err? {
        return Err(m.error);
      }
      out := out[i := m.value];
      i := i + 1;
    }
    r := Ok(out);
  }

  /** One step of that loop: the copy succeeds exactly when the reference's
      features fit, and then rebuilds the tree after the reference. */
  lemma RebuildOne<S, R>(t: Node<S>, ref: Node<R>, cfg: HyperCfg<S>, cK: nat)
    requires (cfg.refresh || t.children == []) && cfg.c >= 1 && 0.0 <= cfg.g <= 1.0
    requires Complete(ref, cfg.c) && StopWeightsIn01(ref) && RootShaped(t, cfg.c, cK)
    ensures var m := SetHyperRecursion(t, ref, cfg);
            && (m.Ok? <==> FeaturesFit(ref, Range(cK), 0, cfg.dMax))
            && (m.Err? ==> m.error == ValueError)
            && (m.Ok? ==> RebuiltFrom(m.value, t, ref, cfg, cK))
  {
    HyperRoot(t, ref, cfg, cK);
  }

  /** No tree of the list has children yet. */
  ghost predicate Childless<S>(ts: seq<Node<S>>)
  {
    forall i :: 0 <= i < |ts| ==> ts[i].children == []
  }

  /** `m` is what the hyperparameter copy makes of the root `t` after the
      reference `ref`: a sound root with the reference's decision structure
      cut at `c_d_max`. */
  ghost predicate RebuiltFrom<S, R>(m: Node<S>, t: Node<S>, ref: Node<R>, cfg: HyperCfg<S>, cK: nat)
  {
    && m == HyperTree(t, ref, cfg)
    && Root(m, cfg.c, cK, cfg.dMax)
    && ShapeOf(m) == Cut(ShapeOf(ref), 0, cfg.dMax)
  }

  /** A tree the hyperparameter copy can start from at the top of the list:
      a held root or a fresh one. */
  ghost predicate RootShaped<S>(n: Node<S>, c: nat, cK: nat)
  {
    n.depth == 0 && n.kCandidates == Range(cK) && Shaped(n, c) && HasSubs(n) && StopWeightsIn01(n)
  }
}
