/** The generative model `GenModel` of
    bayesml/metatree/_metatree_x_discrete.py (lines 78-684): its
    hyperparameter record, the true meta-tree `root`, and the operations
    that fill, replace and sample from that tree.  The random draws of
    `gen_params` and `gen_sample` are passed in as oracles. */
module Generative {
  import opened Wrappers
  import opened Nodes
  import opened LeafModel
  import opened Builders
  import opened Generator
  import opened Prediction
  import opened Invariants
  import opened Ensemble
  import opened Samples

  // ---------------------------------------------------------------------
  // Facts about the tree operations the class relies on
  // ---------------------------------------------------------------------

  /** The tree-fixed generator keeps a sub-model at every node. */
  lemma {:induction false} FixTreeHasSubs<S, H>(n: Node<S>, cands: seq<nat>, h: Option<Node<S>>, cfg: GenCfg<S, H>, p: seq<nat>)
    requires HasSubs(n)
    ensures HasSubs(FixTree(n, cands, h, cfg, p))
    decreases n
  {
    var m := FixTree(n, cands, h, cfg, p);
    if !n.leaf && RemoveFeature(cands, SplitFeature(n.(kCandidates := cands), cfg, p)).Ok? {
      forall j | 0 <= j < |m.children| ensures HasSubs(m.children[j]) {
        FixKid(n, cands, h, cfg, p, j);
        FixTreeHasSubs(n.children[j], RemoveFeature(cands, m.k).value, h, cfg, p + [j]);
      }
    }
  }

  /** A well-formed tree has all child slots of its internal nodes filled. */
  lemma {:induction false} WellFormedGrown<S>(n: Node<S>, c: nat, cK: nat)
    requires WellFormed(n, c, cK)
    ensures Grown(n)
    decreases n
  {
    if !n.leaf {
      forall i | 0 <= i < |n.children| ensures Grown(n.children[i]) {
        WellFormedGrown(n.children[i], c, cK);
      }
    }
  }

  /** The leaf a feature vector reaches in a tree with a sub-model at every
      node has a sub-model. */
  lemma {:induction false} FollowSub<S>(n: Node<S>, x: seq<int>, c: nat)
    requires HasSubs(n) && Follow(n, x, c).Ok?
    ensures Follow(n, x, c).value.sub.Some?
    decreases n
  {
    if !n.leaf {
      var i := PyIndex(x[n.k.value], |n.children|).value;
      FollowSub(n.children[i], x, c);
    }
  }

  /** Sampling at a row whose entries lie in [-c, c) never raises in a
      well-formed tree with a sub-model at every node. */
  lemma SampleSucceeds<S, H>(fam: GenSub<S, H>, n: Node<S>, x: seq<int>, c: nat, cK: nat, no: nat)
    requires c > 0 && WellFormed(n, c, cK) && HasSubs(n)
    requires |x| == cK && forall j :: 0 <= j < |x| ==> -(c as int) <= x[j] < c
    ensures GenSampleOne(fam, n, x, c, no).Ok?
  {
    FollowWraps(n, x, c);
    FollowWellFormed(n, c, cK, Wrap(x, c));
    FollowSub(n, x, c);
  }

  // ---------------------------------------------------------------------
  // gen_params, set_params and gen_sample on values
  // ---------------------------------------------------------------------

  /** The reference tree `gen_params` draws: tree `pick` of the list (taken
      modulo its length), or none for an empty list. */
  function Reference<S>(trees: seq<Node<S>>, pick: nat): (r: Option<Node<S>>)
    ensures r.None? <==> trees == []
    ensures r.Some? ==> r.value in trees
  {
    if trees == [] then None else Some(trees[pick % |trees|])
  }

  /** The outcome of `gen_params(feature_fix, tree_fix)` on the tree `root`
      with the reference `ref`: the regenerated tree or the first
      exception. */
  function Generated<S, H>(root: Node<S>, ref: Option<Node<S>>, cfg: GenCfg<S, H>, treeFix: bool): Result<Node<S>>
  {
    if treeFix then TreeFixRecursion(root, ref, cfg) else GenParamsRecursion(root, ref, cfg)
  }

  /** What a caller may rely on about `gen_params` from a well-formed root
      with a sub-model at every node and a reference drawn from a list of
      sound roots: when every feature has positive weight, generating
      afresh never raises and stops by depth `c_d_max` and `c_k`, and with
      the tree fixed it raises exactly when the current tree splits at
      depth `c_k` or below; a tree-fixed success keeps the current decision
      outline; a success leaves a well-formed root with a sub-model at every
      node. */
  lemma GeneratedSpec<S, H>(root: Node<S>, ref: Option<Node<S>>, cfg: GenCfg<S, H>, treeFix: bool)
    requires cfg.c > 0 && root.depth == 0 && WellFormed(root, cfg.c, cfg.cK) && HasSubs(root)
    requires ref.Some? ==> Root(ref.value, cfg.c, cfg.cK, cfg.dMax)
    ensures var r := Generated(root, ref, cfg, treeFix);
            && (!treeFix && !cfg.featureFix && PositiveWeights(cfg) ==> r.Ok?)
            && (treeFix && !cfg.featureFix && PositiveWeights(cfg) ==> (r.Ok? <==> StopsBy(root, cfg.cK)))
            && (r.Ok? ==> r.value.depth == 0 && r.value.kCandidates == root.kCandidates)
            && (r.Ok? ==> WellFormed(r.value, cfg.c, cfg.cK) && HasSubs(r.value))
            && (r.Ok? && !treeFix ==> StopsBy(r.value, cfg.dMax) && StopsBy(r.value, cfg.cK))
            && (r.Ok? && treeFix ==> Outline(r.value) == Outline(root))
  {
    if treeFix {
      if !cfg.featureFix && PositiveWeights(cfg) {
        FixSucceeds(root, root.kCandidates, ref, cfg, []);
      }
      if FixError(root, root.kCandidates, ref, cfg, []).None? {
        WellFormedGrown(root, cfg.c, cfg.cK);
        FixTreeWellFormed(root, root.kCandidates, ref, cfg, []);
        FixTreeHasSubs(root, root.kCandidates, ref, cfg, []);
      }
    } else {
      if !cfg.featureFix && PositiveWeights(cfg) {
        GenSucceeds(root, ref, cfg, []);
      }
      if GenError(root, ref, cfg, []).None? {
        GenTreeShaped(root, ref, cfg, []);
        GenTreeConsistent(root, ref, cfg, []);
        GenTreeStops(root, ref, cfg, [], cfg.dMax);
        GenTreeStops(root, ref, cfg, [], cfg.cK);
      }
    }
  }

  /** `set_params(root)` for any given tree: a copy that raises nothing is a
      well-formed root over all features with a sub-model at every node. */
  lemma SetParamsWellFormed<S, H>(orig: Node<S>, cfg: GenCfg<S, H>)
    requires cfg.c > 0
    ensures var r := SetParamsRecursion(orig, cfg);
            r.Ok? ==> && r.value.depth == 0 && r.value.kCandidates == Range(cfg.cK)
                      && WellFormed(r.value, cfg.c, cfg.cK) && HasSubs(r.value)
  {
    var n := NewNode(0, Range(cfg.cK), cfg.g, Some(cfg.fam.create(cfg.hp)), true);
    if ParamsError(n, orig, cfg).None? {
      assert Distinct(Range(cfg.cK));
      ParamsTreeWellFormed(n, orig, cfg);
    }
  }

  /** The rows `gen_sample` generates for: the given array reshaped to rows
      of `c_k` entries after its checks, or `sample_size` rows drawn from
      `draw` (entry `j` of row `i` is `draw(i, j)` reduced below `c`), or the
      first exception. */
  function SampleRows(size: Option<int>, x: Option<IntArray>, c: nat, cK: nat, draw: (nat, nat) -> nat): (r: Result<seq<seq<int>>>)
    requires x.Some? ==> |x.value.flat| == Size(x.value.shape)
    requires c > 0
    ensures r.Err? ==> r.error in {DataFormatError, ParameterFormatError, ValueError}
    ensures r.Ok? ==> forall i :: 0 <= i < |r.value| ==> |r.value[i]| == cK
  {
    if x.Some? then
      var a := x.value;
      if !Vectors(a) then Err(DataFormatError)
      else if Width(a) != cK then Err(ParameterFormatError)
      else
        match MaxOf(a.flat)
        case None => Err(ValueError)          // the maximum of an empty array
        case Some(m) =>
          if m >= c then Err(DataFormatError)
          else Ok(AsRows(a))
    else if size.Some? then
      if size.value <= 0 then Err(DataFormatError)
      else Ok(seq(size.value, i requires 0 <= i => seq(cK, j requires 0 <= j => draw(i, j) % c)))
    else Err(DataFormatError)
  }

  /** The rows `gen_sample` accepts have their entries below `c`, and drawn
      rows have them in [0, c); an accepted array has at least one entry. */
  lemma SampleRowsBound(size: Option<int>, x: Option<IntArray>, c: nat, cK: nat, draw: (nat, nat) -> nat)
    requires x.Some? ==> |x.value.flat| == Size(x.value.shape)
    requires c > 0
    ensures var r := SampleRows(size, x, c, cK, draw);
            && (r.Ok? ==> forall i, j :: 0 <= i < |r.value| && 0 <= j < |r.value[i]| ==> r.value[i][j] < c)
            && (r.Ok? && x.None? ==>
                  && |r.value| == size.value
                  && forall i, j :: 0 <= i < |r.value| && 0 <= j < |r.value[i]| ==> 0 <= r.value[i][j])
            && (r.Ok? && x.Some? ==> x.value.flat != [])
  {
    var r := SampleRows(size, x, c, cK, draw);
    if x.Some? && r.Ok? {
      var a := x.value;
      RowsAll(a.flat, Size(Lead(a)), Width(a), v => v < c);
    }
  }

  /** `gen_sample`'s checks let negative entries through: in a well-formed
      tree an accepted array whose entries are at least `-c` samples every
      row, each at the leaf its entries reduced modulo `c` select, while an
      entry below `-c` on the path makes the traversal raise IndexError. */
  lemma NegativeEntries<S, H>(fam: GenSub<S, H>, n: Node<S>, x: seq<int>, c: nat, cK: nat, no: nat)
    requires c > 0 && WellFormed(n, c, cK) && HasSubs(n)
    requires |x| == cK && forall j :: 0 <= j < |x| ==> -(c as int) <= x[j] < c
    ensures GenSampleOne(fam, n, x, c, no).Ok?
    ensures Follow(n, x, c) == Follow(n, Wrap(x, c), c)
  {
    SampleSucceeds(fam, n, x, c, cK, no);
    FollowWraps(n, x, c);
  }

  /** An entry below `-c` at the root's split feature raises IndexError. */
  lemma FarNegativeRaises<S, H>(fam: GenSub<S, H>, n: Node<S>, x: seq<int>, c: nat, cK: nat, no: nat)
    requires WellFormed(n, c, cK) && !n.leaf && |x| == cK && x[n.k.value] < -(c as int)
    ensures GenSampleOne(fam, n, x, c, no) == Err(IndexError)
  {
  }

  /** `for i in range(sample_size): y[i] = _gen_sample_recursion(root, x[i])`:
      one sample per row in row order, or the exception of the first row
      whose traversal raises. */
  method SampleAll<S, H>(fam: GenSub<S, H>, n: Node<S>, rows: seq<seq<int>>, c: nat) returns (r: Result<seq<real>>)
    ensures r.Ok? <==> forall i :: 0 <= i < |rows| ==> GenSampleOne(fam, n, rows[i], c, i).Ok?
    ensures r.Ok? ==> |r.value| == |rows| && forall i :: 0 <= i < |rows| ==> GenSampleOne(fam, n, rows[i], c, i) == Ok(r.value[i])
    ensures r.Err? ==> exists i :: 0 <= i < |rows| && FirstFailure(fam, n, rows, c, i) && GenSampleOne(fam, n, rows[i], c, i) == Err(r.error)
  {
    var ys: seq<real> := [];
    var i := 0;
    while i < |rows|
      invariant 0 <= i <= |rows| && |ys| == i
      invariant forall j :: 0 <= j < i ==> GenSampleOne(fam, n, rows[j], c, j) == Ok(ys[j])
    {
      var y := GenSampleOne(fam, n, rows[i], c, i);
      if y.Err? {
        assert FirstFailure(fam, n, rows, c, i);
        return Err(y.error);
      }
      ys := ys + [y.value];
      i := i + 1;
    }
    return Ok(ys);
  }

  /** Row `i` is the first row whose traversal raises. */
  ghost predicate FirstFailure<S, H>(fam: GenSub<S, H>, n: Node<S>, rows: seq<seq<int>>, c: nat, i: nat)
    requires i < |rows|
  {
    GenSampleOne(fam, n, rows[i], c, i).Err? && forall j :: 0 <= j < i ==> GenSampleOne(fam, n, rows[j], c, j).Ok?
  }

  /** The checks of the constructor on the integer constants, in the order
      they run: `c_d_max`, `c_num_children`, then `c_k` must be positive. */
  function ConstantsError(cK: int, dMax: int, c: int): (e: Option<Error>)
    ensures e.None? <==> cK >= 1 && dMax >= 1 && c >= 1
    ensures e.Some? ==> e.value == ParameterFormatError
  {
    if dMax < 1 || c < 1 || cK < 1 then Some(ParameterFormatError) else None
  }

  /** The generator configuration the model passes to its recursions. */
  function Config<S, H>(h: HyperParams<S, H>, kv: seq<real>, g: real, hp: H, fam: GenSub<S, H>, featureFix: bool,
                        draws: Draws): GenCfg<S, H>
  {
    GenCfg(h.c, h.dMax, h.cK, kv, g, fam, hp, featureFix, draws)
  }

  /** Draws for the recursions that draw nothing. */
  const NoDraws := Draws(_ => 0.0, _ => 0)

  // ---------------------------------------------------------------------
  // The model
  // ---------------------------------------------------------------------

  class GenModel<S, H> {
    /** `SubModel`, the leaf family */
    const fam: GenSub<S, H>
    /** `h_k_prob_vec`, `h_g`, `sub_h_params`, `h_metatree_list`,
        `h_metatree_prob_vec` */
    const h: HyperParams<S, H>
    /** the true meta-tree */
    var root: Node<S>

    /** The hyperparameters are valid and belong to this model's family, and
        the tree is a well-formed root over all `c_k` features with a
        sub-model at every node. */
    ghost predicate Valid()
      reads this, h
    {
      && h.Valid()
      && h.accepts == fam.accepts && h.create == fam.create && h.reset == fam.rehyper
      && root.depth == 0 && root.kCandidates == Range(h.cK)
      && WellFormed(root, h.c, h.cK) && HasSubs(root)
    }

    constructor Init(fam: GenSub<S, H>, h: HyperParams<S, H>, root: Node<S>)
      ensures this.fam == fam && this.h == h && this.root == root
    {
      this.fam := fam;
      this.h := h;
      this.root := root;
    }

    /** `GenModel(c_k, c_d_max, c_num_children, SubModel=..., root=...,
        h_k_prob_vec=..., h_g=..., sub_h_params=..., h_metatree_list=...,
        h_metatree_prob_vec=...)`: the constants are checked, the
        hyperparameters set, the tree starts as one leaf and the given root
        is copied into it. */
    static method Create(fam: GenSub<S, H>, cK: int, dMax: int, c: int, root: Option<Node<S>>,
                         kv: Option<seq<real>>, g: real, sub: H, list: seq<Node<S>>, vec: Option<seq<real>>)
      returns (r: Result<GenModel<S, H>>)
      requires c >= 1 ==> References(list, c as nat)
      ensures ConstantsError(cK, dMax, c).Some? ==> r == Err(ConstantsError(cK, dMax, c).value)
      ensures ConstantsError(cK, dMax, c).None? ==>
                var e := SettingError(cK as nat, dMax as nat, fam.accepts, kv, Some(g), Some(sub), Some(list), vec, 0);
                && (e.Some? ==> r == Err(e.value))
                && (e.None? && root.None? ==> r.Ok? && r.value.root == NewNode(0, Range(cK as nat), g, Some(fam.create(sub)), true))
                && (e.None? && root.Some? ==>
                      var copied := SetParamsRecursion(root.value, GenCfg(c as nat, dMax as nat, cK as nat, [], g, fam, sub, false, NoDraws));
                      && (copied.Err? ==> r == Err(copied.error))
                      && (copied.Ok? ==> r.Ok? && r.value.root == copied.value))
      ensures r.Ok? ==> fresh(r.value) && fresh(r.value.h) && r.value.Valid() && r.value.fam == fam
      ensures r.Ok? ==> && r.value.h.c == c && r.value.h.dMax == dMax && r.value.h.cK == cK
                        && r.value.h.g == g && r.value.h.subParams == sub && |r.value.h.metatrees| == |list|
      ensures r.Ok? ==> && r.value.h.kProbVec == Pick(kv, Uniform(r.value.h.cK))
                        && r.value.h.probVec == (if vec.Some? then vec else DefaultVec(|list|))
                        && r.value.h.metatrees == r.value.h.Installed([], Some(g), Some(sub), Some(list), g, sub)
      ensures r.Ok? ==> forall i :: 0 <= i < |list| ==> ShapeOf(r.value.h.metatrees[i]) == Cut(ShapeOf(list[i]), 0, r.value.h.dMax)
    {
      var ce := ConstantsError(cK, dMax, c);
      if ce.Some? {
        return Err(ce.value);
      }
      var hp := new HyperParams(c as nat, dMax as nat, cK as nat, fam.accepts, fam.create, fam.rehyper, sub);
      var e := hp.Set(kv, Some(g), Some(sub), Some(list), vec);
      if e.Some? {
        return Err(e.value);
      }
      var leaf := NewNode(0, Range(cK as nat), g, Some(fam.create(sub)), true);
      assert WellFormed(leaf, c as nat, cK as nat) by {
        assert Distinct(Range(cK as nat));
      }
      if root.Some? {
        // the copy draws nothing, so it is given no feature weights
        var cfg := GenCfg(c as nat, dMax as nat, cK as nat, [], g, fam, sub, false, NoDraws);
        var copied := SetParamsRecursion(root.value, cfg);
        if copied.Err? {
          return Err(copied.error);
        }
        SetParamsWellFormed(root.value, cfg);
        leaf := copied.value;
      }
      var m := new GenModel.Init(fam, hp, leaf);
      return Ok(m);
    }

    /** `set_h_params(...)`: the hyperparameter setter; the tree is not
        touched. */
    method SetHParams(kv: Option<seq<real>>, gv: Option<real>, sub: Option<H>,
                      list: Option<seq<Node<S>>>, vec: Option<seq<real>>) returns (e: Option<Error>)
      requires Valid()
      requires list.Some? ==> References(list.value, h.c)
      modifies h
      ensures e == SettingError(h.cK, h.dMax, fam.accepts, kv, gv, sub, list, vec, |old(h.metatrees)|)
      ensures e.None? ==> Valid()
      ensures e.None? ==> h.kProbVec == Pick(kv, old(h.kProbVec)) && h.g == Pick(gv, old(h.g)) && h.subParams == Pick(sub, old(h.subParams))
      ensures e.None? ==> h.probVec == (if vec.Some? then vec else if list.Some? then DefaultVec(|list.value|) else old(h.probVec))
      ensures e.None? ==> h.metatrees == h.Installed(old(h.metatrees), gv, sub, list, h.g, h.subParams)
      ensures e.None? && list.Some? ==>
                forall i :: 0 <= i < |h.metatrees| ==> ShapeOf(h.metatrees[i]) == Cut(ShapeOf(list.value[i]), 0, h.dMax)
      ensures root == old(root)
    {
      e := h.Set(kv, gv, sub, list, vec);
    }

    /** `gen_params(feature_fix, tree_fix)`: the tree is regenerated, with
        the reference `h_metatree_list[pick]` when the list is not empty.
        With every feature of positive weight in `h_k_prob_vec`, generating
        afresh never raises, and with the tree fixed the call raises exactly
        when the current tree splits at depth `c_k` or below; a node that
        draws its feature from candidates of weight 0 raises ValueError.  A
        success leaves a valid model.  An exception leaves the root at depth
        0 with its candidate list, and with the tree fixed its outline too;
        the fields rewritten before the exception are not described. */
    method GenParams(featureFix: bool, treeFix: bool, draws: Draws, pick: nat) returns (e: Option<Error>)
      requires Valid()
      modifies this
      ensures e.None? ==> Valid()
      ensures h.Valid()
      ensures var r := Generated(old(root), Reference(h.metatrees, pick),
                                 Config(h, h.kProbVec, h.g, h.subParams, fam, featureFix, draws), treeFix);
              && (r.Ok? ==> e.None? && root == r.value)
              && (r.Err? ==> e == Some(r.error))
      ensures root.depth == 0 && root.kCandidates == Range(h.cK)
      ensures !treeFix && !featureFix && Positive(h.kProbVec) ==> e.None? && StopsBy(root, h.dMax) && StopsBy(root, h.cK)
      ensures treeFix && !featureFix && Positive(h.kProbVec) ==> (e.None? <==> StopsBy(old(root), h.cK))
      ensures treeFix ==> Outline(root) == Outline(old(root))
    {
      var ref := Reference(h.metatrees, pick);
      var cfg := Config(h, h.kProbVec, h.g, h.subParams, fam, featureFix, draws);
      assert ref.Some? ==> Root(ref.value, cfg.c, cfg.cK, cfg.dMax);
      GeneratedSpec(root, ref, cfg, treeFix);
      var r := Generated(root, ref, cfg, treeFix);
      if r.Err? {
        return Some(r.error);
      }
      root := r.value;
      e := None;
    }

    /** `set_params(root)`: a given tree is copied into a new one-leaf root;
        the copy reproduces a complete original's decision structure and
        succeeds exactly when the original's split features are available
        where it splits.  Without a tree nothing changes.  An exception
        leaves a root at depth 0 over all `c_k` features; the slots filled
        before it are not described. */
    method SetParams(orig: Option<Node<S>>) returns (e: Option<Error>)
      requires Valid()
      modifies this
      ensures e.None? ==> Valid()
      ensures h.Valid()
      ensures root.depth == 0 && root.kCandidates == Range(h.cK)
      ensures orig.None? ==> e.None? && root == old(root)
      ensures orig.Some? ==>
                var r := SetParamsRecursion(orig.value, Config(h, h.kProbVec, h.g, h.subParams, fam, false, NoDraws));
                && (r.Ok? ==> e.None? && root == r.value)
                && (r.Err? ==> e == Some(r.error))
      ensures orig.Some? && Complete(orig.value, h.c) ==>
                && (e.None? <==> ParamsFit(orig.value, Range(h.cK), h.c))
                && (e.None? ==> ShapeOf(root) == ShapeOf(orig.value))
    {
      if orig.None? {
        return None;
      }
      var cfg := Config(h, h.kProbVec, h.g, h.subParams, fam, false, NoDraws);
      var r := SetParamsRecursion(orig.value, cfg);
      SetParamsWellFormed(orig.value, cfg);
      if Complete(orig.value, h.c) {
        SetParamsSpec(orig.value, cfg);
      }
      if r.Err? {
        return Some(r.error);
      }
      root := r.value;
      e := None;
    }

    /** `gen_sample(sample_size, x)`: the rows are checked or drawn, then one
        value is sampled per row at the leaf the row reaches.  Drawn rows
        and accepted arrays whose entries are at least `-c` never make the
        sampling raise. */
    method GenSample(size: Option<int>, x: Option<IntArray>, draw: (nat, nat) -> nat)
      returns (r: Result<(seq<seq<int>>, seq<real>)>)
      requires Valid()
      requires x.Some? ==> |x.value.flat| == Size(x.value.shape)
      ensures var rows := SampleRows(size, x, h.c, h.cK, draw);
              && (rows.Err? ==> r == Err(rows.error))
              && (rows.Ok? && r.Ok? ==>
                    && r.value.0 == rows.value && |r.value.1| == |rows.value|
                    && forall i :: 0 <= i < |rows.value| ==> GenSampleOne(fam, root, rows.value[i], h.c, i) == Ok(r.value.1[i]))
              && (rows.Ok? && r.Err? ==> exists i :: 0 <= i < |rows.value| && FirstFailure(fam, root, rows.value, h.c, i)
                                                    && GenSampleOne(fam, root, rows.value[i], h.c, i) == Err(r.error))
      ensures x.None? && size.Some? && size.value > 0 ==> r.Ok?
      ensures (&& x.Some? && SampleRows(size, x, h.c, h.cK, draw).Ok?
               && forall k :: 0 <= k < |x.value.flat| ==> -(h.c as int) <= x.value.flat[k]) ==> r.Ok?
    {
      var rows := SampleRows(size, x, h.c, h.cK, draw);
      if rows.Err? {
        return Err(rows.error);
      }
      SampleRowsBound(size, x, h.c, h.cK, draw);
      if x.Some? && (forall k :: 0 <= k < |x.value.flat| ==> -(h.c as int) <= x.value.flat[k]) {
        var a := x.value;
        RowsAll(a.flat, Size(Lead(a)), Width(a), v => -(h.c as int) <= v);
      }
      if (x.Some? && forall k :: 0 <= k < |x.value.flat| ==> -(h.c as int) <= x.value.flat[k]) || x.None? {
        forall i | 0 <= i < |rows.value| ensures GenSampleOne(fam, root, rows.value[i], h.c, i).Ok? {
          SampleSucceeds(fam, root, rows.value[i], h.c, h.cK, i);
        }
      }
      var ys := SampleAll(fam, root, rows.value, h.c);
      if ys.Err? {
        return Err(ys.error);
      }
      return Ok((rows.value, ys.value));
    }
  }
}
