/** The random generators and the parameter copy of the generative model
    (`GenModel`, bayesml/metatree/_metatree_x_discrete.py lines 168-330):
    `_gen_params_recursion`, `_gen_params_recursion_tree_fix` and
    `_set_params_recursion`.  The random draws are passed in as oracles
    indexed by the path of the node that makes them.  As in the builders, a
    recursion that mutates nodes in place is a total function returning the
    new tree, and a second function gives the first exception it raises. */
module Generator {
  import opened Wrappers
  import opened Nodes
  import opened LeafModel
  import opened Builders

  /** The draws of one run of a generator: `uniform(p)` is the
      `rng.random()` of the node at path `p` and `pick(p)` the position that
      `rng.choice` takes among that node's candidates. */
  datatype Draws = Draws(uniform: seq<nat> -> real, pick: seq<nat> -> nat)

  /** The fixed arguments of a generator run: the number of child slots,
      `c_d_max`, `c_k`, the feature weights `h_k_prob_vec`, the stopping
      weight `h_g`, the sub-model family and its hyperparameters
      `sub_h_params`, `feature_fix`, and the draws. */
  datatype GenCfg<!S, !H> = GenCfg(
    c: nat, dMax: nat, cK: nat, kProbVec: seq<real>, g: real,
    fam: GenSub<S, H>, hp: H, featureFix: bool, draws: Draws)

  /** The weight `h_k_prob_vec[f]` of feature `f`.  Every candidate list the
      model keeps holds features below `c_k`, the length of the vector, so
      the IndexError of an index past its end never arises; such an index
      weighs nothing here. */
  function Weight(v: seq<real>, f: nat): real
  {
    if f < |v| then v[f] else 0.0
  }

  /** `h_k_prob_vec[k_candidates].sum()` */
  function Mass(v: seq<real>, cands: seq<nat>): real
  {
    if cands == [] then 0.0 else Weight(v, cands[0]) + Mass(v, cands[1..])
  }

  /** The candidates `rng.choice` can return: those of positive weight. */
  function Likely(v: seq<real>, cands: seq<nat>): (r: seq<nat>)
    ensures forall f :: f in r <==> f in cands && 0.0 < Weight(v, f)
  {
    if cands == [] then []
    else if 0.0 < Weight(v, cands[0]) then [cands[0]] + Likely(v, cands[1..])
    else Likely(v, cands[1..])
  }

  /** No weight is negative (the hyperparameter checks make `h_k_prob_vec`
      a probability vector). */
  predicate NonNegative(v: seq<real>)
  {
    forall i :: 0 <= i < |v| ==> 0.0 <= v[i]
  }

  /** Every weight is positive. */
  predicate Positive(v: seq<real>)
  {
    forall i :: 0 <= i < |v| ==> 0.0 < v[i]
  }

  /** Without negative weights, candidates weigh something in total exactly
      when one of them does. */
  lemma {:induction false} MassPositive(v: seq<real>, cands: seq<nat>)
    requires NonNegative(v)
    ensures 0.0 <= Mass(v, cands)
    ensures 0.0 < Mass(v, cands) <==> Likely(v, cands) != []
    decreases |cands|
  {
    if cands != [] {
      MassPositive(v, cands[1..]);
    }
  }

  /** `rng.choice(k_candidates, p=h_k_prob_vec[k_candidates]/h_k_prob_vec[k_candidates].sum())`:
      a candidate of positive weight, or the ValueError numpy raises (shown
      here as `None`) when the candidates weigh 0 in total: an empty list
      leaves nothing to draw, and all-zero weights divide 0 by 0 into NaN
      probabilities. */
  function Choose(cands: seq<nat>, v: seq<real>, pick: nat): (k: Option<nat>)
    ensures k.Some? ==> k.value in cands && 0.0 < Weight(v, k.value)
    ensures NonNegative(v) ==> (k.Some? <==> exists f :: f in cands && 0.0 < Weight(v, f))
    ensures Mass(v, cands) == 0.0 ==> k.None?
  {
    var likely := Likely(v, cands);
    assert NonNegative(v) ==> (Mass(v, cands) != 0.0 <==> likely != []) by {
      if NonNegative(v) {
        MassPositive(v, cands);
      }
    }
    if Mass(v, cands) == 0.0 || likely == [] then None else Some(likely[pick % |likely|])
  }

  /** The weights of a generator run are positive for every feature. */
  predicate PositiveWeights<S, H>(cfg: GenCfg<S, H>)
  {
    |cfg.kProbVec| == cfg.cK && Positive(cfg.kProbVec)
  }

  /** With positive weights, a non-empty list of features below `c_k` always
      yields a draw. */
  lemma ChooseSome<S, H>(cands: seq<nat>, cfg: GenCfg<S, H>, pick: nat)
    requires PositiveWeights(cfg) && cands != [] && forall f :: f in cands ==> f < cfg.cK
    ensures Choose(cands, cfg.kProbVec, pick).Some?
  {
    assert cands[0] in cands && 0.0 < Weight(cfg.kProbVec, cands[0]);
  }

  /** The probability of continuing a node: the default `h_g`, or the
      reference node's when a reference tree is given. */
  function Threshold<S, H>(h: Option<Node<S>>, cfg: GenCfg<S, H>): real
  {
    if h.None? then cfg.g else h.value.hg
  }

  /** The sub-model a node holds after the first step of a generator: a new
      one, or its own with the reference's hyperparameters (unchanged when
      one of the two is missing, in which case the run fails). */
  function FirstSub<S, H>(n: Node<S>, h: Option<Node<S>>, cfg: GenCfg<S, H>): Option<S>
  {
    if h.None? then Some(cfg.fam.create(cfg.hp))
    else if n.sub.Some? && h.value.sub.Some? then Some(cfg.fam.inherit(n.sub.value, h.value.sub.value))
    else n.sub
  }

  /** `node.sub_model.gen_params()` */
  function Drawn<S, H>(sub: Option<S>, cfg: GenCfg<S, H>, p: seq<nat>): Option<S>
  {
    if sub.Some? then Some(cfg.fam.genParams(sub.value, p)) else None
  }

  /** The split feature of an internal node: drawn afresh unless
      `feature_fix` holds and the node already has one. */
  function SplitFeature<S, H>(n: Node<S>, cfg: GenCfg<S, H>, p: seq<nat>): Option<nat>
  {
    if !cfg.featureFix || n.k.None? then Choose(n.kCandidates, cfg.kProbVec, cfg.draws.pick(p)) else n.k
  }

  /** `h_node.children[i]`, where a missing child is `None` (an index past
      the end raises IndexError, reported by `GenError`). */
  function ChildRef<S>(h: Option<Node<S>>, j: nat): Option<Node<S>>
  {
    if h.None? || j >= |h.value.children| then None else Some(h.value.children[j])
  }

  /** The children of a node that `_gen_params_recursion` makes internal:
      its own, or `c` new ones with stopping weight `h_g` and a new
      sub-model when it has none; all of them get the list `cands`. */
  function GenSlots<S, H>(n: Node<S>, cands: seq<nat>, cfg: GenCfg<S, H>): (r: seq<Node<S>>)
    ensures n.children == [] ==> |r| == cfg.c && forall j :: 0 <= j < cfg.c ==>
              r[j] == NewNode(n.depth + 1, cands, cfg.g, Some(cfg.fam.create(cfg.hp)), false)
    ensures n.children != [] ==> |r| == |n.children| && forall j :: 0 <= j < |r| ==>
              r[j] == n.children[j].(kCandidates := cands)
  {
    if n.children == [] then seq(cfg.c, j => NewNode(n.depth + 1, cands, cfg.g, Some(cfg.fam.create(cfg.hp)), false))
    else seq(|n.children|, j requires 0 <= j < |n.children| => n.children[j].(kCandidates := cands))
  }

  /** The tree `_gen_params_recursion(node, h_node, feature_fix)` leaves
      when nothing interrupts it.  The node takes stopping weight `h_g` (or
      the reference's; 0 at depth `c_d_max`) and a new sub-model (or its own
      with the reference's hyperparameters).  It stops, with its parameters
      drawn, at depth `c_d_max` or `c_k` or when its uniform draw exceeds the
      continue probability; otherwise it splits on a drawn (or fixed)
      feature, and each child slot, created when missing and given the
      candidates without that feature, is generated in turn against the
      reference's child. */
  function GenTree<S, H>(n: Node<S>, h: Option<Node<S>>, cfg: GenCfg<S, H>, p: seq<nat>): (r: Node<S>)
    ensures r.depth == n.depth && r.kCandidates == n.kCandidates
    ensures r.hg == StopWeight(n.depth, cfg.dMax, Threshold(h, cfg))
    ensures n.depth == cfg.dMax || n.depth == cfg.cK ==> r.leaf
    decreases |n.kCandidates|
  {
    var hg := StopWeight(n.depth, cfg.dMax, Threshold(h, cfg));
    var sub := FirstSub(n, h, cfg);
    if n.depth == cfg.dMax || n.depth == cfg.cK || cfg.draws.uniform(p) > Threshold(h, cfg) then
      n.(hg := hg, sub := Drawn(sub, cfg, p), leaf := true)
    else
      var k := SplitFeature(n, cfg, p);
      var cands := RemoveFeature(n.kCandidates, k);
      if cands.Err? then n.(hg := hg, sub := sub)
      else
        var slots := GenSlots(n, cands.value, cfg);
        var kids := seq(|slots|, j requires 0 <= j < |slots| => GenTree(slots[j], ChildRef(h, j), cfg, p + [j]));
        n.(hg := hg, sub := sub, k := k, leaf := false, children := kids)
  }

  /** The first exception `_gen_params_recursion` raises: AttributeError when
      a reference is given and it or the node has no sub-model, ValueError
      when the candidates to draw from weigh 0 in total or the fixed feature
      is not a candidate, then IndexError or the children's errors, slot by slot. */
  function GenError<S, H>(n: Node<S>, h: Option<Node<S>>, cfg: GenCfg<S, H>, p: seq<nat>): (e: Option<Error>)
    ensures e.Some? ==> e.value in {ValueError, IndexError, AttributeError}
    decreases |n.kCandidates|, 1
  {
    if h.Some? && (h.value.sub.None? || n.sub.None?) then Some(AttributeError)
    else if n.depth == cfg.dMax || n.depth == cfg.cK || cfg.draws.uniform(p) > Threshold(h, cfg) then None
    else if RemoveFeature(n.kCandidates, SplitFeature(n, cfg, p)).Err? then Some(ValueError)
    else GenKidsError(n, h, cfg, p, 0)
  }

  /** The first exception raised by the child slots from slot `i` on. */
  function GenKidsError<S, H>(n: Node<S>, h: Option<Node<S>>, cfg: GenCfg<S, H>, p: seq<nat>, i: nat): (e: Option<Error>)
    requires RemoveFeature(n.kCandidates, SplitFeature(n, cfg, p)).Ok?
    ensures e.Some? ==> e.value in {ValueError, IndexError, AttributeError}
    decreases |n.kCandidates|, 0, |n.children| + cfg.c - i
  {
    var slots := GenSlots(n, RemoveFeature(n.kCandidates, SplitFeature(n, cfg, p)).value, cfg);
    if i >= |slots| then None
    else if h.Some? && h.value.children != [] && i >= |h.value.children| then Some(IndexError)
    else
      var e := GenError(slots[i], ChildRef(h, i), cfg, p + [i]);
      if e.Some? then e else GenKidsError(n, h, cfg, p, i + 1)
  }

  /** `_gen_params_recursion` as a whole: the generated tree or the first
      exception. */
  function GenParamsRecursion<S, H>(n: Node<S>, h: Option<Node<S>>, cfg: GenCfg<S, H>): (r: Result<Node<S>>)
    ensures r.Err? ==> r.error in {ValueError, IndexError, AttributeError}
    ensures r.Ok? ==> r.value == GenTree(n, h, cfg, [])
  {
    var e := GenError(n, h, cfg, []);
    if e.Some? then Err(e.value) else Ok(GenTree(n, h, cfg, []))
  }

  /** The slots of a shaped node are shaped, one level deeper, and keep
      their sub-models. */
  lemma GenSlotsShaped<S, H>(n: Node<S>, cands: seq<nat>, cfg: GenCfg<S, H>)
    requires Shaped(n, cfg.c)
    ensures var r := GenSlots(n, cands, cfg);
            && |r| == cfg.c
            && forall j :: 0 <= j < cfg.c ==>
                 Shaped(r[j], cfg.c) && r[j].depth == n.depth + 1 && r[j].kCandidates == cands
                 && (HasSubs(n) ==> HasSubs(r[j]))
  {
    var r := GenSlots(n, cands, cfg);
    forall j | 0 <= j < cfg.c ensures Shaped(r[j], cfg.c) && (HasSubs(n) ==> HasSubs(r[j])) {
      if n.children != [] {
        var m := n.children[j];
        assert Shaped(m, cfg.c) && (HasSubs(n) ==> HasSubs(m));
        assert r[j] == m.(kCandidates := cands);
      }
    }
  }

  /** Child `j` of a node that `GenTree` splits. */
  lemma GenKid<S, H>(n: Node<S>, h: Option<Node<S>>, cfg: GenCfg<S, H>, p: seq<nat>, j: nat)
    requires !(n.depth == cfg.dMax || n.depth == cfg.cK || cfg.draws.uniform(p) > Threshold(h, cfg))
    requires RemoveFeature(n.kCandidates, SplitFeature(n, cfg, p)).Ok?
    requires j < |GenSlots(n, RemoveFeature(n.kCandidates, SplitFeature(n, cfg, p)).value, cfg)|
    ensures var slots := GenSlots(n, RemoveFeature(n.kCandidates, SplitFeature(n, cfg, p)).value, cfg);
            var m := GenTree(n, h, cfg, p);
            && !m.leaf && m.k == SplitFeature(n, cfg, p) && m.sub == FirstSub(n, h, cfg)
            && |m.children| == |slots|
            && m.children[j] == GenTree(slots[j], ChildRef(h, j), cfg, p + [j])
  {
  }

  /** Generation leaves every node shaped: it fills all slots of a node it
      splits and gives the node a split feature. */
  lemma {:induction false} GenTreeShaped<S, H>(n: Node<S>, h: Option<Node<S>>, cfg: GenCfg<S, H>, p: seq<nat>)
    requires cfg.c > 0 && Shaped(n, cfg.c)
    ensures Shaped(GenTree(n, h, cfg, p), cfg.c)
    decreases |n.kCandidates|, 1
  {
    var m := GenTree(n, h, cfg, p);
    if !(n.depth == cfg.dMax || n.depth == cfg.cK || cfg.draws.uniform(p) > Threshold(h, cfg))
       && RemoveFeature(n.kCandidates, SplitFeature(n, cfg, p)).Ok? {
      forall j | 0 <= j < cfg.c
        ensures j < |m.children| && m.children[j].depth == n.depth + 1 && Shaped(m.children[j], cfg.c)
      {
        GenKidShaped(n, h, cfg, p, j);
      }
      GenKid(n, h, cfg, p, 0);
      ShapedFromKids(m, cfg.c);
    }
  }

  lemma {:induction false} GenKidShaped<S, H>(n: Node<S>, h: Option<Node<S>>, cfg: GenCfg<S, H>, p: seq<nat>, j: nat)
    requires Shaped(n, cfg.c)
    requires !(n.depth == cfg.dMax || n.depth == cfg.cK || cfg.draws.uniform(p) > Threshold(h, cfg))
    requires RemoveFeature(n.kCandidates, SplitFeature(n, cfg, p)).Ok?
    requires 0 < cfg.c && j < cfg.c
    ensures var m := GenTree(n, h, cfg, p);
            j < |m.children| && m.children[j].depth == n.depth + 1 && Shaped(m.children[j], cfg.c)
    decreases |n.kCandidates|, 0
  {
    var cands := RemoveFeature(n.kCandidates, SplitFeature(n, cfg, p)).value;
    var slots := GenSlots(n, cands, cfg);
    GenSlotsShaped(n, cands, cfg);
    GenTreeShaped(slots[j], ChildRef(h, j), cfg, p + [j]);
    GenKid(n, h, cfg, p, j);
  }

  /** Every node at depth `b` or deeper is a leaf, and so is every node
      below it that is still reachable through internal nodes. */
  ghost predicate StopsBy<S>(n: Node<S>, b: nat)
  {
    && (n.depth >= b ==> n.leaf)
    && (!n.leaf ==> forall i :: 0 <= i < |n.children| ==> StopsBy(n.children[i], b))
  }

  /** Generation forces a leaf at depth `c_d_max` and at depth `c_k`: no
      internal node of the generated tree lies that deep. */
  lemma {:induction false} GenTreeStops<S, H>(n: Node<S>, h: Option<Node<S>>, cfg: GenCfg<S, H>, p: seq<nat>, b: nat)
    requires Shaped(n, cfg.c) && (b == cfg.dMax || b == cfg.cK) && n.depth <= b
    requires GenError(n, h, cfg, p).None?
    ensures StopsBy(GenTree(n, h, cfg, p), b)
    decreases |n.kCandidates|, 1
  {
    var m := GenTree(n, h, cfg, p);
    if !(n.depth == cfg.dMax || n.depth == cfg.cK || cfg.draws.uniform(p) > Threshold(h, cfg)) {
      forall j | 0 <= j < |m.children| ensures StopsBy(m.children[j], b) {
        GenKidStops(n, h, cfg, p, b, j);
      }
    }
  }

  lemma {:induction false} GenKidStops<S, H>(n: Node<S>, h: Option<Node<S>>, cfg: GenCfg<S, H>, p: seq<nat>, b: nat, j: nat)
    requires Shaped(n, cfg.c) && (b == cfg.dMax || b == cfg.cK) && n.depth < b
    requires !(n.depth == cfg.dMax || n.depth == cfg.cK || cfg.draws.uniform(p) > Threshold(h, cfg))
    requires RemoveFeature(n.kCandidates, SplitFeature(n, cfg, p)).Ok?
    requires GenKidsError(n, h, cfg, p, 0).None?
    requires j < cfg.c
    ensures j < |GenTree(n, h, cfg, p).children| && StopsBy(GenTree(n, h, cfg, p).children[j], b)
    decreases |n.kCandidates|, 0
  {
    var cands := RemoveFeature(n.kCandidates, SplitFeature(n, cfg, p)).value;
    var slots := GenSlots(n, cands, cfg);
    assert Shaped(slots[j], cfg.c) && slots[j].depth <= b
           && GenError(slots[j], ChildRef(h, j), cfg, p + [j]).None? by {
      GenSlotsShaped(n, cands, cfg);
      GenKidsErrorNone(n, h, cfg, p, 0, j);
    }
    GenTreeStops(slots[j], ChildRef(h, j), cfg, p + [j], b);
    GenKid(n, h, cfg, p, j);
  }

  /** When the children raise nothing from slot `i` on, slot `j >= i` has a
      reference child (or none) and raises nothing. */
  lemma {:induction false} GenKidsErrorNone<S, H>(n: Node<S>, h: Option<Node<S>>, cfg: GenCfg<S, H>, p: seq<nat>, i: nat, j: nat)
    requires RemoveFeature(n.kCandidates, SplitFeature(n, cfg, p)).Ok?
    requires GenKidsError(n, h, cfg, p, i).None?
    requires i <= j < |GenSlots(n, RemoveFeature(n.kCandidates, SplitFeature(n, cfg, p)).value, cfg)|
    ensures h.Some? && h.value.children != [] ==> j < |h.value.children|
    ensures GenError(GenSlots(n, RemoveFeature(n.kCandidates, SplitFeature(n, cfg, p)).value, cfg)[j],
                     ChildRef(h, j), cfg, p + [j]).None?
    decreases j - i
  {
    if i < j {
      GenKidsErrorNone(n, h, cfg, p, i + 1, j);
    }
  }

  /** A generation that raises nothing from a shaped node with well-kept
      candidates leaves a consistent tree: every internal node splits on one
      of its candidates and hands its children the rest; with a sub-model
      at every node before, there is one at every node after. */
  lemma {:induction false} GenTreeConsistent<S, H>(n: Node<S>, h: Option<Node<S>>, cfg: GenCfg<S, H>, p: seq<nat>)
    requires cfg.c > 0 && Shaped(n, cfg.c) && CandidatesOk(n, cfg.cK)
    requires GenError(n, h, cfg, p).None?
    ensures Consistent(GenTree(n, h, cfg, p), cfg.cK)
    ensures HasSubs(n) ==> HasSubs(GenTree(n, h, cfg, p))
    decreases |n.kCandidates|, 1
  {
    var m := GenTree(n, h, cfg, p);
    if !(n.depth == cfg.dMax || n.depth == cfg.cK || cfg.draws.uniform(p) > Threshold(h, cfg)) {
      var k := SplitFeature(n, cfg, p).value;
      var cands := RemoveFeature(n.kCandidates, SplitFeature(n, cfg, p)).value;
      forall j | 0 <= j < cfg.c
        ensures j < |m.children| && m.children[j].kCandidates == cands && Consistent(m.children[j], cfg.cK)
        ensures HasSubs(n) ==> HasSubs(m.children[j])
      {
        GenKidConsistent(n, h, cfg, p, j);
      }
      GenKid(n, h, cfg, p, 0);
    }
  }

  lemma {:induction false} GenKidConsistent<S, H>(n: Node<S>, h: Option<Node<S>>, cfg: GenCfg<S, H>, p: seq<nat>, j: nat)
    requires Shaped(n, cfg.c) && CandidatesOk(n, cfg.cK)
    requires !(n.depth == cfg.dMax || n.depth == cfg.cK || cfg.draws.uniform(p) > Threshold(h, cfg))
    requires RemoveFeature(n.kCandidates, SplitFeature(n, cfg, p)).Ok?
    requires GenKidsError(n, h, cfg, p, 0).None?
    requires 0 < cfg.c && j < cfg.c
    ensures var m := GenTree(n, h, cfg, p);
            && j < |m.children|
            && m.children[j].kCandidates == RemoveFeature(n.kCandidates, SplitFeature(n, cfg, p)).value
            && Consistent(m.children[j], cfg.cK)
            && (HasSubs(n) ==> HasSubs(m.children[j]))
    decreases |n.kCandidates|, 0
  {
    var cands := RemoveFeature(n.kCandidates, SplitFeature(n, cfg, p)).value;
    var slots := GenSlots(n, cands, cfg);
    assert Shaped(slots[j], cfg.c) && CandidatesOk(slots[j], cfg.cK) && (HasSubs(n) ==> HasSubs(slots[j]))
           && GenError(slots[j], ChildRef(h, j), cfg, p + [j]).None? by {
      RemoveDistinct(n.kCandidates, SplitFeature(n, cfg, p).value);
      GenSlotsShaped(n, cands, cfg);
      GenKidsErrorNone(n, h, cfg, p, 0, j);
    }
    GenTreeConsistent(slots[j], ChildRef(h, j), cfg, p + [j]);
    GenKid(n, h, cfg, p, j);
  }

  /** The reference a generator is given is usable: none, or a shaped tree
      with a sub-model at every node while the node also has one at every
      node. */
  ghost predicate RefUsable<S>(n: Node<S>, h: Option<Node<S>>, c: nat)
  {
    h.None? || (HasSubs(n) && Shaped(h.value, c) && HasSubs(h.value))
  }

  /** With `feature_fix` off and every feature of positive weight,
      generating from a shaped node with well-kept candidates never raises,
      whatever the draws, when the reference is usable: a node that is not
      forced to stop lies above depth `c_k`, so it has a candidate to draw
      and remove. */
  lemma {:induction false} GenSucceeds<S, H>(n: Node<S>, h: Option<Node<S>>, cfg: GenCfg<S, H>, p: seq<nat>)
    requires !cfg.featureFix && PositiveWeights(cfg) && cfg.c > 0 && Shaped(n, cfg.c) && CandidatesOk(n, cfg.cK)
    requires RefUsable(n, h, cfg.c)
    ensures GenError(n, h, cfg, p).None?
    decreases |n.kCandidates|, 1
  {
    if !(n.depth == cfg.dMax || n.depth == cfg.cK || cfg.draws.uniform(p) > Threshold(h, cfg)) {
      ChooseSome(n.kCandidates, cfg, cfg.draws.pick(p));
      var slots := GenSlots(n, RemoveFeature(n.kCandidates, SplitFeature(n, cfg, p)).value, cfg);
      forall j | 0 <= j < |slots| ensures GenError(slots[j], ChildRef(h, j), cfg, p + [j]).None? {
        GenKidSucceeds(n, h, cfg, p, j);
      }
      GenKidsFromKids(n, h, cfg, p, slots, 0);
    }
  }

  lemma {:induction false} GenKidSucceeds<S, H>(n: Node<S>, h: Option<Node<S>>, cfg: GenCfg<S, H>, p: seq<nat>, j: nat)
    requires !cfg.featureFix && PositiveWeights(cfg) && cfg.c > 0 && Shaped(n, cfg.c) && CandidatesOk(n, cfg.cK)
    requires RefUsable(n, h, cfg.c)
    requires RemoveFeature(n.kCandidates, SplitFeature(n, cfg, p)).Ok?
    requires j < cfg.c
    ensures var slots := GenSlots(n, RemoveFeature(n.kCandidates, SplitFeature(n, cfg, p)).value, cfg);
            j < |slots| && GenError(slots[j], ChildRef(h, j), cfg, p + [j]).None?
    decreases |n.kCandidates|, 0
  {
    var cands := RemoveFeature(n.kCandidates, SplitFeature(n, cfg, p)).value;
    var slots := GenSlots(n, cands, cfg);
    assert Shaped(slots[j], cfg.c) && CandidatesOk(slots[j], cfg.cK)
           && RefUsable(slots[j], ChildRef(h, j), cfg.c) by {
      RemoveDistinct(n.kCandidates, SplitFeature(n, cfg, p).value);
      GenSlotsShaped(n, cands, cfg);
    }
    GenSucceeds(slots[j], ChildRef(h, j), cfg, p + [j]);
  }

  /** The slots' exceptions, read slot by slot from `i`, are none when the
      reference has a child for every slot and no slot raises one. */
  lemma {:induction false} GenKidsFromKids<S, H>(n: Node<S>, h: Option<Node<S>>, cfg: GenCfg<S, H>, p: seq<nat>,
                                                slots: seq<Node<S>>, i: nat)
    requires RemoveFeature(n.kCandidates, SplitFeature(n, cfg, p)).Ok?
    requires slots == GenSlots(n, RemoveFeature(n.kCandidates, SplitFeature(n, cfg, p)).value, cfg)
    requires h.Some? && h.value.children != [] ==> |slots| <= |h.value.children|
    requires forall j :: i <= j < |slots| ==> GenError(slots[j], ChildRef(h, j), cfg, p + [j]).None?
    ensures GenKidsError(n, h, cfg, p, i).None?
    decreases |slots| - i
  {
    if i < |slots| {
      GenKidsFromKids(n, h, cfg, p, slots, i + 1);
    }
  }

  /** The tree `_gen_params_recursion_tree_fix(node, h_node, feature_fix)`
      leaves when nothing interrupts it, for a node whose candidate list has
      just been set to `cands`.  Stopping weights and sub-models are set as
      in `GenTree`; a leaf has its parameters drawn; an internal node keeps
      being one, takes a drawn (or fixed) feature and passes the remaining
      candidates, and the same reference node, to the children it has.  No
      node is added and no flag changes. */
  function FixTree<S, H>(n: Node<S>, cands: seq<nat>, h: Option<Node<S>>, cfg: GenCfg<S, H>, p: seq<nat>): (r: Node<S>)
    ensures r.depth == n.depth && r.kCandidates == cands
    ensures r.hg == StopWeight(n.depth, cfg.dMax, Threshold(h, cfg))
    ensures Outline(r) == Outline(n)
    decreases n
  {
    var hg := StopWeight(n.depth, cfg.dMax, Threshold(h, cfg));
    var sub := FirstSub(n, h, cfg);
    if n.leaf then
      n.(kCandidates := cands, hg := hg, sub := Drawn(sub, cfg, p))
    else
      var k := SplitFeature(n.(kCandidates := cands), cfg, p);
      var rest := RemoveFeature(cands, k);
      if rest.Err? then n.(kCandidates := cands, hg := hg, sub := sub)
      else
        var kids := seq(|n.children|, j requires 0 <= j < |n.children| =>
                          FixTree(n.children[j], rest.value, h, cfg, p + [j]));
        var r := n.(kCandidates := cands, hg := hg, sub := sub, k := k, children := kids);
        assert Outline(r) == Outline(n) by {
          assert forall j :: 0 <= j < |n.children| ==> Outline(r).children[j] == Outline(n).children[j];
        }
        r
  }

  /** The first exception the tree-fixed generator raises: AttributeError
      when a reference is given and it or the node has no sub-model,
      ValueError when an internal node's candidates to draw from weigh 0 in
      total or its fixed feature is not a candidate, then the children's errors in slot order. */
  function FixError<S, H>(n: Node<S>, cands: seq<nat>, h: Option<Node<S>>, cfg: GenCfg<S, H>, p: seq<nat>): (e: Option<Error>)
    ensures e.Some? ==> e.value in {ValueError, AttributeError}
    decreases n, 1
  {
    if h.Some? && (h.value.sub.None? || n.sub.None?) then Some(AttributeError)
    else if n.leaf then None
    else if RemoveFeature(cands, SplitFeature(n.(kCandidates := cands), cfg, p)).Err? then Some(ValueError)
    else FixKidsError(n, cands, h, cfg, p, 0)
  }

  function FixKidsError<S, H>(n: Node<S>, cands: seq<nat>, h: Option<Node<S>>, cfg: GenCfg<S, H>, p: seq<nat>, i: nat): (e: Option<Error>)
    requires RemoveFeature(cands, SplitFeature(n.(kCandidates := cands), cfg, p)).Ok?
    ensures e.Some? ==> e.value in {ValueError, AttributeError}
    decreases n, 0, |n.children| - i
  {
    if i >= |n.children| then None
    else
      var rest := RemoveFeature(cands, SplitFeature(n.(kCandidates := cands), cfg, p)).value;
      var e := FixError(n.children[i], rest, h, cfg, p + [i]);
      if e.Some? then e else FixKidsError(n, cands, h, cfg, p, i + 1)
  }

  /** `_gen_params_recursion_tree_fix` from a node with its own candidate
      list: the regenerated tree or the first exception. */
  function TreeFixRecursion<S, H>(n: Node<S>, h: Option<Node<S>>, cfg: GenCfg<S, H>): (r: Result<Node<S>>)
    ensures r.Err? ==> r.error in {ValueError, AttributeError}
    ensures r.Ok? ==> Outline(r.value) == Outline(n)
  {
    var e := FixError(n, n.kCandidates, h, cfg, []);
    if e.Some? then Err(e.value) else Ok(FixTree(n, n.kCandidates, h, cfg, []))
  }

  /** Child `j` of a node that `FixTree` keeps internal. */
  lemma FixKid<S, H>(n: Node<S>, cands: seq<nat>, h: Option<Node<S>>, cfg: GenCfg<S, H>, p: seq<nat>, j: nat)
    requires !n.leaf && RemoveFeature(cands, SplitFeature(n.(kCandidates := cands), cfg, p)).Ok?
    requires j < |n.children|
    ensures var m := FixTree(n, cands, h, cfg, p);
            && m.k == SplitFeature(n.(kCandidates := cands), cfg, p) && m.sub == FirstSub(n, h, cfg)
            && |m.children| == |n.children|
            && m.children[j] == FixTree(n.children[j], RemoveFeature(cands, m.k).value, h, cfg, p + [j])
  {
  }

  lemma {:induction false} FixKidsErrorNone<S, H>(n: Node<S>, cands: seq<nat>, h: Option<Node<S>>, cfg: GenCfg<S, H>,
                                                  p: seq<nat>, i: nat, j: nat)
    requires RemoveFeature(cands, SplitFeature(n.(kCandidates := cands), cfg, p)).Ok?
    requires FixKidsError(n, cands, h, cfg, p, i).None?
    requires i <= j < |n.children|
    ensures FixError(n.children[j], RemoveFeature(cands, SplitFeature(n.(kCandidates := cands), cfg, p)).value,
                     h, cfg, p + [j]).None?
    decreases j - i
  {
    if i < j {
      FixKidsErrorNone(n, cands, h, cfg, p, i + 1, j);
    }
  }

  /** A tree-fixed generation that raises nothing, from a shaped tree whose
      internal nodes have their children and whose root has a well-kept
      candidate list, leaves a well-formed tree. */
  lemma {:induction false} FixTreeWellFormed<S, H>(n: Node<S>, cands: seq<nat>, h: Option<Node<S>>, cfg: GenCfg<S, H>,
                                                   p: seq<nat>)
    requires Shaped(n, cfg.c) && Grown(n) && CandidatesOk(n.(kCandidates := cands), cfg.cK)
    requires FixError(n, cands, h, cfg, p).None?
    ensures WellFormed(FixTree(n, cands, h, cfg, p), cfg.c, cfg.cK)
    decreases n, 1
  {
    var m := FixTree(n, cands, h, cfg, p);
    if !n.leaf {
      var rest := RemoveFeature(cands, SplitFeature(n.(kCandidates := cands), cfg, p)).value;
      forall j | 0 <= j < |n.children|
        ensures m.children[j].depth == n.depth + 1 && m.children[j].kCandidates == rest
        ensures WellFormed(m.children[j], cfg.c, cfg.cK)
      {
        FixKidWellFormed(n, cands, h, cfg, p, j);
      }
      FixKid(n, cands, h, cfg, p, 0);
      ShapedFromKids(m, cfg.c);
    }
  }

  lemma {:induction false} FixKidWellFormed<S, H>(n: Node<S>, cands: seq<nat>, h: Option<Node<S>>, cfg: GenCfg<S, H>,
                                                  p: seq<nat>, j: nat)
    requires Shaped(n, cfg.c) && Grown(n) && CandidatesOk(n.(kCandidates := cands), cfg.cK) && !n.leaf
    requires RemoveFeature(cands, SplitFeature(n.(kCandidates := cands), cfg, p)).Ok?
    requires FixKidsError(n, cands, h, cfg, p, 0).None?
    requires j < |n.children|
    ensures var m := FixTree(n, cands, h, cfg, p);
            && |m.children| == |n.children| && m.children[j].depth == n.depth + 1
            && m.children[j].kCandidates == RemoveFeature(cands, SplitFeature(n.(kCandidates := cands), cfg, p)).value
            && WellFormed(m.children[j], cfg.c, cfg.cK)
    decreases n, 0
  {
    var k := SplitFeature(n.(kCandidates := cands), cfg, p).value;
    var rest := RemoveFeature(cands, Some(k)).value;
    var kid := n.children[j];
    assert Shaped(kid, cfg.c) && Grown(kid) && CandidatesOk(kid.(kCandidates := rest), cfg.cK)
           && FixError(kid, rest, h, cfg, p + [j]).None? by {
      RemoveDistinct(cands, k);
      FixKidsErrorNone(n, cands, h, cfg, p, 0, j);
    }
    FixTreeWellFormed(kid, rest, h, cfg, p + [j]);
    FixKid(n, cands, h, cfg, p, j);
  }

  /** With `feature_fix` off and every feature of positive weight, the
      tree-fixed generator from a shaped tree with a well-kept root
      candidate list raises nothing exactly when no internal node lies at
      depth `c_k` or deeper (such a node has no candidate left to draw). */
  lemma FixSucceeds<S, H>(n: Node<S>, cands: seq<nat>, h: Option<Node<S>>, cfg: GenCfg<S, H>, p: seq<nat>)
    requires !cfg.featureFix && PositiveWeights(cfg) && Shaped(n, cfg.c) && CandidatesOk(n.(kCandidates := cands), cfg.cK)
    requires h.None? || (h.value.sub.Some? && HasSubs(n))
    ensures FixError(n, cands, h, cfg, p).None? <==> StopsBy(n, cfg.cK)
  {
    if StopsBy(n, cfg.cK) {
      FixNoError(n, cands, h, cfg, p);
    }
    if FixError(n, cands, h, cfg, p).None? {
      FixErrorStops(n, cands, h, cfg, p);
    }
  }

  lemma {:induction false} FixNoError<S, H>(n: Node<S>, cands: seq<nat>, h: Option<Node<S>>, cfg: GenCfg<S, H>, p: seq<nat>)
    requires !cfg.featureFix && PositiveWeights(cfg) && Shaped(n, cfg.c) && CandidatesOk(n.(kCandidates := cands), cfg.cK)
    requires h.None? || (h.value.sub.Some? && HasSubs(n))
    requires StopsBy(n, cfg.cK)
    ensures FixError(n, cands, h, cfg, p).None?
    decreases n, 1
  {
    if !n.leaf {
      ChooseSome(cands, cfg, cfg.draws.pick(p));
      var rest := RemoveFeature(cands, SplitFeature(n.(kCandidates := cands), cfg, p)).value;
      forall j | 0 <= j < |n.children| ensures FixError(n.children[j], rest, h, cfg, p + [j]).None? {
        FixKidNoError(n, cands, h, cfg, p, j);
      }
      FixKidsFromKids(n, cands, h, cfg, p, 0);
    }
  }

  lemma {:induction false} FixKidNoError<S, H>(n: Node<S>, cands: seq<nat>, h: Option<Node<S>>, cfg: GenCfg<S, H>,
                                               p: seq<nat>, j: nat)
    requires !cfg.featureFix && PositiveWeights(cfg) && Shaped(n, cfg.c) && CandidatesOk(n.(kCandidates := cands), cfg.cK)
    requires h.None? || (h.value.sub.Some? && HasSubs(n))
    requires RemoveFeature(cands, SplitFeature(n.(kCandidates := cands), cfg, p)).Ok?
    requires !n.leaf && StopsBy(n, cfg.cK) && j < |n.children|
    ensures FixError(n.children[j], RemoveFeature(cands, SplitFeature(n.(kCandidates := cands), cfg, p)).value,
                     h, cfg, p + [j]).None?
    decreases n, 0
  {
    var k := SplitFeature(n.(kCandidates := cands), cfg, p).value;
    var rest := RemoveFeature(cands, Some(k)).value;
    var kid := n.children[j];
    assert CandidatesOk(kid.(kCandidates := rest), cfg.cK) by {
      RemoveDistinct(cands, k);
    }
    FixNoError(kid, rest, h, cfg, p + [j]);
  }

  /** The children's exceptions, read slot by slot from `i`, are none when
      no child raises one. */
  lemma {:induction false} FixKidsFromKids<S, H>(n: Node<S>, cands: seq<nat>, h: Option<Node<S>>, cfg: GenCfg<S, H>,
                                                 p: seq<nat>, i: nat)
    requires RemoveFeature(cands, SplitFeature(n.(kCandidates := cands), cfg, p)).Ok?
    requires forall j :: i <= j < |n.children| ==>
               FixError(n.children[j], RemoveFeature(cands, SplitFeature(n.(kCandidates := cands), cfg, p)).value,
                        h, cfg, p + [j]).None?
    ensures FixKidsError(n, cands, h, cfg, p, i).None?
    decreases |n.children| - i
  {
    if i < |n.children| {
      FixKidsFromKids(n, cands, h, cfg, p, i + 1);
    }
  }

  lemma {:induction false} FixErrorStops<S, H>(n: Node<S>, cands: seq<nat>, h: Option<Node<S>>, cfg: GenCfg<S, H>, p: seq<nat>)
    requires Shaped(n, cfg.c) && CandidatesOk(n.(kCandidates := cands), cfg.cK)
    requires FixError(n, cands, h, cfg, p).None?
    ensures StopsBy(n, cfg.cK)
    decreases n, 1
  {
    if !n.leaf {
      forall j | 0 <= j < |n.children| ensures StopsBy(n.children[j], cfg.cK) {
        FixKidStops(n, cands, h, cfg, p, j);
      }
    }
  }

  lemma {:induction false} FixKidStops<S, H>(n: Node<S>, cands: seq<nat>, h: Option<Node<S>>, cfg: GenCfg<S, H>,
                                             p: seq<nat>, j: nat)
    requires Shaped(n, cfg.c) && CandidatesOk(n.(kCandidates := cands), cfg.cK) && !n.leaf
    requires RemoveFeature(cands, SplitFeature(n.(kCandidates := cands), cfg, p)).Ok?
    requires FixKidsError(n, cands, h, cfg, p, 0).None?
    requires j < |n.children|
    ensures StopsBy(n.children[j], cfg.cK)
    decreases n, 0
  {
    var k := SplitFeature(n.(kCandidates := cands), cfg, p).value;
    var rest := RemoveFeature(cands, Some(k)).value;
    var kid := n.children[j];
    assert Shaped(kid, cfg.c) && CandidatesOk(kid.(kCandidates := rest), cfg.cK)
           && FixError(kid, rest, h, cfg, p + [j]).None? by {
      RemoveDistinct(cands, k);
      FixKidsErrorNone(n, cands, h, cfg, p, 0, j);
    }
    FixErrorStops(kid, rest, h, cfg, p + [j]);
  }

  /** A node that is to split and has to draw its feature from candidates
      of total weight 0 makes `_gen_params_recursion` raise ValueError
      there. */
  lemma GenZeroMass<S, H>(n: Node<S>, h: Option<Node<S>>, cfg: GenCfg<S, H>, p: seq<nat>)
    requires h.None? || (h.value.sub.Some? && n.sub.Some?)
    requires !(n.depth == cfg.dMax || n.depth == cfg.cK || cfg.draws.uniform(p) > Threshold(h, cfg))
    requires !cfg.featureFix || n.k.None?
    requires Mass(cfg.kProbVec, n.kCandidates) == 0.0
    ensures GenError(n, h, cfg, p) == Some(ValueError)
  {
  }

  /** The same for an internal node of the tree-fixed generator. */
  lemma FixZeroMass<S, H>(n: Node<S>, cands: seq<nat>, h: Option<Node<S>>, cfg: GenCfg<S, H>, p: seq<nat>)
    requires h.None? || (h.value.sub.Some? && n.sub.Some?)
    requires !n.leaf && (!cfg.featureFix || n.k.None?)
    requires Mass(cfg.kProbVec, cands) == 0.0
    ensures FixError(n, cands, h, cfg, p) == Some(ValueError)
  {
  }

  /** A feature of weight 0 can make generating afresh raise, so the
      positive weights of `GenSucceeds` are needed: with `c_k = 2`,
      `h_k_prob_vec = [1, 0]`, `h_g = 1`, `c_d_max = 2`, two children and no
      reference, a one-leaf root splits on feature 0 and its first child,
      which must also split, draws from the candidate list [1] of weight 0. */
  lemma ZeroWeightRaises<S, H>(fam: GenSub<S, H>, hp: H, root: Node<S>, draws: Draws)
    requires root.depth == 0 && root.kCandidates == [0, 1] && root.children == []
    requires draws.uniform([]) == 0.0 && draws.uniform([0]) == 0.0
    ensures GenParamsRecursion(root, None, GenCfg(2, 2, 2, [1.0, 0.0], 1.0, fam, hp, false, draws)) == Err(ValueError)
  {
    ZeroWeightRootError(root, GenCfg(2, 2, 2, [1.0, 0.0], 1.0, fam, hp, false, draws));
  }

  /** The exception of the example of `ZeroWeightRaises`, at the root. */
  lemma {:induction false} ZeroWeightRootError<S, H>(root: Node<S>, cfg: GenCfg<S, H>)
    requires root.depth == 0 && root.kCandidates == [0, 1] && root.children == []
    requires cfg.c == 2 && cfg.dMax == 2 && cfg.cK == 2 && cfg.kProbVec == [1.0, 0.0] && cfg.g == 1.0 && !cfg.featureFix
    requires cfg.draws.uniform([]) == 0.0 && cfg.draws.uniform([0]) == 0.0
    ensures GenError(root, None, cfg, []) == Some(ValueError)
  {
    assert RemoveFeature(root.kCandidates, SplitFeature(root, cfg, [])) == Ok([1]) by {
      ZeroWeightFirstDraw(cfg.draws.pick([]));
      RemoveFirst();
    }
    var slots := GenSlots(root, [1], cfg);
    assert GenError(slots[0], ChildRef(None, 0), cfg, [] + [0]) == Some(ValueError) by {
      assert [] + [0] == [0];
      ZeroWeightChildError(slots[0], cfg);
    }
    assert GenKidsError(root, None, cfg, [], 0) == Some(ValueError);
  }

  /** The first child in the example of `ZeroWeightRaises` splits and draws
      from [1], of weight 0. */
  lemma ZeroWeightChildError<S, H>(n: Node<S>, cfg: GenCfg<S, H>)
    requires n.depth == 1 && n.kCandidates == [1] && n.k.None?
    requires cfg.dMax == 2 && cfg.cK == 2 && cfg.kProbVec == [1.0, 0.0] && cfg.g == 1.0
    requires cfg.draws.uniform([0]) == 0.0
    ensures GenError(n, None, cfg, [0]) == Some(ValueError)
  {
    assert Mass(cfg.kProbVec, [1]) == 0.0 by {
      assert [1][1..] == [];
    }
    GenZeroMass(n, None, cfg, [0]);
  }

  /** Removing feature 0 from [0, 1] leaves [1]. */
  lemma RemoveFirst()
    ensures Remove([0, 1], 0) == Ok([1])
  {
    var r := Remove([0, 1], 0).value;
    assert multiset([0, 1]) - multiset{0} == multiset{1};
    assert r[0] in multiset(r) && r == [r[0]];
  }

  /** Drawing from [0, 1] with weights [1, 0] gives feature 0. */
  lemma ZeroWeightFirstDraw(pick: nat)
    ensures Choose([0, 1], [1.0, 0.0], pick) == Some(0)
  {
    assert [0, 1][1..] == [1] && [1][1..] == [];
    assert Likely([1.0, 0.0], [0, 1]) == [0];
    assert Mass([1.0, 0.0], [0, 1]) == 1.0;
  }

  /** A new child made by `_set_params_recursion`: one level deeper, with
      the given candidates, stopping weight `h_g` and a new sub-model. */
  function ParamsChild<S, H>(n: Node<S>, cands: seq<nat>, cfg: GenCfg<S, H>): (r: Node<S>)
    ensures r == NewNode(n.depth + 1, cands, cfg.g, Some(cfg.fam.create(cfg.hp)), false)
  {
    NewNode(n.depth + 1, cands, cfg.g, Some(cfg.fam.create(cfg.hp)), false)
  }

  /** The tree `_set_params_recursion(node, original_tree_node)` leaves when
      nothing interrupts it.  Where the original is a leaf the node becomes a
      leaf holding the original's parameters (with stopping weight 0 at
      depth `c_d_max`); elsewhere it splits on the original's feature and all
      its child slots are replaced by new nodes, each copied from the
      original's child in the same slot. */
  function ParamsTree<S, H>(n: Node<S>, orig: Node<S>, cfg: GenCfg<S, H>): (r: Node<S>)
    ensures r.depth == n.depth && r.kCandidates == n.kCandidates
    ensures r.leaf == orig.leaf || RemoveFeature(n.kCandidates, orig.k).Err?
    decreases orig
  {
    if orig.leaf then
      var sub := if n.sub.Some? && orig.sub.Some? then Some(cfg.fam.paramsFrom(n.sub.value, orig.sub.value)) else n.sub;
      n.(sub := sub, hg := if n.depth == cfg.dMax then 0.0 else n.hg, leaf := true)
    else
      var cands := RemoveFeature(n.kCandidates, orig.k);
      if cands.Err? then n.(k := orig.k)
      else
        var kids := seq(cfg.c, i requires 0 <= i < cfg.c =>
                          if i < |orig.children| then ParamsTree(ParamsChild(n, cands.value, cfg), orig.children[i], cfg)
                          else ParamsChild(n, cands.value, cfg));
        n.(k := orig.k, leaf := false, children := kids)
  }

  /** The first exception of `_set_params_recursion`: AttributeError for an
      original leaf without a sub-model (or a node without one) and for an
      original internal node whose child slots are unset, ValueError when the
      original's feature is not a candidate, IndexError when the original
      has fewer slots than `c_num_children`. */
  function ParamsError<S, H>(n: Node<S>, orig: Node<S>, cfg: GenCfg<S, H>): (e: Option<Error>)
    ensures e.Some? ==> e.value in {ValueError, IndexError, AttributeError}
    decreases orig, 1
  {
    if orig.leaf then (if n.sub.None? || orig.sub.None? then Some(AttributeError) else None)
    else if RemoveFeature(n.kCandidates, orig.k).Err? then Some(ValueError)
    else ParamsKidsError(n, orig, cfg, 0)
  }

  function ParamsKidsError<S, H>(n: Node<S>, orig: Node<S>, cfg: GenCfg<S, H>, i: nat): (e: Option<Error>)
    requires !orig.leaf && RemoveFeature(n.kCandidates, orig.k).Ok?
    ensures e.Some? ==> e.value in {ValueError, IndexError, AttributeError}
    decreases orig, 0, cfg.c - i
  {
    if i >= cfg.c then None
    else if orig.children == [] then Some(AttributeError)
    else if i >= |orig.children| then Some(IndexError)
    else
      var e := ParamsError(ParamsChild(n, RemoveFeature(n.kCandidates, orig.k).value, cfg), orig.children[i], cfg);
      if e.Some? then e else ParamsKidsError(n, orig, cfg, i + 1)
  }

  /** `set_params(root)`: a new depth-0 leaf over all `c_k` features with
      stopping weight `h_g` and a new sub-model, into which `root` is
      copied. */
  function SetParamsRecursion<S, H>(root: Node<S>, cfg: GenCfg<S, H>): (r: Result<Node<S>>)
    ensures r.Err? ==> r.error in {ValueError, IndexError, AttributeError}
  {
    var n := NewNode(0, Range(cfg.cK), cfg.g, Some(cfg.fam.create(cfg.hp)), true);
    var e := ParamsError(n, root, cfg);
    if e.Some? then Err(e.value) else Ok(ParamsTree(n, root, cfg))
  }

  /** The original's features fit the candidate lists: every internal node
      of the original splits on a candidate and has at least `c` child
      slots, filled, and every leaf of it has a sub-model. */
  ghost predicate ParamsFit<S>(orig: Node<S>, cands: seq<nat>, c: nat)
    decreases orig
  {
    if orig.leaf then orig.sub.Some?
    else
      && orig.k.Some? && orig.k.value in cands
      && (c > 0 ==> orig.children != [])
      && |orig.children| >= c
      && forall i :: 0 <= i < c ==> ParamsFit(orig.children[i], Remove(cands, orig.k.value).value, c)
  }

  lemma ParamsKid<S, H>(n: Node<S>, orig: Node<S>, cfg: GenCfg<S, H>, i: nat)
    requires !orig.leaf && RemoveFeature(n.kCandidates, orig.k).Ok?
    requires i < cfg.c && i < |orig.children|
    ensures var m := ParamsTree(n, orig, cfg);
            && !m.leaf && m.k == orig.k && |m.children| == cfg.c
            && m.children[i] == ParamsTree(ParamsChild(n, RemoveFeature(n.kCandidates, orig.k).value, cfg),
                                           orig.children[i], cfg)
  {
  }

  lemma {:induction false} ParamsKidsErrorNone<S, H>(n: Node<S>, orig: Node<S>, cfg: GenCfg<S, H>, i: nat, j: nat)
    requires !orig.leaf && RemoveFeature(n.kCandidates, orig.k).Ok?
    requires ParamsKidsError(n, orig, cfg, i).None?
    requires i <= j < cfg.c
    ensures orig.children != [] && j < |orig.children|
    ensures ParamsError(ParamsChild(n, RemoveFeature(n.kCandidates, orig.k).value, cfg), orig.children[j], cfg).None?
    decreases j - i
  {
    if i < j {
      ParamsKidsErrorNone(n, orig, cfg, i + 1, j);
    }
  }

  /** From a node with a sub-model, the copy raises nothing exactly when the
      original fits the node's candidates. */
  lemma ParamsSucceeds<S, H>(n: Node<S>, orig: Node<S>, cfg: GenCfg<S, H>)
    requires n.sub.Some?
    ensures ParamsError(n, orig, cfg).None? <==> ParamsFit(orig, n.kCandidates, cfg.c)
  {
    if ParamsFit(orig, n.kCandidates, cfg.c) {
      ParamsNoError(n, orig, cfg);
    }
    if ParamsError(n, orig, cfg).None? {
      ParamsErrorFits(n, orig, cfg);
    }
  }

  lemma {:induction false} ParamsNoError<S, H>(n: Node<S>, orig: Node<S>, cfg: GenCfg<S, H>)
    requires n.sub.Some? && ParamsFit(orig, n.kCandidates, cfg.c)
    ensures ParamsError(n, orig, cfg).None?
    decreases orig, 1
  {
    if !orig.leaf {
      var cands := Remove(n.kCandidates, orig.k.value).value;
      var child := ParamsChild(n, cands, cfg);
      forall j | 0 <= j < cfg.c ensures ParamsError(child, orig.children[j], cfg).None? {
        ParamsNoError(child, orig.children[j], cfg);
      }
      ParamsKidsFromKids(n, orig, cfg, 0);
    }
  }

  /** The children's exceptions, read slot by slot from `i`, are none when
      every slot exists and no child raises one. */
  lemma {:induction false} ParamsKidsFromKids<S, H>(n: Node<S>, orig: Node<S>, cfg: GenCfg<S, H>, i: nat)
    requires !orig.leaf && RemoveFeature(n.kCandidates, orig.k).Ok?
    requires (i < cfg.c ==> orig.children != []) && |orig.children| >= cfg.c
    requires forall j :: i <= j < cfg.c ==>
               ParamsError(ParamsChild(n, RemoveFeature(n.kCandidates, orig.k).value, cfg), orig.children[j], cfg).None?
    ensures ParamsKidsError(n, orig, cfg, i).None?
    decreases cfg.c - i
  {
    if i < cfg.c {
      ParamsKidsFromKids(n, orig, cfg, i + 1);
    }
  }

  lemma {:induction false} ParamsErrorFits<S, H>(n: Node<S>, orig: Node<S>, cfg: GenCfg<S, H>)
    requires ParamsError(n, orig, cfg).None?
    ensures ParamsFit(orig, n.kCandidates, cfg.c)
    decreases orig, 1
  {
    if !orig.leaf {
      var child := ParamsChild(n, RemoveFeature(n.kCandidates, orig.k).value, cfg);
      forall i | 0 <= i < cfg.c
        ensures i < |orig.children| && ParamsFit(orig.children[i], Remove(n.kCandidates, orig.k.value).value, cfg.c)
      {
        ParamsKidsErrorNone(n, orig, cfg, 0, i);
        ParamsErrorFits(child, orig.children[i], cfg);
      }
      if cfg.c > 0 {
        ParamsKidsErrorNone(n, orig, cfg, 0, cfg.c - 1);
      }
    }
  }

  /** A copy that raises nothing reproduces the decision structure of a
      complete original exactly. */
  lemma {:induction false} ParamsTreeShape<S, H>(n: Node<S>, orig: Node<S>, cfg: GenCfg<S, H>)
    requires Complete(orig, cfg.c) && ParamsError(n, orig, cfg).None?
    ensures ShapeOf(ParamsTree(n, orig, cfg)) == ShapeOf(orig)
    decreases orig
  {
    if !orig.leaf {
      var m := ParamsTree(n, orig, cfg);
      var child := ParamsChild(n, RemoveFeature(n.kCandidates, orig.k).value, cfg);
      forall i | 0 <= i < cfg.c ensures ShapeOf(m.children[i]) == ShapeOf(orig.children[i]) {
        ParamsKid(n, orig, cfg, i);
        ParamsKidsErrorNone(n, orig, cfg, 0, i);
        ParamsTreeShape(child, orig.children[i], cfg);
      }
      if cfg.c > 0 {
        ParamsKid(n, orig, cfg, 0);
      }
    }
  }

  /** A copy that raises nothing, into a shaped node with well-kept
      candidates and a sub-model at every node, leaves a well-formed tree
      with a sub-model at every node. */
  lemma {:induction false} ParamsTreeWellFormed<S, H>(n: Node<S>, orig: Node<S>, cfg: GenCfg<S, H>)
    requires cfg.c > 0 && Shaped(n, cfg.c) && CandidatesOk(n, cfg.cK) && HasSubs(n)
    requires ParamsError(n, orig, cfg).None?
    ensures WellFormed(ParamsTree(n, orig, cfg), cfg.c, cfg.cK)
    ensures HasSubs(ParamsTree(n, orig, cfg))
    decreases orig, 1
  {
    if !orig.leaf {
      var m := ParamsTree(n, orig, cfg);
      var cands := RemoveFeature(n.kCandidates, orig.k).value;
      forall i | 0 <= i < cfg.c
        ensures m.children[i].depth == n.depth + 1 && m.children[i].kCandidates == cands
        ensures WellFormed(m.children[i], cfg.c, cfg.cK) && HasSubs(m.children[i])
      {
        ParamsKidWellFormed(n, orig, cfg, i);
      }
      ParamsKid(n, orig, cfg, 0);
      ShapedFromKids(m, cfg.c);
    }
  }

  lemma {:induction false} ParamsKidWellFormed<S, H>(n: Node<S>, orig: Node<S>, cfg: GenCfg<S, H>, i: nat)
    requires CandidatesOk(n, cfg.cK) && !orig.leaf && RemoveFeature(n.kCandidates, orig.k).Ok?
    requires ParamsKidsError(n, orig, cfg, 0).None? && i < cfg.c
    ensures var m := ParamsTree(n, orig, cfg);
            var cands := RemoveFeature(n.kCandidates, orig.k).value;
            && |m.children| == cfg.c && m.children[i].depth == n.depth + 1 && m.children[i].kCandidates == cands
            && WellFormed(m.children[i], cfg.c, cfg.cK) && HasSubs(m.children[i])
    decreases orig, 0
  {
    var cands := RemoveFeature(n.kCandidates, orig.k).value;
    var child := ParamsChild(n, cands, cfg);
    assert CandidatesOk(child, cfg.cK) && Shaped(child, cfg.c) && HasSubs(child)
           && i < |orig.children| && ParamsError(child, orig.children[i], cfg).None? by {
      RemoveDistinct(n.kCandidates, orig.k.value);
      ParamsKidsErrorNone(n, orig, cfg, 0, i);
    }
    ParamsTreeWellFormed(child, orig.children[i], cfg);
    ParamsKid(n, orig, cfg, i);
  }

  /** `set_params(root)` with a complete `root` whose features fit: the
      stored tree has the decision structure of `root`, is well-formed, and
      has a sub-model at every node. */
  lemma SetParamsSpec<S, H>(root: Node<S>, cfg: GenCfg<S, H>)
    requires cfg.c > 0 && Complete(root, cfg.c)
    ensures SetParamsRecursion(root, cfg).Ok? <==> ParamsFit(root, Range(cfg.cK), cfg.c)
    ensures SetParamsRecursion(root, cfg).Ok? ==>
              && ShapeOf(SetParamsRecursion(root, cfg).value) == ShapeOf(root)
              && WellFormed(SetParamsRecursion(root, cfg).value, cfg.c, cfg.cK)
              && HasSubs(SetParamsRecursion(root, cfg).value)
  {
    var n := NewNode(0, Range(cfg.cK), cfg.g, Some(cfg.fam.create(cfg.hp)), true);
    ParamsSucceeds(n, root, cfg);
    if ParamsError(n, root, cfg).None? {
      ParamsTreeShape(n, root, cfg);
      assert Distinct(Range(cfg.cK));
      ParamsTreeWellFormed(n, root, cfg);
    }
  }
}
