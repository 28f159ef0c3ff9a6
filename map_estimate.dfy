/** The maximum a posteriori meta-tree (`_map_recursion_add_nodes`,
    `_map_recursion`, `_copy_map_tree_recursion` and `estimate_params`,
    bayesml/metatree/_metatree_x_discrete.py lines 1427-1538).  Every
    posterior meta-tree is walked bottom-up: each node either stops or
    splits, whichever has the larger prior probability, and a leaf of the
    posterior tree (below which nothing has been observed) is compared with
    the complete tree that can still grow beneath it.  The tree whose weight
    times that probability is largest is copied out. */
module MapEstimate {
  import opened Wrappers
  import opened Nodes
  import opened Posterior
  import opened Prediction

  /** The constants the recursion reads: `c_num_children`, `c_d_max`,
      `c_k`, the posterior stopping weight `hn_g` of nodes below the observed
      part, and the sub-model `LearnModel(**sub_h0_params)` given to every
      node the recursion adds.  `asWritten` selects the leaf exponent: the
      source's `(c**(c_d_max - depth) - 1)/(c - 1)` when set, the exponent of
      the tree the growth actually builds otherwise. */
  datatype MapCfg<S> = MapCfg(c: nat, dMax: nat, cK: nat, hnG: real, init: S, asWritten: bool)

  /** The depth at which growth stops: `c_d_max`, or earlier when the
      features run out at depth `c_k`. */
  function Horizon<S>(cfg: MapCfg<S>): (h: nat)
    ensures h <= cfg.dMax && h <= cfg.cK && (h == cfg.dMax || h == cfg.cK)
  {
    if cfg.dMax <= cfg.cK then cfg.dMax else cfg.cK
  }

  // ---------------------------------------------------------------------
  // Powers and products
  // ---------------------------------------------------------------------

  function Pow(x: real, n: nat): real
  {
    if n == 0 then 1.0 else x * Pow(x, n - 1)
  }

  function NatPow(c: nat, n: nat): nat
  {
    if n == 0 then 1 else c * NatPow(c, n - 1)
  }

  /** `1 + c + ... + c^(m-1)`, the number of internal nodes of the complete
      `c`-ary tree with `m` levels of splits; it is the exponent
      `(c**m - 1)/(c - 1)` that the source writes in closed form. */
  function Geom(c: nat, m: nat): nat
  {
    if m == 0 then 0 else 1 + c * Geom(c, m - 1)
  }

  /** The sum agrees with the closed form `(c**m - 1)/(c - 1)`. */
  lemma {:induction false} GeomClosedForm(c: nat, m: nat)
    ensures (c as int - 1) * Geom(c, m) == NatPow(c, m) as int - 1
  {
    if m > 0 {
      GeomClosedForm(c, m - 1);
      GeomStep(c, Geom(c, m - 1), NatPow(c, m - 1));
    }
  }

  lemma GeomStep(c: int, g: int, p: int)
    requires (c - 1) * g == p - 1
    ensures (c - 1) * (1 + c * g) == c * p - 1
  {
    calc {
      (c - 1) * (1 + c * g);
    ==
      (c - 1) + c * ((c - 1) * g);
    ==
      (c - 1) + c * (p - 1);
    }
  }

  /** The prior probability of the complete tree with `m` levels of splits
      when every internal node continues with probability `g` and the
      bottom nodes stop for sure: a root that continues, over `c` complete
      trees with one level fewer. */
  function Full(g: real, c: nat, m: nat): real
  {
    if m == 0 then 1.0 else Cont(g, Pow(Full(g, c, m - 1), c))
  }

  function Prod(v: seq<real>): real
  {
    if |v| == 0 then 1.0 else v[0] * Prod(v[1..])
  }

  /** A node that continues with probability `g` into children whose
      probabilities multiply to `p`. */
  function Cont(g: real, p: real): real
  {
    g * p
  }

  lemma ContNonneg(g: real, p: real)
    requires 0.0 <= g && 0.0 <= p
    ensures 0.0 <= Cont(g, p)
  {
    MulNonneg(g, p);
  }

  lemma ContMono(g: real, a: real, b: real)
    requires 0.0 <= g && a <= b
    ensures Cont(g, a) <= Cont(g, b)
  {
    MulNonneg(g, b - a);
  }

  lemma ContBoth(g: real, h: real, p: real, q: real)
    requires 0.0 <= g <= h && 0.0 <= p <= q
    ensures 0.0 <= Cont(g, p) <= Cont(h, q)
  {
    MulNonneg(g, p);
    MulNonneg(h - g, p);
    MulNonneg(h, q - p);
  }

  lemma ContLe(g: real, p: real)
    requires 0.0 <= g <= 1.0 && 0.0 <= p
    ensures 0.0 <= Cont(g, p) <= p
  {
    MulNonneg(g, p);
    MulNonneg(1.0 - g, p);
  }

  lemma {:induction false} PowAdd(x: real, a: nat, b: nat)
    ensures Pow(x, a + b) == Pow(x, a) * Pow(x, b)
    decreases a
  {
    if a > 0 {
      PowAdd(x, a - 1, b);
      assert Pow(x, a + b) == x * Pow(x, a - 1 + b);
      assert x * (Pow(x, a - 1) * Pow(x, b)) == (x * Pow(x, a - 1)) * Pow(x, b);
    }
  }

  lemma {:induction false} PowMul(x: real, a: nat, b: nat)
    ensures Pow(x, a * b) == Pow(Pow(x, a), b)
    decreases b
  {
    if b > 0 {
      PowMul(x, a, b - 1);
      assert a * b == a * (b - 1) + a;
      PowAdd(x, a * (b - 1), a);
    }
  }

  /** The complete tree has `Geom(c, m)` internal nodes, each continuing
      with probability `g`: its probability is `g ** ((c**m - 1)/(c - 1))`,
      the closed form the source evaluates. */
  lemma {:induction false} FullClosedForm(g: real, c: nat, m: nat)
    ensures Full(g, c, m) == Pow(g, Geom(c, m))
  {
    if m > 0 {
      FullClosedForm(g, c, m - 1);
      var e := Geom(c, m - 1);
      assert Geom(c, m) == c * e + 1;
      assert Pow(g, c * e + 1) == g * Pow(g, c * e);
      assert c * e == e * c;
      PowMul(g, e, c);
    }
  }

  lemma {:induction false} FullIn01(g: real, c: nat, m: nat)
    requires 0.0 <= g <= 1.0
    ensures 0.0 <= Full(g, c, m) <= 1.0
  {
    if m > 0 {
      FullIn01(g, c, m - 1);
      PowIn01(Full(g, c, m - 1), c);
      ContLe(g, Pow(Full(g, c, m - 1), c));
    }
  }

  lemma {:induction false} PowIn01(x: real, n: nat)
    requires 0.0 <= x <= 1.0
    ensures 0.0 <= Pow(x, n) <= 1.0
  {
    if n > 0 {
      PowIn01(x, n - 1);
      PowStep(x, n);
      ContLe(x, Pow(x, n - 1));
    }
  }

  lemma {:induction false} PowMono(x: real, y: real, n: nat)
    requires 0.0 <= x <= y
    ensures 0.0 <= Pow(x, n) <= Pow(y, n)
  {
    if n > 0 {
      PowMono(x, y, n - 1);
      PowStep(x, n);
      PowStep(y, n);
      ContBoth(x, y, Pow(x, n - 1), Pow(y, n - 1));
    }
  }

  /** One more factor. */
  lemma PowStep(x: real, n: nat)
    requires n > 0
    ensures Pow(x, n) == Cont(x, Pow(x, n - 1))
  {
  }

  /** Raising a number in [0, 1] to a larger power never increases it. */
  lemma {:induction false} PowAnti(x: real, m: nat, n: nat)
    requires 0.0 <= x <= 1.0 && m <= n
    ensures Pow(x, n) <= Pow(x, m)
    decreases n - m
  {
    if m < n {
      PowAnti(x, m, n - 1);
      PowIn01(x, n - 1);
      PowStep(x, n);
      ContLe(x, Pow(x, n - 1));
    }
  }


  /** A product of copies of one value is its power. */
  lemma {:induction false} ProdRepeat(v: seq<real>, x: real)
    requires forall i :: 0 <= i < |v| ==> v[i] == x
    ensures Prod(v) == Pow(x, |v|)
  {
    if |v| > 0 {
      ProdRepeat(v[1..], x);
    }
  }

  /** The product is monotone in each non-negative factor. */
  lemma {:induction false} ProdMono(u: seq<real>, v: seq<real>)
    requires |u| == |v|
    requires forall i :: 0 <= i < |u| ==> 0.0 <= u[i] <= v[i]
    ensures 0.0 <= Prod(u) <= Prod(v)
  {
    if |u| > 0 {
      ProdMono(u[1..], v[1..]);
      var p, q := Prod(u[1..]), Prod(v[1..]);
      assert Prod(u) == Cont(u[0], p) && Prod(v) == Cont(v[0], q);
      ContBoth(u[0], v[0], p, q);
    }
  }

  /** Factors in [0, 1] give a product in [0, 1]. */
  lemma {:induction false} ProdIn01(v: seq<real>)
    requires forall i :: 0 <= i < |v| ==> 0.0 <= v[i] <= 1.0
    ensures 0.0 <= Prod(v) <= 1.0
  {
    if |v| > 0 {
      ProdIn01(v[1..]);
      var x, p := v[0], Prod(v[1..]);
      assert Prod(v) == Cont(x, p);
      ContLe(x, p);
    }
  }

  // ---------------------------------------------------------------------
  // The best tree below an unobserved leaf
  // ---------------------------------------------------------------------

  /** A tree that may grow below a node at depth `d`: nothing splits at the
      horizon, and every split fills all `c` slots. */
  ghost predicate Fits<S>(s: Shape, d: nat, cfg: MapCfg<S>)
  {
    match s
    case Stop => true
    case Split(_, kids) =>
      d < Horizon(cfg) && |kids| == cfg.c && forall i :: 0 <= i < |kids| ==> Fits(kids[i], d + 1, cfg)
  }

  /** The prior probability of such a tree: a node stops with probability
      `1 - hn_g` (for sure at the horizon) and continues with probability
      `hn_g`. */
  function PriorProb<S>(s: Shape, d: nat, cfg: MapCfg<S>): real
    decreases s, 1
  {
    match s
    case Stop => if d >= Horizon(cfg) then 1.0 else 1.0 - cfg.hnG
    case Split(_, kids) =>
      Cont(cfg.hnG, Prod(PriorProbs(kids, d + 1, cfg)))
  }

  function PriorProbs<S>(kids: seq<Shape>, d: nat, cfg: MapCfg<S>): (v: seq<real>)
    ensures |v| == |kids| && forall i :: 0 <= i < |kids| ==> v[i] == PriorProb(kids[i], d, cfg)
    decreases kids, 0
  {
    seq(|kids|, i requires 0 <= i < |kids| => PriorProb(kids[i], d, cfg))
  }

  /** The largest prior probability of a tree below depth `d`, by the
      stop-or-split recurrence. */
  function OptValue<S>(d: nat, cfg: MapCfg<S>): real
    decreases Horizon(cfg) - d
  {
    if d >= Horizon(cfg) then 1.0
    else Max(1.0 - cfg.hnG, Cont(cfg.hnG, Pow(OptValue(d + 1, cfg), cfg.c)))
  }

  lemma {:induction false} OptValueIn01<S>(d: nat, cfg: MapCfg<S>)
    requires 0.0 <= cfg.hnG <= 1.0
    ensures 0.0 <= OptValue(d, cfg) <= 1.0
    decreases Horizon(cfg) - d
  {
    if d < Horizon(cfg) {
      OptValueIn01(d + 1, cfg);
      PowIn01(OptValue(d + 1, cfg), cfg.c);
      ContLe(cfg.hnG, Pow(OptValue(d + 1, cfg), cfg.c));
      OptUnfold(d, cfg);
    }
  }

  /** No tree that can grow below depth `d` is more probable than the
      recurrence says. */
  lemma {:induction false} PriorOptimal<S>(s: Shape, d: nat, cfg: MapCfg<S>)
    requires 0.0 <= cfg.hnG <= 1.0 && Fits(s, d, cfg)
    ensures 0.0 <= PriorProb(s, d, cfg) <= OptValue(d, cfg)
  {
    match s
    case Stop =>
      if d < Horizon(cfg) {
        assert OptValue(d, cfg) >= 1.0 - cfg.hnG;
      }
    case Split(_, kids) =>
      var probs := PriorProbs(kids, d + 1, cfg);
      var best := OptValue(d + 1, cfg);
      var bests := seq(|kids|, i requires 0 <= i < |kids| => best);
      forall i | 0 <= i < |kids|
        ensures 0.0 <= probs[i] <= bests[i]
      {
        PriorOptimal(kids[i], d + 1, cfg);
      }
      ProdMono(probs, bests);
      ProdRepeat(bests, best);
      OptUnfold(d, cfg);
      SplitBound(cfg.hnG, Prod(probs), Pow(best, cfg.c));
      assert PriorProb(s, d, cfg) == Cont(cfg.hnG, Prod(probs));
  }

  lemma OptUnfold<S>(d: nat, cfg: MapCfg<S>)
    requires d < Horizon(cfg)
    ensures OptValue(d, cfg) == Max(1.0 - cfg.hnG, Cont(cfg.hnG, Pow(OptValue(d + 1, cfg), cfg.c)))
  {
  }

  /** Continuing with probability `g` into children worth at most `bound`
      together is worth at most the better of stopping and that bound. */
  lemma SplitBound(g: real, prod: real, bound: real)
    requires 0.0 <= g && 0.0 <= prod <= bound
    ensures 0.0 <= Cont(g, prod) <= Max(1.0 - g, Cont(g, bound))
  {
    ContNonneg(g, prod);
    ContMono(g, prod, bound);
  }

  /** `_map_recursion` at a leaf of the posterior tree, AS WRITTEN: at depth
      `c_d_max` or `c_k` the leaf stops for sure (value 1); otherwise it stops
      when `1 - hn_g` exceeds `hn_g ** ((c**(c_d_max - depth) - 1)/(c - 1))`,
      the prior probability of the complete tree that reaches `c_d_max`.
      The result is (stops, value). */
  function LeafChoiceAsWritten<S>(depth: nat, cfg: MapCfg<S>): (r: (bool, real))
    requires depth <= cfg.dMax && cfg.c >= 2
    ensures r.1 == (if depth == cfg.dMax || depth == cfg.cK then 1.0
                    else Max(1.0 - cfg.hnG, Pow(cfg.hnG, Geom(cfg.c, cfg.dMax - depth))))
  {
    if depth == cfg.dMax || depth == cfg.cK then (true, 1.0)
    else
      var full := Pow(cfg.hnG, Geom(cfg.c, cfg.dMax - depth));
      if 1.0 - cfg.hnG > full then (true, 1.0 - cfg.hnG) else (false, full)
  }

  /** The same choice with the exponent taken from the horizon
      `min(c_d_max, c_k)`, where `_map_recursion_add_nodes` actually stops
      growing: the value is the better of stopping and the complete tree
      that the growth builds. */
  function LeafChoice<S>(depth: nat, cfg: MapCfg<S>): (r: (bool, real))
    requires depth <= Horizon(cfg)
    ensures r.1 == (if depth == Horizon(cfg) then 1.0
                    else Max(1.0 - cfg.hnG, Full(cfg.hnG, cfg.c, Horizon(cfg) - depth)))
    ensures r.0 <==> depth == Horizon(cfg) || 1.0 - cfg.hnG > Full(cfg.hnG, cfg.c, Horizon(cfg) - depth)
  {
    if depth == cfg.dMax || depth == cfg.cK then (true, 1.0)
    else
      var full := Full(cfg.hnG, cfg.c, Horizon(cfg) - depth);
      if 1.0 - cfg.hnG > full then (true, 1.0 - cfg.hnG) else (false, full)
  }

  /** The leaf choice `_map_recursion` makes: the source's exponent when
      the configuration asks for it, the horizon's otherwise.  With one child
      per node the source's exponent divides by zero; the recursion is then
      only run on trees whose leaves all lie at the horizon (see
      `DividesByZero`), where both choices stop with value 1. */
  function LeafPick<S>(depth: nat, cfg: MapCfg<S>): (r: (bool, real))
    requires depth <= Horizon(cfg)
  {
    if cfg.asWritten && cfg.c >= 2 then LeafChoiceAsWritten(depth, cfg) else LeafChoice(depth, cfg)
  }

  /** The source's exponent divides by zero somewhere in `n`: with one
      child per node, `(c**(c_d_max - depth) - 1)/(c - 1)` is `0/0`, and it is
      evaluated at every leaf of the posterior tree at neither `c_d_max` nor
      `c_k`. */
  predicate DividesByZero<S>(n: Node<S>, cfg: MapCfg<S>)
  {
    cfg.asWritten && cfg.c == 1 && ShortLeaf(n, cfg)
  }

  /** `n` holds a leaf at neither `c_d_max` nor `c_k`. */
  predicate ShortLeaf<S>(n: Node<S>, cfg: MapCfg<S>)
    decreases n
  {
    if n.leaf then n.depth != cfg.dMax && n.depth != cfg.cK
    else exists i :: 0 <= i < |n.children| && ShortLeaf(n.children[i], cfg)
  }

  /** The two exponents agree when the growth is not cut short by the
      features running out: `c_d_max <= c_k`. */
  predicate ExponentExact<S>(cfg: MapCfg<S>)
  {
    !cfg.asWritten || cfg.dMax <= cfg.cK
  }

  /** When `c_d_max <= c_k` the source's leaf choice is the corrected one:
      the closed form `hn_g ** ((c**m - 1)/(c - 1))` is the probability of
      the complete tree the growth builds. */
  lemma LeafChoicesAgree<S>(d: nat, cfg: MapCfg<S>)
    requires cfg.c >= 2 && cfg.dMax <= cfg.cK && d <= cfg.dMax
    ensures LeafChoiceAsWritten(d, cfg) == LeafChoice(d, cfg)
  {
    if d != cfg.dMax && d != cfg.cK {
      FullClosedForm(cfg.hnG, cfg.c, cfg.dMax - d);
    }
  }

  lemma LeafPickExact<S>(d: nat, cfg: MapCfg<S>)
    requires ExponentExact(cfg) && d <= Horizon(cfg)
    ensures LeafPick(d, cfg) == LeafChoice(d, cfg)
  {
    if cfg.asWritten && cfg.c >= 2 {
      LeafChoicesAgree(d, cfg);
    }
  }

  /** The corrected leaf choice is the optimum of the stop-or-split
      recurrence, so by `PriorOptimal` no tree that can grow below the leaf
      is more probable. */
  lemma {:induction false} LeafChoiceOptimal<S>(d: nat, cfg: MapCfg<S>)
    requires 0.0 <= cfg.hnG <= 1.0 && cfg.c >= 1 && d <= Horizon(cfg)
    ensures LeafChoice(d, cfg).1 == OptValue(d, cfg)
    decreases Horizon(cfg) - d
  {
    var h, g, c := Horizon(cfg), cfg.hnG, cfg.c;
    if d < h {
      var m := h - d;
      LeafChoiceOptimal(d + 1, cfg);
      var below := Full(g, c, m - 1);
      assert below >= 0.0 by { FullIn01(g, c, m - 1); }
      assert OptValue(d + 1, cfg) == Max(1.0 - g, below) by {
        if d + 1 == h {
          assert below == 1.0;
        }
      }
      OptStep(g, c, below, Full(g, c, m), OptValue(d + 1, cfg));
      OptUnfold(d, cfg);
    }
  }

  /** One step of the recurrence: when the level below is worth the better
      of stopping and the complete tree, so is this level, because a split
      over stopping children never beats stopping here. */
  lemma OptStep(g: real, c: nat, below: real, full: real, optBelow: real)
    requires 0.0 <= g <= 1.0 && c >= 1 && below >= 0.0
    requires optBelow == Max(1.0 - g, below) && full == Cont(g, Pow(below, c))
    ensures Max(1.0 - g, Cont(g, Pow(optBelow, c))) == Max(1.0 - g, full)
  {
    if below < 1.0 - g {
      assert optBelow == 1.0 - g;
      StopBeatsSplit(g, c);
      PowMono(below, 1.0 - g, c);
      ContMono(g, Pow(below, c), Pow(1.0 - g, c));
    }
  }

  /** Continuing into `c` children that all stop is never more probable
      than stopping. */
  lemma StopBeatsSplit(g: real, c: nat)
    requires 0.0 <= g <= 1.0 && c >= 1
    ensures Cont(g, Pow(1.0 - g, c)) <= 1.0 - g
  {
    var x := 1.0 - g;
    PowAnti(x, 1, c);
    assert Pow(x, 1) == x;
    PowIn01(x, c);
    ContLe(g, Pow(x, c));
  }

  /** The counterexample to the as-written exponent: with two children,
      `c_d_max` = 10, `c_k` = 3 and `hn_g` = 3/4, a leaf at depth 1 stops
      with value 1/4, because the complete tree down to depth 10 has
      probability (3/4)^511.  Growth below it stops at depth 3, however, and
      the tree of three splits it would build there has probability
      (3/4)^3 = 27/64, which the corrected choice returns. */
  lemma MapHorizonAsWritten()
    ensures LeafChoiceAsWritten(1, MapCfg(2, 10, 3, 0.75, 0, true)) == (true, 0.25)
    ensures LeafChoice(1, MapCfg(2, 10, 3, 0.75, 0, true)) == (false, 27.0 / 64.0)
    ensures OptValue(1, MapCfg(2, 10, 3, 0.75, 0, true)) == 27.0 / 64.0
  {
    var cfg := MapCfg(2, 10, 3, 0.75, 0, true);
    assert Geom(2, 9) == 511 by {
      assert Geom(2, 1) == 1;
      assert Geom(2, 2) == 3;
      assert Geom(2, 3) == 7;
      assert Geom(2, 4) == 15;
      assert Geom(2, 5) == 31;
      assert Geom(2, 6) == 63;
      assert Geom(2, 7) == 127;
      assert Geom(2, 8) == 255;
    }
    assert Pow(0.75, 511) < 0.25 by {
      PowAnti(0.75, 5, 511);
      assert Pow(0.75, 5) == 243.0 / 1024.0;
    }
    assert Full(0.75, 2, 1) == 0.75;
    assert Full(0.75, 2, 2) == 27.0 / 64.0;
    LeafChoiceOptimal(1, cfg);
  }

  // ---------------------------------------------------------------------
  // The recursion over a posterior tree
  // ---------------------------------------------------------------------

  /** `c` copies of one tree. */
  function Copies<S>(c: nat, t: Node<S>): (r: seq<Node<S>>)
    ensures |r| == c && forall i :: 0 <= i < c ==> r[i] == t
  {
    seq(c, _ => t)
  }

  /** `_map_recursion_add_nodes`: a node at depth `c_d_max` or `c_k` becomes
      a leaf that stops for sure; any other node splits on its first
      candidate into `c` fresh nodes (stopping weight `hn_g`, the candidates
      without that feature, a fresh sub-model), each grown the same way.  The
      `leaf` flag of a node that splits is left as it was. */
  function AddNodes<S>(n: Node<S>, cfg: MapCfg<S>): (r: Node<S>)
    requires CandidatesOk(n, cfg.cK) && n.depth <= cfg.dMax
    ensures r.depth == n.depth && r.kCandidates == n.kCandidates && r.sub == n.sub
    decreases |n.kCandidates|
  {
    if n.depth == cfg.dMax || n.depth == cfg.cK then n.(hg := 0.0, leaf := true, mapLeaf := true)
    else
      var child := GrowChild(n, cfg);
      n.(k := Some(n.kCandidates[0]), children := Copies(cfg.c, AddNodes(child, cfg)))
  }

  /** The fresh node `_map_recursion_add_nodes` puts in every slot.  Its
      candidates are the parent's after removing the split feature, which is
      the first of them, so the removal drops the head of the list
      (`GrowChildRemoves`). */
  function GrowChild<S>(n: Node<S>, cfg: MapCfg<S>): (child: Node<S>)
    requires CandidatesOk(n, cfg.cK) && n.depth < cfg.dMax && n.depth < cfg.cK
    ensures CandidatesOk(child, cfg.cK) && child.depth == n.depth + 1
    ensures |child.kCandidates| < |n.kCandidates|
    ensures !child.leaf && !child.mapLeaf && child.hg == cfg.hnG
  {
    var rest := n.kCandidates[1..];
    assert forall f :: f in rest ==> f in n.kCandidates;
    assert forall i :: 0 <= i < |rest| ==> rest[i] == n.kCandidates[i + 1];
    NewNode(n.depth + 1, rest, cfg.hnG, Some(cfg.init), false)
  }

  /** The child's candidates are what removing the split feature from the
      parent's list gives. */
  lemma GrowChildRemoves<S>(n: Node<S>, cfg: MapCfg<S>)
    requires CandidatesOk(n, cfg.cK) && n.depth < cfg.dMax && n.depth < cfg.cK
    ensures Remove(n.kCandidates, n.kCandidates[0]) == Ok(GrowChild(n, cfg).kCandidates)
  {
    var s := n.kCandidates;
    assert IndexOf(s, s[0]) == 0;
    assert s[..0] + s[1..] == s[1..];
  }

  /** What `_map_recursion` needs of a tree: depths within `c_d_max`,
      well-kept candidate lists, and `c` filled slots below every internal
      node. */
  ghost predicate MapReady<S>(n: Node<S>, cfg: MapCfg<S>)
  {
    && n.depth <= cfg.dMax && CandidatesOk(n, cfg.cK)
    && (!n.leaf ==> |n.children| == cfg.c && forall i :: 0 <= i < cfg.c ==> MapReady(n.children[i], cfg))
  }

  /** `_map_recursion`, returning the updated node and its value.  A leaf
      takes the leaf choice `LeafPick`: it is marked as a MAP leaf, or grows
      the complete tree below it.  An internal node first updates all its
      children, then is marked as a MAP leaf exactly when stopping
      (`1 - h_g`) beats continuing (`h_g` times the product of the
      children's values); ties continue. */
  function MapRec<S>(n: Node<S>, cfg: MapCfg<S>): (r: (Node<S>, real))
    requires MapReady(n, cfg)
    ensures r.0.depth == n.depth && r.0.kCandidates == n.kCandidates && r.0.leaf == n.leaf
    ensures r.0.hg == n.hg || n.leaf
    decreases n, 1
  {
    if n.leaf then
      var choice := LeafPick(n.depth, cfg);
      if choice.0 then (n.(mapLeaf := true), choice.1) else (AddNodes(n, cfg), choice.1)
    else
      var kids := MapKids(n.children, cfg);
      var prod := Prod(Values(kids));
      var m := n.(children := Trees(kids));
      if 1.0 - n.hg > Cont(n.hg, prod) then (m.(mapLeaf := true), 1.0 - n.hg)
      else (m.(mapLeaf := false), Cont(n.hg, prod))
  }

  function MapKids<S>(kids: seq<Node<S>>, cfg: MapCfg<S>): (r: seq<(Node<S>, real)>)
    requires forall i :: 0 <= i < |kids| ==> MapReady(kids[i], cfg)
    ensures |r| == |kids|
    decreases kids, 0
  {
    seq(|kids|, i requires 0 <= i < |kids| => MapRec(kids[i], cfg))
  }

  /** One entry of `MapKids`, stated apart so that the recursion into a
      child is only unfolded where a proof asks for it. */
  lemma MapKidsAt<S>(kids: seq<Node<S>>, cfg: MapCfg<S>, i: nat)
    requires forall i :: 0 <= i < |kids| ==> MapReady(kids[i], cfg)
    requires i < |kids|
    ensures MapKids(kids, cfg)[i] == MapRec(kids[i], cfg)
  {
  }

  function Trees<S>(v: seq<(Node<S>, real)>): (r: seq<Node<S>>)
    ensures |r| == |v| && forall i :: 0 <= i < |v| ==> r[i] == v[i].0
  {
    seq(|v|, i requires 0 <= i < |v| => v[i].0)
  }

  function Values<S>(v: seq<(Node<S>, real)>): (r: seq<real>)
    ensures |r| == |v| && forall i :: 0 <= i < |v| ==> r[i] == v[i].1
  {
    seq(|v|, i requires 0 <= i < |v| => v[i].1)
  }

  // ---------------------------------------------------------------------
  // What the recursion computes
  // ---------------------------------------------------------------------

  /** The prior probability of the tree the `map_leaf` flags mark out: a
      marked internal node stops with probability `1 - h_g`; a marked leaf of
      the posterior tree stops for sure at `c_d_max` or `c_k` and otherwise
      with probability `1 - hn_g`; an unmarked node continues into all its
      children, with probability `hn_g` when it is a leaf of the posterior
      tree (nothing was observed below it) and `h_g` otherwise. */
  function MapProb<S>(n: Node<S>, cfg: MapCfg<S>): real
    decreases n, 1
  {
    if n.mapLeaf then
      if !n.leaf then 1.0 - n.hg
      else if n.depth == cfg.dMax || n.depth == cfg.cK then 1.0
      else 1.0 - cfg.hnG
    else Cont(if n.leaf then cfg.hnG else n.hg, Prod(MapProbs(n.children, cfg)))
  }

  function MapProbs<S>(kids: seq<Node<S>>, cfg: MapCfg<S>): (v: seq<real>)
    ensures |v| == |kids|
    decreases kids, 0
  {
    seq(|kids|, i requires 0 <= i < |kids| => MapProb(kids[i], cfg))
  }

  /** One entry of `MapProbs`, stated apart so that the probabilities of
      grown subtrees are only unfolded where a proof asks for them. */
  lemma MapProbsAt<S>(kids: seq<Node<S>>, cfg: MapCfg<S>, i: nat)
    requires i < |kids|
    ensures MapProbs(kids, cfg)[i] == MapProb(kids[i], cfg)
  {
  }

  /** No leaf of the tree carries a `map_leaf` flag yet. */
  ghost predicate Unmarked<S>(n: Node<S>)
  {
    if n.leaf then !n.mapLeaf else forall i :: 0 <= i < |n.children| ==> Unmarked(n.children[i])
  }

  /** `t` is the complete tree with `m` levels of splits: every node above
      the bottom continues into `c` children, with probability `hn_g`, and
      the bottom nodes are marked leaves at `c_d_max` or `c_k`. */
  ghost predicate CompleteBelow<S>(t: Node<S>, m: nat, cfg: MapCfg<S>)
  {
    if m == 0 then t.mapLeaf && t.leaf && (t.depth == cfg.dMax || t.depth == cfg.cK)
    else
      && !t.mapLeaf && (t.leaf || t.hg == cfg.hnG) && |t.children| == cfg.c
      && forall i :: 0 <= i < |t.children| ==> CompleteBelow(t.children[i], m - 1, cfg)
  }

  /** `_map_recursion_add_nodes` grows the complete tree down to the
      horizon. */
  lemma {:induction false} AddNodesComplete<S>(n: Node<S>, cfg: MapCfg<S>)
    requires CandidatesOk(n, cfg.cK) && n.depth <= cfg.dMax
    requires !n.mapLeaf && (n.leaf || n.hg == cfg.hnG)
    ensures CompleteBelow(AddNodes(n, cfg), Horizon(cfg) - n.depth, cfg)
    decreases |n.kCandidates|
  {
    var m: nat := Horizon(cfg) - n.depth;
    var r := AddNodes(n, cfg);
    if n.depth < cfg.dMax && n.depth < cfg.cK {
      var child := GrowChild(n, cfg);
      var t := AddNodes(child, cfg);
      AddNodesComplete(child, cfg);
      assert Horizon(cfg) - child.depth == m - 1;
      assert r.children == Copies(cfg.c, t);
      CompleteStep(r, t, m, cfg);
    } else {
      assert m == 0;
    }
  }

  /** A node that continues into `c` copies of the complete tree with one
      level fewer is the complete tree. */
  lemma CompleteStep<S>(r: Node<S>, t: Node<S>, m: nat, cfg: MapCfg<S>)
    requires m >= 1 && !r.mapLeaf && (r.leaf || r.hg == cfg.hnG)
    requires r.children == Copies(cfg.c, t) && CompleteBelow(t, m - 1, cfg)
    ensures CompleteBelow(r, m, cfg)
  {
  }

  /** The complete tree with `m` levels has prior probability `Full`. */
  lemma {:induction false} CompleteProb<S>(t: Node<S>, m: nat, cfg: MapCfg<S>)
    requires CompleteBelow(t, m, cfg)
    ensures MapProb(t, cfg) == Full(cfg.hnG, cfg.c, m)
    decreases t
  {
    if m > 0 {
      var below := Full(cfg.hnG, cfg.c, m - 1);
      forall i | 0 <= i < cfg.c
        ensures MapProbs(t.children, cfg)[i] == below
      {
        CompleteProb(t.children[i], m - 1, cfg);
        MapProbsAt(t.children, cfg, i);
      }
      ProdRepeat(MapProbs(t.children, cfg), below);
    }
  }

  /** The tree grown below an unmarked node has the prior probability of
      the complete tree down to the horizon. */
  lemma AddNodesProb<S>(n: Node<S>, cfg: MapCfg<S>)
    requires CandidatesOk(n, cfg.cK) && n.depth <= cfg.dMax
    requires !n.mapLeaf && (n.leaf || n.hg == cfg.hnG)
    ensures MapProb(AddNodes(n, cfg), cfg) == Full(cfg.hnG, cfg.c, Horizon(cfg) - n.depth)
  {
    AddNodesComplete(n, cfg);
    CompleteProb(AddNodes(n, cfg), Horizon(cfg) - n.depth, cfg);
  }

  /** The value `_map_recursion` returns is the prior probability of the tree
      it marks, which `_copy_map_tree_recursion` then copies out; with the
      source's exponent this needs `c_d_max <= c_k` (`MapHorizonAsWritten`
      shows a leaf whose value is not that of the tree grown below it). */
  lemma {:induction false} MapRecProb<S>(n: Node<S>, cfg: MapCfg<S>)
    requires MapReady(n, cfg) && Unmarked(n) && ExponentExact(cfg)
    ensures MapProb(MapRec(n, cfg).0, cfg) == MapRec(n, cfg).1
    decreases n
  {
    if n.leaf {
      LeafPickExact(n.depth, cfg);
      if !LeafChoice(n.depth, cfg).0 {
        AddNodesProb(n, cfg);
      }
    } else {
      var kids := MapKids(n.children, cfg);
      forall i | 0 <= i < cfg.c
        ensures MapProb(kids[i].0, cfg) == kids[i].1
      {
        MapKidsAt(n.children, cfg, i);
        MapRecProb(n.children[i], cfg);
      }
      forall i | 0 <= i < cfg.c
        ensures MapProbs(Trees(kids), cfg)[i] == Values(kids)[i]
      {
        MapProbsAt(Trees(kids), cfg, i);
      }
      assert MapProbs(Trees(kids), cfg) == Values(kids);
    }
  }

  /** The growth does not read the choice of exponent. */
  lemma {:induction false} AddNodesIgnoresExponent<S>(n: Node<S>, cfg: MapCfg<S>, b: bool)
    requires CandidatesOk(n, cfg.cK) && n.depth <= cfg.dMax
    ensures AddNodes(n, cfg) == AddNodes(n, cfg.(asWritten := b))
    decreases |n.kCandidates|
  {
    var other := cfg.(asWritten := b);
    if n.depth < cfg.dMax && n.depth < cfg.cK {
      assert GrowChild(n, cfg) == GrowChild(n, other);
      AddNodesIgnoresExponent(GrowChild(n, cfg), cfg, b);
    }
  }

  /** When `c_d_max <= c_k` the recursion with the source's exponent marks
      and values every tree exactly as the corrected one does, so the
      properties proved of the corrected recursion hold of the source's. */
  lemma {:induction false} MapRecAgree<S>(n: Node<S>, cfg: MapCfg<S>)
    requires MapReady(n, cfg) && cfg.dMax <= cfg.cK
    ensures MapReady(n, cfg.(asWritten := !cfg.asWritten))
    ensures MapRec(n, cfg) == MapRec(n, cfg.(asWritten := !cfg.asWritten))
    decreases n
  {
    var other := cfg.(asWritten := !cfg.asWritten);
    ReadyIgnoresExponent(n, cfg, !cfg.asWritten);
    if n.leaf {
      LeafPickExact(n.depth, cfg);
      LeafPickExact(n.depth, other);
      AddNodesIgnoresExponent(n, cfg, !cfg.asWritten);
    } else {
      forall i | 0 <= i < cfg.c
        ensures MapKids(n.children, cfg)[i] == MapKids(n.children, other)[i]
      {
        MapKidsAt(n.children, cfg, i);
        MapKidsAt(n.children, other, i);
        MapRecAgree(n.children[i], cfg);
      }
      assert MapKids(n.children, cfg) == MapKids(n.children, other);
    }
  }

  lemma {:induction false} ReadyIgnoresExponent<S>(n: Node<S>, cfg: MapCfg<S>, b: bool)
    requires MapReady(n, cfg)
    ensures MapReady(n, cfg.(asWritten := b))
    decreases n
  {
    if !n.leaf {
      forall i | 0 <= i < cfg.c ensures MapReady(n.children[i], cfg.(asWritten := b)) {
        ReadyIgnoresExponent(n.children[i], cfg, b);
      }
    }
  }

  /** With stopping weights in [0, 1] every value is a probability. */
  lemma {:induction false} MapRecIn01<S>(n: Node<S>, cfg: MapCfg<S>)
    requires MapReady(n, cfg) && StopWeightsIn01(n) && 0.0 <= cfg.hnG <= 1.0
    ensures 0.0 <= MapRec(n, cfg).1 <= 1.0
    decreases n
  {
    if n.leaf {
      var d := n.depth;
      FullIn01(cfg.hnG, cfg.c, Horizon(cfg) - d);
      if cfg.asWritten && cfg.c >= 2 {
        PowIn01(cfg.hnG, Geom(cfg.c, cfg.dMax - d));
      }
    } else {
      var kids := MapKids(n.children, cfg);
      forall i | 0 <= i < cfg.c
        ensures 0.0 <= Values(kids)[i] <= 1.0
      {
        MapKidsAt(n.children, cfg, i);
        MapRecIn01(n.children[i], cfg);
      }
      ProdIn01(Values(kids));
      ContLe(n.hg, Prod(Values(kids)));
    }
  }

  /** A way to cut the posterior tree: every internal node either stops or
      continues into all its children, and below a leaf of the posterior
      tree any tree may grow. */
  ghost predicate Prunes<S>(s: Shape, n: Node<S>, cfg: MapCfg<S>)
  {
    if n.leaf then Fits(s, n.depth, cfg)
    else
      match s
      case Stop => true
      case Split(f, kids) =>
        f == n.k && |kids| == |n.children| && forall i :: 0 <= i < |kids| ==> Prunes(kids[i], n.children[i], cfg)
  }

  /** The prior probability of such a cut: internal nodes use their posterior
      stopping weights, grown parts use `hn_g`. */
  function PruneProb<S>(s: Shape, n: Node<S>, cfg: MapCfg<S>): real
    decreases s, 1
  {
    if n.leaf then PriorProb(s, n.depth, cfg)
    else
      match s
      case Stop => 1.0 - n.hg
      case Split(_, kids) => Cont(n.hg, Prod(PruneProbs(kids, n.children, cfg)))
  }

  function PruneProbs<S>(kids: seq<Shape>, nodes: seq<Node<S>>, cfg: MapCfg<S>): (v: seq<real>)
    ensures |v| == |kids|
    ensures forall i :: 0 <= i < |kids| && i < |nodes| ==> v[i] == PruneProb(kids[i], nodes[i], cfg)
    decreases kids, 0
  {
    seq(|kids|, i requires 0 <= i < |kids| => if i < |nodes| then PruneProb(kids[i], nodes[i], cfg) else 0.0)
  }

  /** The MAP property: no cut of the posterior tree is more probable than
      the value `_map_recursion` returns (and by `MapRecProb` the tree it
      marks attains it); with the source's exponent this needs
      `c_d_max <= c_k`. */
  lemma {:induction false} MapRecOptimal<S>(s: Shape, n: Node<S>, cfg: MapCfg<S>)
    requires MapReady(n, cfg) && StopWeightsIn01(n) && 0.0 <= cfg.hnG <= 1.0 && cfg.c >= 1 && ExponentExact(cfg)
    requires Prunes(s, n, cfg)
    ensures 0.0 <= PruneProb(s, n, cfg) <= MapRec(n, cfg).1
    decreases s
  {
    if n.leaf {
      LeafPickExact(n.depth, cfg);
      PriorOptimal(s, n.depth, cfg);
      LeafChoiceOptimal(n.depth, cfg);
    } else {
      var kids := MapKids(n.children, cfg);
      var prod := Prod(Values(kids));
      match s
      case Stop =>
      case Split(_, ks) =>
        var probs := PruneProbs(ks, n.children, cfg);
        forall i | 0 <= i < cfg.c
          ensures 0.0 <= probs[i] <= Values(kids)[i]
        {
          MapKidsAt(n.children, cfg, i);
          MapRecOptimal(ks[i], n.children[i], cfg);
        }
        ProdMono(probs, Values(kids));
        ContNonneg(n.hg, Prod(probs));
        ContMono(n.hg, Prod(probs), prod);
    }
  }
}
