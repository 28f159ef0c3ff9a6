/** The recursions that reset or rebuild meta-trees
    (bayesml/metatree/_metatree_x_discrete.py): the stopping-weight and
    sub-model resets, the hyperparameter copy from a reference tree, the
    parameter copy of the generative model, the two random generators with
    their draws passed in, and the copy of a fitted decision tree.  Each
    Python recursion that mutates a node in place is a function that returns
    the new node; an exception part-way through becomes an `Err` and the
    partly mutated tree is not modelled. */
module Builders {
  import opened Wrappers
  import opened Nodes

  /** The stopping weight the builders give a node: 0 at depth `c_d_max`,
      `g` elsewhere. */
  function StopWeight(depth: nat, dMax: nat, g: real): (w: real)
    ensures depth == dMax ==> w == 0.0
    ensures depth != dMax ==> w == g
  {
    if depth == dMax then 0.0 else g
  }

  /** Every node, live or not, has the stopping weight `StopWeight(depth)`. */
  ghost predicate HgSet<S>(n: Node<S>, dMax: nat, g: real)
  {
    && n.hg == StopWeight(n.depth, dMax, g)
    && forall i :: 0 <= i < |n.children| ==> HgSet(n.children[i], dMax, g)
  }

  /** Every node holds the sub-model `s`. */
  ghost predicate SubsAre<S>(n: Node<S>, s: S)
  {
    && n.sub == Some(s)
    && forall i :: 0 <= i < |n.children| ==> SubsAre(n.children[i], s)
  }

  /** `_set_h_g_recursion`, `_set_h0_g_recursion`, `_set_hn_g_recursion`:
      every stopping weight becomes `StopWeight(depth)` and nothing else
      changes. */
  function SetHg<S>(n: Node<S>, dMax: nat, g: real): (r: Node<S>)
    ensures HgSet(r, dMax, g)
    ensures Erase(r, true, false) == Erase(n, true, false)
  {
    var kids := seq(|n.children|, i requires 0 <= i < |n.children| => SetHg(n.children[i], dMax, g));
    var r := n.(hg := StopWeight(n.depth, dMax, g), children := kids);
    assert Erase(r, true, false) == Erase(n, true, false) by {
      assert forall i :: 0 <= i < |n.children| ==>
        Erase(r, true, false).children[i] == Erase(n, true, false).children[i];
    }
    r
  }

  /** `_set_sub_h_params_recursion`, `_set_sub_h0_params_recursion`,
      `_set_sub_hn_params_recursion`: every node gets the freshly constructed
      sub-model `s` and nothing else changes. */
  function SetSubs<S>(n: Node<S>, s: S): (r: Node<S>)
    ensures SubsAre(r, s)
    ensures Erase(r, false, true) == Erase(n, false, true)
  {
    var kids := seq(|n.children|, i requires 0 <= i < |n.children| => SetSubs(n.children[i], s));
    var r := n.(sub := Some(s), children := kids);
    assert Erase(r, false, true) == Erase(n, false, true) by {
      assert forall i :: 0 <= i < |n.children| ==>
        Erase(r, false, true).children[i] == Erase(n, false, true).children[i];
    }
    r
  }

  /** The branch of `_set_h_params_recursion` (and its h0/hn twins) taken
      when there is no reference node: every node below gets the default
      stopping weight and a fresh sub-model; the structure is kept. */
  function ResetSubtree<S>(n: Node<S>, dMax: nat, g: real, s: S): (r: Node<S>)
    ensures HgSet(r, dMax, g) && SubsAre(r, s)
    ensures Strip(r) == Strip(n)
  {
    var kids := seq(|n.children|, i requires 0 <= i < |n.children| => ResetSubtree(n.children[i], dMax, g, s));
    var r := n.(hg := StopWeight(n.depth, dMax, g), sub := Some(s), children := kids);
    assert Strip(r) == Strip(n) by {
      assert forall i :: 0 <= i < |n.children| ==> Strip(r).children[i] == Strip(n).children[i];
    }
    r
  }

  lemma {:induction false} SubsAreHasSubs<S>(n: Node<S>, s: S)
    requires SubsAre(n, s)
    ensures HasSubs(n)
  {
    forall i | 0 <= i < |n.children| ensures HasSubs(n.children[i]) {
      SubsAreHasSubs(n.children[i], s);
    }
  }

  /** A tree is determined by its structure, its stopping weights and its
      sub-models. */
  lemma {:induction false} Determined<S>(a: Node<S>, b: Node<S>, dMax: nat, g: real, s: S)
    requires Strip(a) == Strip(b)
    requires HgSet(a, dMax, g) && HgSet(b, dMax, g) && SubsAre(a, s) && SubsAre(b, s)
    ensures a == b
  {
    assert |a.children| == |b.children| by {
      assert |Strip(a).children| == |Strip(b).children|;
    }
    forall i | 0 <= i < |a.children|
      ensures a.children[i] == b.children[i]
    {
      assert Strip(a).children[i] == Strip(b).children[i];
      Determined(a.children[i], b.children[i], dMax, g, s);
    }
    assert a.children == b.children;
  }

  /** Resetting a subtree is setting its stopping weights and then its
      sub-models, as `set_h_params(h_g=..., sub_h_params=...)` does. */
  lemma ResetIsSetHgThenSubs<S>(n: Node<S>, dMax: nat, g: real, s: S)
    ensures ResetSubtree(n, dMax, g, s) == SetSubs(SetHg(n, dMax, g), s)
  {
    var a := ResetSubtree(n, dMax, g, s);
    var h := SetHg(n, dMax, g);
    var b := SetSubs(h, s);
    HgSetIgnoresSubs(h, b, dMax, g);
    EraseStrip(b, false, true);
    EraseStrip(h, false, true);
    EraseStrip(h, true, false);
    EraseStrip(n, true, false);
    Determined(a, b, dMax, g, s);
  }

  /** Stopping weights survive a change of sub-models. */
  lemma {:induction false} HgSetIgnoresSubs<S>(a: Node<S>, b: Node<S>, dMax: nat, g: real)
    requires Erase(a, false, true) == Erase(b, false, true)
    requires HgSet(a, dMax, g)
    ensures HgSet(b, dMax, g)
  {
    forall i | 0 <= i < |b.children|
      ensures HgSet(b.children[i], dMax, g)
    {
      assert Erase(a, false, true).children[i] == Erase(b, false, true).children[i];
      HgSetIgnoresSubs(a.children[i], b.children[i], dMax, g);
    }
  }

  /** `k_candidates.remove(k)` for a split feature that may be unset: removing
      `None` from a list of integers raises ValueError. */
  function RemoveFeature(s: seq<nat>, k: Option<nat>): (r: Result<seq<nat>>)
    ensures r.Ok? <==> k.Some? && k.value in s
    ensures r.Ok? ==> r == Remove(s, k.value)
    ensures r.Err? ==> r.error == ValueError
  {
    if k.None? then Err(ValueError) else Remove(s, k.value)
  }

  /** The fixed arguments of the hyperparameter copy: the number of child
      slots, `c_d_max`, the default stopping weight, the sub-model a new or
      reset node gets, the re-initialisation applied to a node's own
      sub-model, and whether children that already exist are given the new
      candidate lists (`refresh`). */
  datatype HyperCfg<!S> = HyperCfg(refresh: bool, c: nat, dMax: nat, g: real, init: S, reset: S -> S)

  /** The child slots of a node that becomes internal: the children it has,
      or `c` new nodes carrying `cands` when it has none.  With `refresh` the
      children it has are also given `cands`; without it they keep the
      candidate lists they had. */
  function Slots<S>(n: Node<S>, cands: seq<nat>, cfg: HyperCfg<S>): (r: seq<Node<S>>)
    ensures n.children == [] ==> |r| == cfg.c && forall i :: 0 <= i < cfg.c ==>
              r[i] == NewNode(n.depth + 1, cands, 0.5, Some(cfg.init), false)
    ensures n.children != [] ==> |r| == |n.children| && forall i :: 0 <= i < |r| ==>
              r[i] == n.children[i].(kCandidates := if cfg.refresh then cands else n.children[i].kCandidates)
  {
    if n.children == [] then seq(cfg.c, i => NewNode(n.depth + 1, cands, 0.5, Some(cfg.init), false))
    else if cfg.refresh then seq(|n.children|, i requires 0 <= i < |n.children| => n.children[i].(kCandidates := cands))
    else n.children
  }

  /** The slots of a shaped node are shaped, one level deeper. */
  lemma SlotsShaped<S>(n: Node<S>, cands: seq<nat>, cfg: HyperCfg<S>)
    requires Shaped(n, cfg.c)
    ensures var r := Slots(n, cands, cfg);
            |r| == cfg.c && forall i :: 0 <= i < cfg.c ==> Shaped(r[i], cfg.c) && r[i].depth == n.depth + 1
    ensures HasSubs(n) ==> forall i :: 0 <= i < cfg.c ==> HasSubs(Slots(n, cands, cfg)[i])
  {
    var r := Slots(n, cands, cfg);
    forall i | 0 <= i < cfg.c ensures Shaped(r[i], cfg.c) && (HasSubs(n) ==> HasSubs(r[i])) {
      if n.children != [] {
        var m := n.children[i];
        assert Shaped(m, cfg.c) && (HasSubs(n) ==> HasSubs(m));
        assert r[i] == m.(kCandidates := r[i].kCandidates);
      }
    }
  }

  /** The candidates a node gives new or refreshed children when it splits
      on the reference's feature (left empty when the removal fails, in
      which case the copy fails). */
  function ChildCands<S, R>(n: Node<S>, ref: Node<R>): seq<nat>
  {
    var cands := RemoveFeature(n.kCandidates, ref.k);
    if cands.Ok? then cands.value else []
  }

  /** The tree `_set_h_params_recursion(node, original_tree_node)` (and its
      twins `_set_h0_params_recursion` and `_set_hn_params_recursion`) leaves
      behind when no exception interrupts it.  The node takes the reference's
      stopping weight (0 at depth `c_d_max`) and has its own sub-model
      re-initialised; it becomes a leaf when the reference is one or the
      depth is `c_d_max` (keeping its feature and children), and otherwise
      splits on the reference's feature and rebuilds its child slots, which
      are created when missing: slot `j` is reset when the reference has no
      children and rebuilt from the reference's child `j` otherwise. */
  function HyperTree<S, R>(n: Node<S>, ref: Node<R>, cfg: HyperCfg<S>): (r: Node<S>)
    ensures r.depth == n.depth && r.kCandidates == n.kCandidates
    ensures r.hg == StopWeight(n.depth, cfg.dMax, ref.hg)
    ensures r.sub == (if n.sub.Some? then Some(cfg.reset(n.sub.value)) else None)
    ensures r.leaf <==> ref.leaf || n.depth == cfg.dMax
    decreases ref
  {
    var hg := StopWeight(n.depth, cfg.dMax, ref.hg);
    var sub := if n.sub.Some? then Some(cfg.reset(n.sub.value)) else None;
    if ref.leaf || n.depth == cfg.dMax then
      n.(hg := hg, sub := sub, leaf := true)
    else
      var slots := Slots(n, ChildCands(n, ref), cfg);
      var kids := seq(|slots|, j requires 0 <= j < |slots| =>
                        if ref.children == [] then ResetSubtree(slots[j], cfg.dMax, cfg.g, cfg.init)
                        else if j < |ref.children| then HyperTree(slots[j], ref.children[j], cfg)
                        else slots[j]);
      n.(hg := hg, sub := sub, k := ref.k, leaf := false, children := kids)
  }

  /** The first exception the same recursion raises, in the order it visits
      the nodes: AttributeError when the node has no sub-model, ValueError
      when the reference's feature is not one of its candidates, then the
      errors of its slots in order. */
  function HyperError<S, R>(n: Node<S>, ref: Node<R>, cfg: HyperCfg<S>): (e: Option<Error>)
    ensures e.Some? ==> e.value in {ValueError, IndexError, AttributeError}
    decreases ref, 1
  {
    if n.sub.None? then Some(AttributeError)
    else if ref.leaf || n.depth == cfg.dMax then None
    else if RemoveFeature(n.kCandidates, ref.k).Err? then Some(ValueError)
    else KidsError(Slots(n, ChildCands(n, ref), cfg), ref, 0, cfg)
  }

  /** The first error among slots `i, i+1, ...`: none when the reference has
      no children (every slot is reset), IndexError at the first slot the
      reference does not have, or the first error of a rebuilt slot. */
  function KidsError<S, R>(slots: seq<Node<S>>, ref: Node<R>, i: nat, cfg: HyperCfg<S>): (e: Option<Error>)
    requires i <= |slots|
    ensures e.Some? ==> e.value in {ValueError, IndexError, AttributeError}
    decreases ref, 0, |slots| - i
  {
    if i == |slots| || ref.children == [] then None
    else if i >= |ref.children| then Some(IndexError)
    else
      var e := HyperError(slots[i], ref.children[i], cfg);
      if e.Some? then e else KidsError(slots, ref, i + 1, cfg)
  }

  /** `_set_h_params_recursion(node, original_tree_node)` for a reference
      node that is present: the rebuilt tree, or the first exception. */
  function SetHyperRecursion<S, R>(n: Node<S>, ref: Node<R>, cfg: HyperCfg<S>): (r: Result<Node<S>>)
    ensures r.Err? ==> r.error in {ValueError, IndexError, AttributeError}
  {
    var e := HyperError(n, ref, cfg);
    if e.Some? then Err(e.value) else Ok(HyperTree(n, ref, cfg))
  }

  /** The error slot `j` raises. */
  function SlotError<S, R>(slots: seq<Node<S>>, ref: Node<R>, j: nat, cfg: HyperCfg<S>): Option<Error>
    requires j < |slots|
  {
    if ref.children == [] then None
    else if j >= |ref.children| then Some(IndexError)
    else HyperError(slots[j], ref.children[j], cfg)
  }

  /** The slots raise nothing exactly when no single slot does. */
  lemma {:induction false} KidsErrorNone<S, R>(slots: seq<Node<S>>, ref: Node<R>, i: nat, cfg: HyperCfg<S>)
    requires i <= |slots|
    ensures KidsError(slots, ref, i, cfg).None? <==> forall j :: i <= j < |slots| ==> SlotError(slots, ref, j, cfg).None?
    decreases |slots| - i
  {
    if i < |slots| && ref.children != [] {
      KidsErrorNone(slots, ref, i + 1, cfg);
      assert SlotError(slots, ref, i, cfg) == if i >= |ref.children| then Some(IndexError) else HyperError(slots[i], ref.children[i], cfg);
    }
  }

  /** Slot `j` of a node that splits, after the copy. */
  lemma HyperKid<S, R>(n: Node<S>, ref: Node<R>, cfg: HyperCfg<S>, j: nat)
    requires !ref.leaf && n.depth != cfg.dMax && j < |Slots(n, ChildCands(n, ref), cfg)|
    ensures var slots := Slots(n, ChildCands(n, ref), cfg);
            var m := HyperTree(n, ref, cfg);
            && |m.children| == |slots| && !m.leaf && m.k == ref.k
            && m.children[j] == if ref.children == [] then ResetSubtree(slots[j], cfg.dMax, cfg.g, cfg.init)
                                else if j < |ref.children| then HyperTree(slots[j], ref.children[j], cfg)
                                else slots[j]
  {
  }

  /** The copy gives every node a sub-model when every node had one. */
  lemma {:induction false} HyperTreeSubs<S, R>(n: Node<S>, ref: Node<R>, cfg: HyperCfg<S>)
    requires HasSubs(n)
    ensures HasSubs(HyperTree(n, ref, cfg))
    decreases ref
  {
    if !(ref.leaf || n.depth == cfg.dMax) {
      var slots := Slots(n, ChildCands(n, ref), cfg);
      var m := HyperTree(n, ref, cfg);
      forall j | 0 <= j < |m.children| ensures HasSubs(m.children[j]) {
        HyperKid(n, ref, cfg, j);
        SlotHasSubs(n, ChildCands(n, ref), cfg, j);
        if ref.children == [] {
          SubsAreHasSubs(ResetSubtree(slots[j], cfg.dMax, cfg.g, cfg.init), cfg.init);
        } else if j < |ref.children| {
          HyperTreeSubs(slots[j], ref.children[j], cfg);
        }
      }
    }
  }

  lemma SlotHasSubs<S>(n: Node<S>, cands: seq<nat>, cfg: HyperCfg<S>, j: nat)
    requires HasSubs(n) && j < |Slots(n, cands, cfg)|
    ensures HasSubs(Slots(n, cands, cfg)[j])
  {
    var r := Slots(n, cands, cfg);
    if n.children != [] {
      var m := n.children[j];
      assert HasSubs(m);
      assert r[j] == m.(kCandidates := r[j].kCandidates);
    }
  }

  /** A copy that raises nothing keeps a tree shaped. */
  lemma {:induction false} HyperTreeShaped<S, R>(n: Node<S>, ref: Node<R>, cfg: HyperCfg<S>)
    requires cfg.c > 0 && Shaped(n, cfg.c) && HyperError(n, ref, cfg).None?
    ensures Shaped(HyperTree(n, ref, cfg), cfg.c)
    decreases ref
  {
    if !(ref.leaf || n.depth == cfg.dMax) {
      var slots := Slots(n, ChildCands(n, ref), cfg);
      SlotsShaped(n, ChildCands(n, ref), cfg);
      KidsErrorNone(slots, ref, 0, cfg);
      var m := HyperTree(n, ref, cfg);
      forall j | 0 <= j < cfg.c ensures Shaped(m.children[j], cfg.c) && m.children[j].depth == m.depth + 1 {
        HyperKid(n, ref, cfg, j);
        assert SlotError(slots, ref, j, cfg).None?;
        if ref.children == [] {
          var t := ResetSubtree(slots[j], cfg.dMax, cfg.g, cfg.init);
          WellFormedStrip(slots[j], cfg.c, 0);
          WellFormedStrip(t, cfg.c, 0);
        } else {
          HyperTreeShaped(slots[j], ref.children[j], cfg);
        }
      }
      ShapedFromKids(m, cfg.c);
    }
  }

  /** A node with `c` shaped children one level deeper and a split feature
      is shaped. */
  lemma ShapedFromKids<S>(m: Node<S>, c: nat)
    requires c > 0 && |m.children| == c && m.k.Some?
    requires forall j :: 0 <= j < c ==> Shaped(m.children[j], c) && m.children[j].depth == m.depth + 1
    ensures Shaped(m, c)
  {
  }

  /** The decision structure `sh` as seen from a node at `depth`: cut to a
      leaf at depth `c_d_max`. */
  function Cut(sh: Shape, depth: nat, dMax: nat): Shape
  {
    if sh.Stop? || depth == dMax then Stop
    else Split(sh.feature, seq(|sh.kids|, i requires 0 <= i < |sh.kids| => Cut(sh.kids[i], depth + 1, dMax)))
  }

  /** A split node whose children have the cut shapes of a split reference's
      children has the cut shape of the reference. */
  lemma SplitShapeCut<S, R>(m: Node<S>, ref: Node<R>, depth: nat, dMax: nat, c: nat)
    requires !m.leaf && !ref.leaf && m.k == ref.k && depth != dMax
    requires |m.children| == c && |ref.children| == c
    requires forall i :: 0 <= i < c ==> ShapeOf(m.children[i]) == Cut(ShapeOf(ref.children[i]), depth + 1, dMax)
    ensures ShapeOf(m) == Cut(ShapeOf(ref), depth, dMax)
  {
    var refKids := ShapeOf(ref).kids;
    assert forall i :: 0 <= i < c ==> refKids[i] == ShapeOf(ref.children[i]);
    assert ShapeOf(m).kids == Cut(ShapeOf(ref), depth, dMax).kids;
  }

  /** Copying from a complete reference tree reproduces the reference's
      decision structure, cut at depth `c_d_max`, whichever children the
      node had before. */
  lemma {:induction false} HyperTreeShape<S, R>(n: Node<S>, ref: Node<R>, cfg: HyperCfg<S>)
    requires cfg.c > 0 && Shaped(n, cfg.c) && Complete(ref, cfg.c)
    ensures ShapeOf(HyperTree(n, ref, cfg)) == Cut(ShapeOf(ref), n.depth, cfg.dMax)
    decreases ref
  {
    if !(ref.leaf || n.depth == cfg.dMax) {
      var slots := Slots(n, ChildCands(n, ref), cfg);
      var m := HyperTree(n, ref, cfg);
      HyperSplit(n, ref, cfg);
      forall j | 0 <= j < cfg.c ensures ShapeOf(m.children[j]) == Cut(ShapeOf(ref.children[j]), n.depth + 1, cfg.dMax) {
        HyperTreeShape(slots[j], ref.children[j], cfg);
      }
      SplitShapeCut(m, ref, n.depth, cfg.dMax, cfg.c);
    }
  }

  /** One split of a copy from a complete reference: `c` children, each
      copied from its own slot and the matching child of the reference. */
  lemma HyperSplit<S, R>(n: Node<S>, ref: Node<R>, cfg: HyperCfg<S>)
    requires cfg.c > 0 && Shaped(n, cfg.c) && Complete(ref, cfg.c) && !ref.leaf && n.depth != cfg.dMax
    ensures var slots := Slots(n, ChildCands(n, ref), cfg);
            var m := HyperTree(n, ref, cfg);
            && |slots| == cfg.c && |m.children| == cfg.c && |ref.children| == cfg.c && !m.leaf && m.k == ref.k
            && forall j :: 0 <= j < cfg.c ==>
                 && m.children[j] == HyperTree(slots[j], ref.children[j], cfg)
                 && Shaped(slots[j], cfg.c) && Complete(ref.children[j], cfg.c)
  {
    var slots := Slots(n, ChildCands(n, ref), cfg);
    SlotsShaped(n, ChildCands(n, ref), cfg);
    forall j | 0 <= j < cfg.c ensures HyperTree(n, ref, cfg).children[j] == HyperTree(slots[j], ref.children[j], cfg) {
      HyperKid(n, ref, cfg, j);
    }
    HyperKid(n, ref, cfg, 0);
  }

  /** The features of a reference tree fit a candidate list: down to depth
      `c_d_max`, every split of the reference uses a feature that is still a
      candidate once the features above it are removed. */
  ghost predicate FeaturesFit<R>(ref: Node<R>, cands: seq<nat>, depth: nat, dMax: nat)
    decreases ref
  {
    || ref.leaf || depth == dMax
    || (&& ref.k.Some? && ref.k.value in cands
        && forall i :: 0 <= i < |ref.children| ==>
             FeaturesFit(ref.children[i], Remove(cands, ref.k.value).value, depth + 1, dMax))
  }

  /** With the candidate lists refreshed, copying from a complete reference
      tree into a shaped tree whose nodes all have sub-models raises nothing
      exactly when the reference's features fit the node's candidates. */
  lemma {:induction false} HyperSucceeds<S, R>(n: Node<S>, ref: Node<R>, cfg: HyperCfg<S>)
    requires cfg.refresh && cfg.c > 0 && Shaped(n, cfg.c) && HasSubs(n) && Complete(ref, cfg.c)
    ensures HyperError(n, ref, cfg).None? <==> FeaturesFit(ref, n.kCandidates, n.depth, cfg.dMax)
    decreases ref, 1
  {
    if !(ref.leaf || n.depth == cfg.dMax) && RemoveFeature(n.kCandidates, ref.k).Ok? {
      var cands := ChildCands(n, ref);
      var slots := Slots(n, cands, cfg);
      SlotsShaped(n, cands, cfg);
      KidsSucceed(slots, ref, 0, cfg, cands, n.depth + 1);
    }
  }

  /** The children's part of `HyperSucceeds`, slot by slot from slot `i`. */
  lemma {:induction false} KidsSucceed<S, R>(slots: seq<Node<S>>, ref: Node<R>, i: nat, cfg: HyperCfg<S>,
                                             cands: seq<nat>, depth: nat)
    requires cfg.refresh && cfg.c > 0 && |slots| == cfg.c && i <= cfg.c
    requires forall j :: 0 <= j < cfg.c ==>
               Shaped(slots[j], cfg.c) && HasSubs(slots[j]) && slots[j].kCandidates == cands && slots[j].depth == depth
    requires !ref.leaf && |ref.children| == cfg.c && forall j :: 0 <= j < cfg.c ==> Complete(ref.children[j], cfg.c)
    ensures (KidsError(slots, ref, i, cfg).None?) <==>
            forall j :: i <= j < cfg.c ==> FeaturesFit(ref.children[j], cands, depth, cfg.dMax)
    decreases ref, 0, cfg.c - i
  {
    if i < cfg.c {
      assert HyperError(slots[i], ref.children[i], cfg).None? <==> FeaturesFit(ref.children[i], cands, depth, cfg.dMax) by {
        HyperSucceeds(slots[i], ref.children[i], cfg);
      }
      assert (KidsError(slots, ref, i + 1, cfg).None?) <==>
             forall j :: i + 1 <= j < cfg.c ==> FeaturesFit(ref.children[j], cands, depth, cfg.dMax) by {
        KidsSucceed(slots, ref, i + 1, cfg, cands, depth);
      }
    }
  }

  /** With the candidate lists refreshed, or into a node without children
      (where refreshing makes no difference), a copy from a complete
      reference tree into a shaped tree whose root's candidates are well
      kept that raises nothing gives a tree whose live part is consistent. */
  lemma {:induction false} HyperConsistent<S, R>(n: Node<S>, ref: Node<R>, cfg: HyperCfg<S>, cK: nat)
    requires (cfg.refresh || n.children == []) && cfg.c > 0 && Shaped(n, cfg.c) && CandidatesOk(n, cK) && Complete(ref, cfg.c)
    requires HyperError(n, ref, cfg).None?
    ensures Consistent(HyperTree(n, ref, cfg), cK)
    decreases ref, if cfg.refresh then 0 else 1
  {
    if !cfg.refresh {
      FreshCopyIgnoresRefresh(n, ref, cfg);
      HyperConsistent(n, ref, cfg.(refresh := true), cK);
    } else if !(ref.leaf || n.depth == cfg.dMax) {
      var k := ref.k.value;
      var cands := ChildCands(n, ref);
      RemoveDistinct(n.kCandidates, k);
      var slots := Slots(n, cands, cfg);
      SlotsShaped(n, cands, cfg);
      KidsErrorNone(slots, ref, 0, cfg);
      var m := HyperTree(n, ref, cfg);
      forall j | 0 <= j < cfg.c
        ensures m.children[j].kCandidates == cands && Consistent(m.children[j], cK)
      {
        HyperKid(n, ref, cfg, j);
        assert SlotError(slots, ref, j, cfg).None?;
        HyperConsistent(slots[j], ref.children[j], cfg, cK);
      }
      HyperKid(n, ref, cfg, 0);
    }
  }

  /** What a successful `_set_h_params_recursion` leaves: a tree with the
      reference's decision structure cut at depth `c_d_max`, shaped, with a
      sub-model at every node; with refreshed candidate lists, or into a
      node without children, it is also well-formed, and it succeeds exactly
      when the reference's features fit the candidates. */
  lemma SetHyperSpec<S, R>(n: Node<S>, ref: Node<R>, cfg: HyperCfg<S>, cK: nat)
    requires cfg.c > 0 && Shaped(n, cfg.c) && HasSubs(n) && Complete(ref, cfg.c)
    ensures var r := SetHyperRecursion(n, ref, cfg);
            && (r.Ok? ==> ShapeOf(r.value) == Cut(ShapeOf(ref), n.depth, cfg.dMax))
            && (r.Ok? ==> Shaped(r.value, cfg.c) && HasSubs(r.value))
            && (cfg.refresh || n.children == [] ==> (r.Ok? <==> FeaturesFit(ref, n.kCandidates, n.depth, cfg.dMax)))
            && ((cfg.refresh || n.children == []) && CandidatesOk(n, cK) && r.Ok? ==> WellFormed(r.value, cfg.c, cK))
  {
    HyperTreeShape(n, ref, cfg);
    HyperTreeSubs(n, ref, cfg);
    if HyperError(n, ref, cfg).None? {
      HyperTreeShaped(n, ref, cfg);
      if (cfg.refresh || n.children == []) && CandidatesOk(n, cK) {
        HyperConsistent(n, ref, cfg, cK);
      }
    }
    if cfg.refresh {
      HyperSucceeds(n, ref, cfg);
    } else if n.children == [] {
      FreshCopyIgnoresRefresh(n, ref, cfg);
      HyperSucceeds(n, ref, cfg.(refresh := true));
    }
  }

  /** Into a node without children, the copy creates every slot it fills,
      so whether existing children would be refreshed makes no difference:
      the candidate-list fix changes only copies into trees that have been
      copied into before. */
  lemma {:induction false} FreshCopyIgnoresRefresh<S, R>(n: Node<S>, ref: Node<R>, cfg: HyperCfg<S>)
    requires n.children == []
    ensures HyperError(n, ref, cfg) == HyperError(n, ref, cfg.(refresh := !cfg.refresh))
    ensures HyperTree(n, ref, cfg) == HyperTree(n, ref, cfg.(refresh := !cfg.refresh))
    decreases ref
  {
    var other := cfg.(refresh := !cfg.refresh);
    if !(ref.leaf || n.depth == cfg.dMax) {
      var slots := Slots(n, ChildCands(n, ref), cfg);
      assert Slots(n, ChildCands(n, ref), other) == slots;
      forall j | 0 <= j < |slots| && j < |ref.children|
        ensures HyperError(slots[j], ref.children[j], cfg) == HyperError(slots[j], ref.children[j], other)
        ensures HyperTree(slots[j], ref.children[j], cfg) == HyperTree(slots[j], ref.children[j], other)
      {
        FreshCopyIgnoresRefresh(slots[j], ref.children[j], cfg);
      }
      KidsErrorSame(slots, ref, 0, cfg, other);
      assert HyperTree(n, ref, cfg).children == HyperTree(n, ref, other).children;
    }
  }

  /** The slots' first error is the same under two configurations under
      which every slot raises the same error. */
  lemma {:induction false} KidsErrorSame<S, R>(slots: seq<Node<S>>, ref: Node<R>, i: nat, cfg: HyperCfg<S>, other: HyperCfg<S>)
    requires i <= |slots|
    requires forall j :: i <= j < |slots| && j < |ref.children| ==>
               HyperError(slots[j], ref.children[j], cfg) == HyperError(slots[j], ref.children[j], other)
    ensures KidsError(slots, ref, i, cfg) == KidsError(slots, ref, i, other)
    decreases |slots| - i
  {
    if i < |slots| {
      KidsErrorSame(slots, ref, i + 1, cfg, other);
    }
  }

  /** A reference leaf, and two reference trees over two features: the
      first splits its root on feature 0; the second splits its root on
      feature 1 and its first child on feature 0. */
  function RefLeaf(depth: nat): Node<int>
  {
    Node(depth, [], [], 0.5, None, Some(0), true, false)
  }

  function RefFirst(): Node<int>
  {
    Node(0, [RefLeaf(1), RefLeaf(1)], [], 0.5, Some(0), Some(0), false, false)
  }

  function RefSecond(): Node<int>
  {
    var inner := Node(1, [RefLeaf(2), RefLeaf(2)], [], 0.5, Some(0), Some(0), false, false);
    Node(0, [inner, RefLeaf(1)], [], 0.5, Some(1), Some(0), false, false)
  }

  /** The copy's arguments for two child slots, `c_d_max = 5`, default
      stopping weight 1/2 and integer stand-ins for sub-models. */
  function DemoCfg(refresh: bool): HyperCfg<int>
  {
    HyperCfg(refresh, 2, 5, 0.5, 0, (s: int) => s)
  }

  /** A new entry of the list of meta-trees over two features. */
  function DemoRoot(): Node<int>
  {
    NewNode(0, [0, 1], 0.5, Some(0), false)
  }

  /** Removing either value from a pair leaves the other. */
  lemma RemoveFromPair(a: nat, b: nat)
    requires a != b
    ensures Remove([a, b], a) == Ok([b]) && Remove([a, b], b) == Ok([a])
  {
    assert IndexOf([a, b], a) == 0;
    assert IndexOf([a, b], b) == 1;
    assert [a, b][..0] + [a, b][1..] == [b];
    assert [a, b][..1] + [a, b][2..] == [a];
  }

  /** Both references are complete binary trees whose features fit the
      two features. */
  lemma DemoFirstFits()
    ensures Complete(RefFirst(), 2) && FeaturesFit(RefFirst(), [0, 1], 0, 5)
  {
  }

  lemma DemoSecondFits<R>(ref: Node<R>, a: nat, b: nat, dMax: nat)
    requires a != b && dMax > 1
    requires !ref.leaf && ref.k == Some(b) && |ref.children| == 2 && ref.children[1].leaf
    requires var inner := ref.children[0];
             && !inner.leaf && inner.k == Some(a) && |inner.children| == 2
             && inner.children[0].leaf && inner.children[1].leaf
             && ref.children == [inner, ref.children[1]]
             && inner.children == [inner.children[0], inner.children[1]]
    ensures Complete(ref, 2) && FeaturesFit(ref, [a, b], 0, dMax)
  {
    RemoveFromPair(a, b);
    var inner := ref.children[0];
    PairComplete(inner, inner.children[0], inner.children[1]);
    PairComplete(ref, inner, ref.children[1]);
    LeafKidsFit(inner, [a], 1, dMax);
  }

  /** A split into two complete children is complete. */
  lemma PairComplete<R>(m: Node<R>, c0: Node<R>, c1: Node<R>)
    requires m.children == [c0, c1] && Complete(c0, 2) && Complete(c1, 2)
    ensures Complete(m, 2)
  {
    assert forall i :: 0 <= i < 2 ==> m.children[i] == c0 || m.children[i] == c1;
  }

  /** A split on a candidate into leaves fits the candidates. */
  lemma LeafKidsFit<R>(ref: Node<R>, cands: seq<nat>, depth: nat, dMax: nat)
    requires !ref.leaf && ref.k.Some? && ref.k.value in cands
    requires forall i :: 0 <= i < |ref.children| ==> ref.children[i].leaf
    ensures FeaturesFit(ref, cands, depth, dMax)
  {
  }

  /** The first copy into a new entry gives it two children holding the
      candidate list `[1]`. */
  lemma DemoFirstKids(root: Node<int>, ref: Node<int>, cfg: HyperCfg<int>, j: nat)
    requires root == DemoRoot() && ref == RefFirst() && cfg.c == 2 && cfg.dMax == 5 && j < 2
    ensures var t := HyperTree(root, ref, cfg);
            && t.depth == 0 && t.kCandidates == [0, 1] && t.sub.Some? && |t.children| == 2
            && t.children[j].depth == 1 && t.children[j].sub.Some? && t.children[j].kCandidates == [1]
  {
    RemoveFromPair(0, 1);
    HyperKid(root, ref, cfg, j);
  }

  /** As written, a second copy from a reference that splits on feature 1
      and then 0 fails at the first child of a tree whose existing first
      child still holds the candidate list `[1]` left by a split on
      feature 0. */
  lemma DemoSecondWritten(t: Node<int>, ref: Node<int>, cfg: HyperCfg<int>)
    requires !cfg.refresh && cfg.dMax == 5
    requires t.depth == 0 && t.sub.Some? && t.kCandidates == [0, 1] && |t.children| == 2
    requires t.children[0].depth == 1 && t.children[0].sub.Some? && t.children[0].kCandidates == [1]
    requires !ref.leaf && ref.k == Some(1) && ref.children != []
    requires !ref.children[0].leaf && ref.children[0].k == Some(0)
    ensures HyperError(t, ref, cfg) == Some(ValueError)
  {
    DemoStaleKid(t.children[0], ref.children[0], cfg);
    DemoFailsAtFirstKid(t, ref, cfg);
  }

  lemma DemoFailsAtFirstKid<S, R>(t: Node<S>, ref: Node<R>, cfg: HyperCfg<S>)
    requires !cfg.refresh && t.sub.Some? && !ref.leaf && t.depth != cfg.dMax
    requires ref.k.Some? && ref.k.value in t.kCandidates
    requires t.children != [] && ref.children != [] && HyperError(t.children[0], ref.children[0], cfg).Some?
    ensures HyperError(t, ref, cfg) == HyperError(t.children[0], ref.children[0], cfg)
  {
    assert Slots(t, ChildCands(t, ref), cfg) == t.children;
  }

  lemma DemoStaleKid(kid: Node<int>, ref: Node<int>, cfg: HyperCfg<int>)
    requires cfg.dMax == 5 && kid.depth == 1 && kid.sub.Some? && kid.kCandidates == [1]
    requires !ref.leaf && ref.k == Some(0)
    ensures HyperError(kid, ref, cfg) == Some(ValueError)
  {
  }

  /** Copying `RefFirst` and then `RefSecond` into the same new list entry,
      as two calls of `set_h_params(h_metatree_list=[...])` do.  As written,
      the children the first copy created keep the candidate list `[1]` they
      got under the root's old feature 0, so the second copy, which removes
      feature 0 at the first child, raises ValueError although `RefSecond`
      fits the two features.  Handing existing children the new candidate
      lists (`refresh`) makes the second copy succeed. */
  lemma StaleCandidatesRaise()
    ensures var first := SetHyperRecursion(DemoRoot(), RefFirst(), DemoCfg(false));
            && first.Ok?
            && SetHyperRecursion(first.value, RefSecond(), DemoCfg(false)) == Err(ValueError)
    ensures var first := SetHyperRecursion(DemoRoot(), RefFirst(), DemoCfg(true));
            && first.Ok?
            && SetHyperRecursion(first.value, RefSecond(), DemoCfg(true)).Ok?
  {
    var root := DemoRoot();
    var written := DemoCfg(false);
    var fixed := DemoCfg(true);
    DemoFirstFits();
    DemoSecondFits(RefSecond(), 0, 1, 5);
    assert Shaped(root, 2) && HasSubs(root);
    FreshCopyIgnoresRefresh(root, RefFirst(), fixed);
    assert fixed.(refresh := !fixed.refresh) == written;
    HyperSucceeds(root, RefFirst(), fixed);
    var t := HyperTree(root, RefFirst(), fixed);
    assert t == HyperTree(root, RefFirst(), written);
    HyperTreeShaped(root, RefFirst(), fixed);
    HyperTreeSubs(root, RefFirst(), fixed);
    DemoFirstKids(root, RefFirst(), fixed, 0);
    HyperSucceeds(t, RefSecond(), fixed);
    DemoSecondWritten(t, RefSecond(), written);
  }

  /** A fitted decision tree as scikit-learn stores it: node `id` is a leaf
      when `left[id]` is `TREE_LEAF`, and otherwise splits on
      `feature[id]` into `left[id]` and `right[id]`. */
  datatype Skeleton = Skeleton(left: seq<int>, right: seq<int>, feature: seq<int>)

  const TREE_LEAF: int := -1

  /** The arrays scikit-learn produces: of one length, and every internal
      node has a non-negative feature and two children stored after it. */
  predicate ValidSkeleton(t: Skeleton)
  {
    && |t.left| == |t.right| == |t.feature|
    && forall id :: 0 <= id < |t.left| ==> SkeletonNode(t, id)
  }

  predicate SkeletonNode(t: Skeleton, id: nat)
    requires id < |t.left| == |t.right| == |t.feature|
  {
    t.left[id] != TREE_LEAF ==>
      && id < t.left[id] < |t.left| && id < t.right[id] < |t.left| && t.feature[id] >= 0
  }

  /** A new child made while copying a fitted tree: one level deeper, the
      given candidates, stopping weight `h0_g` and a new sub-model. */
  function SkeletonChild<S>(n: Node<S>, cands: seq<nat>, g: real, init: S): (r: Node<S>)
    ensures r == NewNode(n.depth + 1, cands, g, Some(init), false)
  {
    NewNode(n.depth + 1, cands, g, Some(init), false)
  }

  /** The tree `_copy_tree_from_sklearn_tree(new_node, tree, id)` leaves when
      nothing interrupts it: a fitted leaf becomes a leaf with stopping
      weight 0; a fitted split sets the node's feature and fills its two
      slots with new nodes copied from the left and the right subtree. */
  function CopyTree<S>(n: Node<S>, t: Skeleton, id: nat, g: real, init: S): (r: Node<S>)
    requires ValidSkeleton(t) && id < |t.left|
    ensures r.depth == n.depth && r.kCandidates == n.kCandidates && r.sub == n.sub
    decreases |t.left| - id
  {
    assert SkeletonNode(t, id);
    if t.left[id] != TREE_LEAF then
      var k := t.feature[id] as nat;
      var cands := Remove(n.kCandidates, k);
      if cands.Err? then n.(k := Some(k))
      else
        var c0 := CopyTree(SkeletonChild(n, cands.value, g, init), t, t.left[id] as nat, g, init);
        var c1 := CopyTree(SkeletonChild(n, cands.value, g, init), t, t.right[id] as nat, g, init);
        n.(k := Some(k), children := [c0, c1])
    else
      n.(hg := 0.0, leaf := true)
  }

  /** The first exception of the copy: the ValueError of removing a fitted
      feature that is not a candidate, left subtree before right. */
  function CopyError<S>(n: Node<S>, t: Skeleton, id: nat, g: real, init: S): (e: Option<Error>)
    requires ValidSkeleton(t) && id < |t.left|
    ensures e.Some? ==> e.value == ValueError
    decreases |t.left| - id
  {
    assert SkeletonNode(t, id);
    if t.left[id] == TREE_LEAF then None
    else
      var cands := Remove(n.kCandidates, t.feature[id] as nat);
      if cands.Err? then Some(ValueError)
      else
        var e := CopyError(SkeletonChild(n, cands.value, g, init), t, t.left[id] as nat, g, init);
        if e.Some? then e else CopyError(SkeletonChild(n, cands.value, g, init), t, t.right[id] as nat, g, init)
  }

  /** `_copy_tree_from_sklearn_tree` as a whole. */
  function CopyFromSkeleton<S>(n: Node<S>, t: Skeleton, id: nat, g: real, init: S): (r: Result<Node<S>>)
    requires ValidSkeleton(t) && id < |t.left|
    ensures r.Err? ==> r.error == ValueError
  {
    var e := CopyError(n, t, id, g, init);
    if e.Some? then Err(e.value) else Ok(CopyTree(n, t, id, g, init))
  }

  /** The decision structure a fitted tree describes. */
  function SkeletonShape(t: Skeleton, id: nat): Shape
    requires ValidSkeleton(t) && id < |t.left|
    decreases |t.left| - id
  {
    assert SkeletonNode(t, id);
    if t.left[id] == TREE_LEAF then Stop
    else Split(Some(t.feature[id] as nat),
               [SkeletonShape(t, t.left[id] as nat), SkeletonShape(t, t.right[id] as nat)])
  }

  /** Along every root-to-leaf path of the fitted tree below `id`, the
      features used are distinct members of `cands`. */
  ghost predicate SkeletonFits(t: Skeleton, id: nat, cands: seq<nat>)
    requires ValidSkeleton(t) && id < |t.left|
    decreases |t.left| - id
  {
    assert SkeletonNode(t, id);
    t.left[id] != TREE_LEAF ==>
      var k := t.feature[id] as nat;
      && k in cands
      && SkeletonFits(t, t.left[id] as nat, Remove(cands, k).value)
      && SkeletonFits(t, t.right[id] as nat, Remove(cands, k).value)
  }

  /** Every leaf has stopping weight 0. */
  ghost predicate LeavesStop<S>(n: Node<S>)
  {
    if n.leaf then n.hg == 0.0 else forall i :: 0 <= i < |n.children| ==> LeavesStop(n.children[i])
  }

  /** Child slot `j` of a node the copy splits. */
  lemma CopyKids<S>(n: Node<S>, t: Skeleton, id: nat, g: real, init: S)
    requires ValidSkeleton(t) && id < |t.left| && SkeletonNode(t, id) && t.left[id] != TREE_LEAF
    requires t.feature[id] as nat in n.kCandidates
    ensures var child := SkeletonChild(n, Remove(n.kCandidates, t.feature[id] as nat).value, g, init);
            var m := CopyTree(n, t, id, g, init);
            && m.leaf == n.leaf && m.k == Some(t.feature[id] as nat)
            && m.children == [CopyTree(child, t, t.left[id] as nat, g, init),
                              CopyTree(child, t, t.right[id] as nat, g, init)]
  {
    assert SkeletonNode(t, id);
  }

  /** The copy raises nothing exactly when the fitted features fit the
      candidates. */
  lemma {:induction false} CopySucceeds<S>(n: Node<S>, t: Skeleton, id: nat, g: real, init: S)
    requires ValidSkeleton(t) && id < |t.left|
    ensures CopyError(n, t, id, g, init).None? <==> SkeletonFits(t, id, n.kCandidates)
    decreases |t.left| - id
  {
    assert SkeletonNode(t, id);
    if t.left[id] != TREE_LEAF && t.feature[id] as nat in n.kCandidates {
      var child := SkeletonChild(n, Remove(n.kCandidates, t.feature[id] as nat).value, g, init);
      CopySucceeds(child, t, t.left[id] as nat, g, init);
      CopySucceeds(child, t, t.right[id] as nat, g, init);
    }
  }

  /** A copy into a node that is not a leaf (as `_MTRF` creates them)
      reproduces the fitted tree's decision structure, and gives every leaf
      stopping weight 0. */
  lemma {:induction false} CopyShape<S>(n: Node<S>, t: Skeleton, id: nat, g: real, init: S)
    requires ValidSkeleton(t) && id < |t.left| && !n.leaf
    requires CopyError(n, t, id, g, init).None?
    ensures ShapeOf(CopyTree(n, t, id, g, init)) == SkeletonShape(t, id)
    ensures LeavesStop(CopyTree(n, t, id, g, init))
    decreases |t.left| - id
  {
    assert SkeletonNode(t, id);
    if t.left[id] != TREE_LEAF {
      var k := t.feature[id] as nat;
      var child := SkeletonChild(n, Remove(n.kCandidates, k).value, g, init);
      var l := t.left[id] as nat;
      var r := t.right[id] as nat;
      var c0 := CopyTree(child, t, l, g, init);
      var c1 := CopyTree(child, t, r, g, init);
      assert ShapeOf(c0) == SkeletonShape(t, l) && LeavesStop(c0) by {
        CopyShape(child, t, l, g, init);
      }
      assert ShapeOf(c1) == SkeletonShape(t, r) && LeavesStop(c1) by {
        CopyShape(child, t, r, g, init);
      }
      CopyKids(n, t, id, g, init);
      SplitShape(CopyTree(n, t, id, g, init), c0, c1);
    }
  }

  /** The shape of a node that splits into two children is made of theirs. */
  lemma SplitShape<S>(m: Node<S>, c0: Node<S>, c1: Node<S>)
    requires !m.leaf && m.children == [c0, c1] && LeavesStop(c0) && LeavesStop(c1)
    ensures ShapeOf(m) == Split(m.k, [ShapeOf(c0), ShapeOf(c1)]) && LeavesStop(m)
  {
    assert forall i :: 0 <= i < 2 ==> m.children[i] == c0 || m.children[i] == c1;
  }

  /** A copy that raises nothing, into a shaped node with well-kept
      candidates and a sub-model at every node, yields a well-formed binary
      meta-tree with a sub-model at every node. */
  lemma {:induction false} CopyWellFormed<S>(n: Node<S>, t: Skeleton, id: nat, g: real, init: S, cK: nat)
    requires ValidSkeleton(t) && id < |t.left|
    requires Shaped(n, 2) && CandidatesOk(n, cK) && HasSubs(n)
    requires CopyError(n, t, id, g, init).None?
    ensures WellFormed(CopyTree(n, t, id, g, init), 2, cK) && HasSubs(CopyTree(n, t, id, g, init))
    decreases |t.left| - id, 1
  {
    if t.left[id] != TREE_LEAF {
      CopySplitWellFormed(n, t, id, g, init, cK);
    }
  }

  lemma {:induction false} CopySplitWellFormed<S>(n: Node<S>, t: Skeleton, id: nat, g: real, init: S, cK: nat)
    requires ValidSkeleton(t) && id < |t.left| && t.left[id] != TREE_LEAF
    requires CandidatesOk(n, cK) && n.sub.Some?
    requires CopyError(n, t, id, g, init).None?
    ensures WellFormed(CopyTree(n, t, id, g, init), 2, cK) && HasSubs(CopyTree(n, t, id, g, init))
    decreases |t.left| - id, 0
  {
    assert SkeletonNode(t, id);
    var k := t.feature[id] as nat;
    assert k in n.kCandidates;
    var cands := Remove(n.kCandidates, k).value;
    var child := SkeletonChild(n, cands, g, init);
    var l := t.left[id] as nat;
    var r := t.right[id] as nat;
    assert CandidatesOk(child, cK) && Shaped(child, 2) && HasSubs(child) by {
      RemoveDistinct(n.kCandidates, k);
    }
    var c0 := CopyTree(child, t, l, g, init);
    var c1 := CopyTree(child, t, r, g, init);
    assert CopyError(child, t, l, g, init).None? && CopyError(child, t, r, g, init).None?;
    assert WellFormed(c0, 2, cK) && HasSubs(c0) by {
      CopyWellFormed(child, t, l, g, init, cK);
    }
    assert WellFormed(c1, 2, cK) && HasSubs(c1) by {
      CopyWellFormed(child, t, r, g, init, cK);
    }
    CopyKids(n, t, id, g, init);
    SplitFromKids(CopyTree(n, t, id, g, init), c0, c1, cands, cK);
  }

  /** A node that splits on one of its candidates into two well-formed
      binary nodes one level down, each with the remaining candidates, is
      well-formed. */
  lemma SplitFromKids<S>(m: Node<S>, c0: Node<S>, c1: Node<S>, cands: seq<nat>, cK: nat)
    requires CandidatesOk(m, cK) && m.sub.Some? && m.k.Some? && m.k.value in m.kCandidates
    requires cands == Remove(m.kCandidates, m.k.value).value && m.children == [c0, c1]
    requires c0.depth == m.depth + 1 && c0.kCandidates == cands && WellFormed(c0, 2, cK) && HasSubs(c0)
    requires c1.depth == m.depth + 1 && c1.kCandidates == cands && WellFormed(c1, 2, cK) && HasSubs(c1)
    ensures WellFormed(m, 2, cK) && HasSubs(m)
  {
    assert forall i :: 0 <= i < 2 ==> m.children[i] == c0 || m.children[i] == c1;
  }
}
