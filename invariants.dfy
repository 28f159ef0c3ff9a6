/** The invariant every meta-tree of the learning model keeps between calls,
    and the lemmas showing that each recursion of
    bayesml/metatree/_metatree_x_discrete.py that rewrites a tree keeps it:
    the hyperparameter copies, the stopping-weight and sub-model resets, the
    copy of a fitted tree, the posterior update, the predictive pass and the
    MAP pass. */
module Invariants {
  import opened Wrappers
  import opened Nodes
  import opened Builders
  import opened Posterior
  import opened MapEstimate
  import opened LeafModel

  // ---------------------------------------------------------------------
  // The invariant
  // ---------------------------------------------------------------------

  /** The live part of the tree stops by depth `c_d_max`: every node that
      is not a leaf lies above it. */
  ghost predicate Bounded<S>(n: Node<S>, dMax: nat)
  {
    && n.depth <= dMax
    && (!n.leaf ==> n.depth < dMax && forall i :: 0 <= i < |n.children| ==> Bounded(n.children[i], dMax))
  }

  /** A decision structure seen from `depth` splits only above `c_d_max`. */
  ghost predicate Within(sh: Shape, depth: nat, dMax: nat)
  {
    sh.Split? ==> depth < dMax && forall i :: 0 <= i < |sh.kids| ==> Within(sh.kids[i], depth + 1, dMax)
  }

  /** A tree every recursion of the learning model can run on: well-formed,
      a sub-model at every node, stopping weights in [0, 1] and no split at
      or below `c_d_max`. */
  ghost predicate Sound<S>(n: Node<S>, c: nat, cK: nat, dMax: nat)
  {
    WellFormed(n, c, cK) && HasSubs(n) && StopWeightsIn01(n) && Bounded(n, dMax)
  }

  /** A sound tree rooted like `_Node(0, c, list(range(c_k)), ...)`. */
  ghost predicate Root<S>(n: Node<S>, c: nat, cK: nat, dMax: nat)
  {
    n.depth == 0 && n.kCandidates == Range(cK) && Sound(n, c, cK, dMax)
  }

  // ---------------------------------------------------------------------
  // What the invariant gives
  // ---------------------------------------------------------------------

  /** A root has every child slot of its live part filled. */
  lemma {:induction false} WellFormedComplete<S>(n: Node<S>, c: nat, cK: nat)
    requires WellFormed(n, c, cK)
    ensures Complete(n, c)
  {
    if !n.leaf {
      forall i | 0 <= i < c ensures Complete(n.children[i], c) {
        WellFormedComplete(n.children[i], c, cK);
      }
    }
  }

  /** A sound tree can go through `_map_recursion`. */
  lemma {:induction false} SoundMapReady<S>(n: Node<S>, cfg: MapCfg<S>)
    requires WellFormed(n, cfg.c, cfg.cK) && Bounded(n, cfg.dMax)
    ensures MapReady(n, cfg)
  {
    if !n.leaf {
      forall i | 0 <= i < cfg.c ensures MapReady(n.children[i], cfg) {
        SoundMapReady(n.children[i], cfg);
      }
    }
  }

  /** Along the path of an accepted feature vector, a sound tree meets the
      preconditions of `_update_posterior_recursion`, whatever `y` is, as
      long as the family's predictive values are positive. */
  lemma {:induction false} SoundUpdatable<S(!new), H>(fam: LearnSub<S, H>, n: Node<S>, c: nat, cK: nat, x: seq<int>, y: real)
    requires PositiveEvidence(fam) && WellFormed(n, c, cK) && HasSubs(n) && StopWeightsIn01(n)
    requires ValidX(x, c, cK)
    ensures Updatable(fam, n, x, y)
  {
    if !n.leaf {
      var f := n.k.value;
      assert f < cK;
      SoundUpdatable(fam, n.children[x[f]], c, cK, x, y);
    }
  }

  // ---------------------------------------------------------------------
  // Parts of the invariant that depend on fewer fields
  // ---------------------------------------------------------------------

  /** The depth bound is a property of the structure alone. */
  lemma {:induction false} BoundedStrip<S>(n: Node<S>, dMax: nat)
    ensures Bounded(n, dMax) <==> Bounded(Strip(n), dMax)
  {
    var s := Strip(n);
    forall i | 0 <= i < |n.children| ensures Bounded(n.children[i], dMax) <==> Bounded(s.children[i], dMax) {
      BoundedStrip(n.children[i], dMax);
      assert s.children[i] == Strip(n.children[i]);
    }
  }

  /** Two trees with one structure are sound together. */
  lemma SoundSameShape<S>(a: Node<S>, b: Node<S>, c: nat, cK: nat, dMax: nat)
    requires Strip(a) == Strip(b)
    requires HasSubs(b) && StopWeightsIn01(b)
    ensures Sound(a, c, cK, dMax) ==> Sound(b, c, cK, dMax)
  {
    WellFormedSameShape(a, b, c, cK);
    BoundedStrip(a, dMax);
    BoundedStrip(b, dMax);
  }

  /** Sub-models are all present or not whatever the stopping weights are. */
  lemma {:induction false} HasSubsErase<S>(n: Node<S>)
    ensures HasSubs(n) <==> HasSubs(Erase(n, true, false))
  {
    var e := Erase(n, true, false);
    forall i | 0 <= i < |n.children| ensures HasSubs(n.children[i]) <==> HasSubs(e.children[i]) {
      HasSubsErase(n.children[i]);
      assert e.children[i] == Erase(n.children[i], true, false);
    }
  }

  /** Stopping weights lie in [0, 1] or not whatever the sub-models are. */
  lemma {:induction false} StopWeightsErase<S>(n: Node<S>)
    ensures StopWeightsIn01(n) <==> StopWeightsIn01(Erase(n, false, true))
  {
    var e := Erase(n, false, true);
    forall i | 0 <= i < |n.children| ensures StopWeightsIn01(n.children[i]) <==> StopWeightsIn01(e.children[i]) {
      StopWeightsErase(n.children[i]);
      assert e.children[i] == Erase(n.children[i], false, true);
    }
  }

  /** Weights set from a default in [0, 1] lie in [0, 1]. */
  lemma {:induction false} HgSetIn01<S>(n: Node<S>, dMax: nat, g: real)
    requires HgSet(n, dMax, g) && 0.0 <= g <= 1.0
    ensures StopWeightsIn01(n)
  {
    forall i | 0 <= i < |n.children| ensures StopWeightsIn01(n.children[i]) {
      HgSetIn01(n.children[i], dMax, g);
    }
  }

  /** A decision structure cut at `c_d_max` splits only above it. */
  lemma {:induction false} CutWithin(sh: Shape, depth: nat, dMax: nat)
    requires depth <= dMax
    ensures Within(Cut(sh, depth, dMax), depth, dMax)
  {
    if !(sh.Stop? || depth == dMax) {
      var r := Cut(sh, depth, dMax);
      forall i | 0 <= i < |r.kids| ensures Within(r.kids[i], depth + 1, dMax) {
        CutWithin(sh.kids[i], depth + 1, dMax);
      }
    }
  }

  /** A shaped tree whose decision structure splits only above `c_d_max`
      is bounded. */
  lemma {:induction false} ShapeBounded<S>(m: Node<S>, c: nat, dMax: nat)
    requires Shaped(m, c) && m.depth <= dMax && Within(ShapeOf(m), m.depth, dMax)
    ensures Bounded(m, dMax)
  {
    if !m.leaf {
      forall i | 0 <= i < |m.children| ensures Bounded(m.children[i], dMax) {
        assert ShapeOf(m).kids[i] == ShapeOf(m.children[i]);
        ShapeBounded(m.children[i], c, dMax);
      }
    }
  }

  // ---------------------------------------------------------------------
  // The rewrites keep the invariant
  // ---------------------------------------------------------------------

  /** `_set_h*_g_recursion` with a new default in [0, 1] keeps a tree
      sound. */
  lemma SetHgSound<S>(n: Node<S>, c: nat, cK: nat, dMax: nat, g: real)
    requires Sound(n, c, cK, dMax) && 0.0 <= g <= 1.0
    ensures Sound(SetHg(n, dMax, g), c, cK, dMax)
  {
    var r := SetHg(n, dMax, g);
    EraseStrip(r, true, false);
    EraseStrip(n, true, false);
    HasSubsErase(n);
    HasSubsErase(r);
    HgSetIn01(r, dMax, g);
    SoundSameShape(n, r, c, cK, dMax);
  }

  /** `_set_sub_h*_params_recursion` keeps a tree sound. */
  lemma SetSubsSound<S>(n: Node<S>, c: nat, cK: nat, dMax: nat, s: S)
    requires Sound(n, c, cK, dMax)
    ensures Sound(SetSubs(n, s), c, cK, dMax)
  {
    var r := SetSubs(n, s);
    EraseStrip(r, false, true);
    EraseStrip(n, false, true);
    StopWeightsErase(n);
    StopWeightsErase(r);
    SubsAreHasSubs(r, s);
    SoundSameShape(n, r, c, cK, dMax);
  }

  /** One posterior update along an accepted path keeps a tree sound. */
  lemma UpdateSound<S(!new), H>(fam: LearnSub<S, H>, n: Node<S>, c: nat, cK: nat, dMax: nat, x: seq<int>, y: real)
    requires PositiveEvidence(fam) && Sound(n, c, cK, dMax) && ValidX(x, c, cK)
    ensures Updatable(fam, n, x, y)
    ensures Sound(UpdatePath(fam, n, x, y).0, c, cK, dMax)
  {
    SoundUpdatable(fam, n, c, cK, x, y);
    SoundSameShape(n, UpdatePath(fam, n, x, y).0, c, cK, dMax);
  }

  /** The stopping weights of the slots a split node fills. */
  lemma SlotWeights<S>(n: Node<S>, cands: seq<nat>, cfg: HyperCfg<S>, j: nat)
    requires StopWeightsIn01(n) && j < |Slots(n, cands, cfg)|
    ensures StopWeightsIn01(Slots(n, cands, cfg)[j])
  {
    var r := Slots(n, cands, cfg);
    if n.children != [] {
      var m := n.children[j];
      assert StopWeightsIn01(m);
      assert r[j] == m.(kCandidates := r[j].kCandidates);
    }
  }

  /** The hyperparameter copy from a reference whose stopping weights lie
      in [0, 1], with a default in [0, 1], leaves every weight in [0, 1]. */
  lemma {:induction false} HyperTreeWeights<S, R>(n: Node<S>, ref: Node<R>, cfg: HyperCfg<S>)
    requires StopWeightsIn01(n) && StopWeightsIn01(ref) && 0.0 <= cfg.g <= 1.0
    ensures StopWeightsIn01(HyperTree(n, ref, cfg))
    decreases ref
  {
    if !(ref.leaf || n.depth == cfg.dMax) {
      var slots := Slots(n, ChildCands(n, ref), cfg);
      var m := HyperTree(n, ref, cfg);
      forall j | 0 <= j < |m.children| ensures StopWeightsIn01(m.children[j]) {
        HyperKid(n, ref, cfg, j);
        SlotWeights(n, ChildCands(n, ref), cfg, j);
        if ref.children == [] {
          HgSetIn01(ResetSubtree(slots[j], cfg.dMax, cfg.g, cfg.init), cfg.dMax, cfg.g);
        } else if j < |ref.children| {
          HyperTreeWeights(slots[j], ref.children[j], cfg);
        }
      }
    }
  }

  /** `_set_h*_params_recursion` with refreshed candidate lists, or as
      written into a root without children (a fresh root), from a complete
      reference with weights in [0, 1] whose features fit, turns a
      root-shaped tree into a sound root; and it raises exactly when the
      features do not fit. */
  lemma HyperRoot<S, R>(n: Node<S>, ref: Node<R>, cfg: HyperCfg<S>, cK: nat)
    requires (cfg.refresh || n.children == []) && cfg.c > 0 && 0.0 <= cfg.g <= 1.0
    requires n.depth == 0 && n.kCandidates == Range(cK) && Shaped(n, cfg.c) && HasSubs(n) && StopWeightsIn01(n)
    requires Complete(ref, cfg.c) && StopWeightsIn01(ref)
    ensures SetHyperRecursion(n, ref, cfg).Ok? <==> FeaturesFit(ref, Range(cK), 0, cfg.dMax)
    ensures SetHyperRecursion(n, ref, cfg).Ok? ==> Root(SetHyperRecursion(n, ref, cfg).value, cfg.c, cK, cfg.dMax)
    ensures SetHyperRecursion(n, ref, cfg).Ok? ==> ShapeOf(SetHyperRecursion(n, ref, cfg).value) == Cut(ShapeOf(ref), 0, cfg.dMax)
    ensures SetHyperRecursion(n, ref, cfg).Err? ==> SetHyperRecursion(n, ref, cfg).error == ValueError
  {
    HyperErrorKind(n, ref, cfg);
    SetHyperSpec(n, ref, cfg, cK);
    if SetHyperRecursion(n, ref, cfg).Ok? {
      var m := HyperTree(n, ref, cfg);
      assert CandidatesOk(n, cK) by {
        assert forall f :: f in Range(cK) ==> f < cK;
      }
      HyperTreeWeights(n, ref, cfg);
      CutWithin(ShapeOf(ref), 0, cfg.dMax);
      ShapeBounded(m, cfg.c, cfg.dMax);
    }
  }

  /** With a sub-model at every node and a complete reference, the only
      exception the hyperparameter copy can raise is the ValueError of a
      feature that is not a candidate. */
  lemma {:induction false} HyperErrorKind<S, R>(n: Node<S>, ref: Node<R>, cfg: HyperCfg<S>)
    requires cfg.c > 0 && Shaped(n, cfg.c) && HasSubs(n) && Complete(ref, cfg.c)
    ensures HyperError(n, ref, cfg) == None || HyperError(n, ref, cfg) == Some(ValueError)
    decreases ref, 1
  {
    if !(ref.leaf || n.depth == cfg.dMax) && RemoveFeature(n.kCandidates, ref.k).Ok? {
      var cands := ChildCands(n, ref);
      var slots := Slots(n, cands, cfg);
      SlotsShaped(n, cands, cfg);
      KidsErrorKind(slots, ref, 0, cfg);
    }
  }

  lemma {:induction false} KidsErrorKind<S, R>(slots: seq<Node<S>>, ref: Node<R>, i: nat, cfg: HyperCfg<S>)
    requires cfg.c > 0 && |slots| == cfg.c && i <= cfg.c
    requires forall j :: 0 <= j < cfg.c ==> Shaped(slots[j], cfg.c) && HasSubs(slots[j])
    requires !ref.leaf && |ref.children| == cfg.c && forall j :: 0 <= j < cfg.c ==> Complete(ref.children[j], cfg.c)
    ensures KidsError(slots, ref, i, cfg) == None || KidsError(slots, ref, i, cfg) == Some(ValueError)
    decreases ref, 0, cfg.c - i
  {
    if i < cfg.c {
      HyperErrorKind(slots[i], ref.children[i], cfg);
      KidsErrorKind(slots, ref, i + 1, cfg);
    }
  }

  /** A well-formed tree's features fit its own candidate lists, so a sound
      root can serve as the reference of another copy. */
  lemma {:induction false} WellFormedFits<S>(n: Node<S>, c: nat, cK: nat, dMax: nat)
    requires WellFormed(n, c, cK)
    ensures FeaturesFit(n, n.kCandidates, n.depth, dMax)
  {
    if !n.leaf && n.depth != dMax {
      forall i | 0 <= i < |n.children|
        ensures FeaturesFit(n.children[i], Remove(n.kCandidates, n.k.value).value, n.depth + 1, dMax)
      {
        WellFormedFits(n.children[i], c, cK, dMax);
      }
    }
  }

  /** The fitted tree's splits all lie above `c_d_max` (scikit-learn grows
      it with `max_depth=c_d_max`). */
  ghost predicate SkeletonWithin(t: Skeleton, dMax: nat)
    requires ValidSkeleton(t) && 0 < |t.left|
  {
    Within(SkeletonShape(t, 0), 0, dMax)
  }

  /** The copy of a fitted tree gives stopping weights in [0, 1] when the
      node and the default `h0_g` have them. */
  lemma {:induction false} CopyTreeWeights<S>(n: Node<S>, t: Skeleton, id: nat, g: real, init: S)
    requires ValidSkeleton(t) && id < |t.left|
    requires StopWeightsIn01(n) && 0.0 <= g <= 1.0
    ensures StopWeightsIn01(CopyTree(n, t, id, g, init))
    decreases |t.left| - id
  {
    assert SkeletonNode(t, id);
    if t.left[id] != TREE_LEAF && t.feature[id] as nat in n.kCandidates {
      var child := SkeletonChild(n, Remove(n.kCandidates, t.feature[id] as nat).value, g, init);
      var c0 := CopyTree(child, t, t.left[id] as nat, g, init);
      var c1 := CopyTree(child, t, t.right[id] as nat, g, init);
      assert StopWeightsIn01(c0) by { CopyTreeWeights(child, t, t.left[id] as nat, g, init); }
      assert StopWeightsIn01(c1) by { CopyTreeWeights(child, t, t.right[id] as nat, g, init); }
      CopyKids(n, t, id, g, init);
      PairWeights(CopyTree(n, t, id, g, init), c0, c1);
    } else if t.left[id] != TREE_LEAF {
      assert Remove(n.kCandidates, t.feature[id] as nat).Err?;
    }
  }

  lemma PairWeights<S>(m: Node<S>, c0: Node<S>, c1: Node<S>)
    requires 0.0 <= m.hg <= 1.0 && m.children == [c0, c1] && StopWeightsIn01(c0) && StopWeightsIn01(c1)
    ensures StopWeightsIn01(m)
  {
    assert forall i :: 0 <= i < 2 ==> m.children[i] == c0 || m.children[i] == c1;
  }

  /** `_copy_tree_from_sklearn_tree` into the fresh binary root `_MTRF`
      makes yields a sound root whenever the copy raises nothing and the
      fitted tree stops by `c_d_max`. */
  lemma CopyRoot<S>(t: Skeleton, cK: nat, dMax: nat, hnG: real, h0G: real, sHn: S, sH0: S)
    requires ValidSkeleton(t) && 0 < |t.left| && SkeletonWithin(t, dMax)
    requires 0.0 <= hnG <= 1.0 && 0.0 <= h0G <= 1.0
    requires CopyFromSkeleton(NewNode(0, Range(cK), hnG, Some(sHn), false), t, 0, h0G, sH0).Ok?
    ensures Root(CopyFromSkeleton(NewNode(0, Range(cK), hnG, Some(sHn), false), t, 0, h0G, sH0).value, 2, cK, dMax)
  {
    var n := NewNode(0, Range(cK), hnG, Some(sHn), false);
    var m := CopyTree(n, t, 0, h0G, sH0);
    assert CandidatesOk(n, cK) by {
      assert forall f :: f in Range(cK) ==> f < cK;
    }
    CopyWellFormed(n, t, 0, h0G, sH0, cK);
    CopyTreeWeights(n, t, 0, h0G, sH0);
    CopyShape(n, t, 0, h0G, sH0);
    ShapeBounded(m, 2, dMax);
  }

  /** `_map_recursion_add_nodes` below a leaf, with `c >= 1` and a default
      weight in [0, 1], keeps the tree shaped, with sub-models and weights
      in [0, 1]. */
  lemma {:induction false} AddNodesKeeps<S>(n: Node<S>, cfg: MapCfg<S>)
    requires CandidatesOk(n, cfg.cK) && n.depth <= cfg.dMax && cfg.c >= 1 && 0.0 <= cfg.hnG <= 1.0
    requires Shaped(n, cfg.c) && HasSubs(n) && StopWeightsIn01(n)
    ensures var r := AddNodes(n, cfg); Shaped(r, cfg.c) && HasSubs(r) && StopWeightsIn01(r)
    ensures AddNodes(n, cfg).leaf == (n.leaf || n.depth == cfg.dMax || n.depth == cfg.cK)
    decreases |n.kCandidates|
  {
    if n.depth < cfg.dMax && n.depth < cfg.cK {
      var child := GrowChild(n, cfg);
      var t := AddNodes(child, cfg);
      AddNodesKeeps(child, cfg);
      var r := AddNodes(n, cfg);
      assert r.children == Copies(cfg.c, t);
      assert t.depth == n.depth + 1;
    }
  }

  /** `_map_recursion` with `c >= 1` and `hn_g` in [0, 1] keeps a tree
      sound: it only marks nodes and grows subtrees below leaves. */
  lemma {:induction false} MapRecSound<S>(n: Node<S>, cfg: MapCfg<S>)
    requires Sound(n, cfg.c, cfg.cK, cfg.dMax) && cfg.c >= 1 && 0.0 <= cfg.hnG <= 1.0
    ensures MapReady(n, cfg)
    ensures Sound(MapRec(n, cfg).0, cfg.c, cfg.cK, cfg.dMax)
    decreases n
  {
    SoundMapReady(n, cfg);
    if n.leaf {
      if !LeafPick(n.depth, cfg).0 {
        AddNodesKeeps(n, cfg);
      }
    } else {
      var kids := MapKids(n.children, cfg);
      var m := MapRec(n, cfg).0;
      forall i | 0 <= i < cfg.c
        ensures m.children[i] == MapRec(n.children[i], cfg).0
        ensures Sound(m.children[i], cfg.c, cfg.cK, cfg.dMax)
      {
        MapKidsAt(n.children, cfg, i);
        MapRecSound(n.children[i], cfg);
      }
      MapSplitSound(n, m, cfg);
    }
  }

  /** An internal node whose children were replaced one for one by sound
      trees of the same depth and candidates stays sound. */
  lemma MapSplitSound<S>(n: Node<S>, m: Node<S>, cfg: MapCfg<S>)
    requires Sound(n, cfg.c, cfg.cK, cfg.dMax) && !n.leaf && cfg.c >= 1
    requires m == n.(children := m.children, mapLeaf := m.mapLeaf) && |m.children| == cfg.c
    requires forall i :: 0 <= i < cfg.c ==>
               && m.children[i].depth == n.children[i].depth
               && m.children[i].kCandidates == n.children[i].kCandidates
               && Sound(m.children[i], cfg.c, cfg.cK, cfg.dMax)
    ensures Sound(m, cfg.c, cfg.cK, cfg.dMax)
  {
  }
}
