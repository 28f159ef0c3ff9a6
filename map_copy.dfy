/** Copying out the maximum a posteriori meta-tree and choosing which
    posterior meta-tree to copy it from (`_copy_map_tree_recursion` and the
    `"0-1"` branch of `estimate_params`,
    bayesml/metatree/_metatree_x_discrete.py lines 1469-1538). */
module MapCopy {
  import opened Wrappers
  import opened Nodes
  import opened MapEstimate
  import opened Posterior

  // ---------------------------------------------------------------------
  // The copy
  // ---------------------------------------------------------------------

  /** `_copy_map_tree_recursion` into a fresh node at `depth` with candidate
      list `cands`.  The copy takes the stopping weight.  A node the
      recursion marked as a MAP leaf becomes a leaf holding the original's
      sub-model; any other node splits on the original's feature, which is
      removed from the candidates (a `ValueError` when it is `None` or not a
      candidate), and each of the `c` slots is copied from the original's
      child in that slot (an `AttributeError` when that slot is empty). */
  function CopyMap<S>(depth: nat, cands: seq<nat>, orig: Node<S>, c: nat): (r: Result<Node<S>>)
    ensures r.Ok? ==> r.value.depth == depth && r.value.kCandidates == cands && r.value.hg == orig.hg
    ensures r.Ok? ==> r.value.leaf == orig.mapLeaf && !r.value.mapLeaf
    decreases orig, 1
  {
    if orig.mapLeaf then Ok(Node(depth, [], cands, orig.hg, None, orig.sub, true, false))
    else if orig.k.None? then Err(ValueError)
    else
      var rest :- Remove(cands, orig.k.value);
      var kids :- CopyMapKids(depth + 1, rest, orig, c, 0);
      Ok(Node(depth, kids, cands, orig.hg, orig.k, None, false, false))
  }

  /** The slots `i`, ..., `c - 1` of a split copy, in the loop's order. */
  function CopyMapKids<S>(depth: nat, cands: seq<nat>, orig: Node<S>, c: nat, i: nat): (r: Result<seq<Node<S>>>)
    requires i <= c
    ensures r.Ok? ==> |r.value| == c - i && (i < c ==> c <= |orig.children|)
    ensures r.Ok? ==> forall j :: 0 <= j < c - i ==> i + j < |orig.children| && CopyMap(depth, cands, orig.children[i + j], c) == Ok(r.value[j])
    decreases orig, 0, c - i
  {
    if i == c then Ok([])
    else if i >= |orig.children| then Err(AttributeError)
    else
      var first :- CopyMap(depth, cands, orig.children[i], c);
      var rest :- CopyMapKids(depth, cands, orig, c, i + 1);
      Ok([first] + rest)
  }

  /** When the copy succeeds: every node the recursion kept splitting names
      a feature still available on its path (counted with multiplicity, as
      `list.remove` removes one occurrence) and has all `c` slots filled. */
  ghost predicate MapConsistent<S>(orig: Node<S>, avail: multiset<nat>, c: nat)
  {
    || orig.mapLeaf
    || (&& orig.k.Some? && orig.k.value in avail && c <= |orig.children|
        && forall i :: 0 <= i < c ==> MapConsistent(orig.children[i], avail - multiset{orig.k.value}, c))
  }

  /** The copy fails exactly when the marked tree is inconsistent. */
  lemma {:induction false} CopyMapOk<S>(depth: nat, cands: seq<nat>, orig: Node<S>, c: nat)
    ensures CopyMap(depth, cands, orig, c).Ok? <==> MapConsistent(orig, multiset(cands), c)
    decreases orig, 1
  {
    if !orig.mapLeaf && orig.k.Some? && orig.k.value in cands {
      var rest := Remove(cands, orig.k.value).value;
      assert multiset(rest) == multiset(cands) - multiset{orig.k.value};
      CopyMapKidsOk(depth + 1, rest, orig, c, 0);
    }
  }

  lemma {:induction false} CopyMapKidsOk<S>(depth: nat, cands: seq<nat>, orig: Node<S>, c: nat, i: nat)
    requires i <= c
    ensures CopyMapKids(depth, cands, orig, c, i).Ok? <==>
              && (i < c ==> c <= |orig.children|)
              && forall j :: i <= j < c ==> MapConsistent(orig.children[j], multiset(cands), c)
    decreases orig, 0, c - i
  {
    if i < c && i < |orig.children| {
      CopyMapOk(depth, cands, orig.children[i], c);
      CopyMapKidsOk(depth, cands, orig, c, i + 1);
    }
  }

  /** The copy is the marked part of the tree: each node takes the
      original's stopping weight, a MAP leaf becomes a leaf with the
      original's sub-model and no children, and any other node splits on the
      original's feature into copies of its first `c` children. */
  ghost predicate Copied<S>(copy: Node<S>, orig: Node<S>, c: nat)
  {
    && copy.hg == orig.hg && copy.leaf == orig.mapLeaf && !copy.mapLeaf
    && if orig.mapLeaf then copy.sub == orig.sub && copy.children == [] && copy.k == None
       else
         && copy.sub == None && copy.k == orig.k && |copy.children| == c && c <= |orig.children|
         && forall i :: 0 <= i < c ==> Copied(copy.children[i], orig.children[i], c)
  }

  lemma {:induction false} CopyMapCopied<S>(depth: nat, cands: seq<nat>, orig: Node<S>, c: nat)
    requires CopyMap(depth, cands, orig, c).Ok?
    ensures Copied(CopyMap(depth, cands, orig, c).value, orig, c)
    decreases orig
  {
    if !orig.mapLeaf {
      var copy := CopyMap(depth, cands, orig, c).value;
      var rest := Remove(cands, orig.k.value).value;
      var kids := CopyMapKids(depth + 1, rest, orig, c, 0).value;
      assert copy.children == kids;
      forall i | 0 <= i < c
        ensures Copied(copy.children[i], orig.children[i], c)
      {
        assert CopyMap(depth + 1, rest, orig.children[i], c) == Ok(kids[i]);
        CopyMapCopied(depth + 1, rest, orig.children[i], c);
      }
    }
  }

  /** Copied from a full candidate list, the tree is well formed: the
      copy's candidate lists shrink by the split feature at every level. */
  lemma {:induction false} CopyMapWellFormed<S>(depth: nat, cands: seq<nat>, orig: Node<S>, c: nat, cK: nat)
    requires c >= 1 && Distinct(cands) && (forall f :: f in cands ==> f < cK) && depth + |cands| == cK
    requires CopyMap(depth, cands, orig, c).Ok?
    ensures WellFormed(CopyMap(depth, cands, orig, c).value, c, cK)
    decreases orig
  {
    var copy := CopyMap(depth, cands, orig, c).value;
    if !orig.mapLeaf {
      var k := orig.k.value;
      var rest := Remove(cands, k).value;
      RemoveDistinct(cands, k);
      var kids := CopyMapKids(depth + 1, rest, orig, c, 0).value;
      forall i | 0 <= i < c
        ensures WellFormed(kids[i], c, cK) && kids[i].depth == depth + 1 && kids[i].kCandidates == rest
      {
        assert CopyMap(depth + 1, rest, orig.children[i], c) == Ok(kids[i]);
        CopyMapWellFormed(depth + 1, rest, orig.children[i], c, cK);
      }
      CopyShape(copy, c, cK);
    }
  }

  /** A split copy whose children are well formed one level down, with the
      candidates less the split feature, is well formed. */
  lemma CopyShape<S>(copy: Node<S>, c: nat, cK: nat)
    requires CandidatesOk(copy, cK) && !copy.leaf && copy.k.Some? && copy.k.value in copy.kCandidates
    requires |copy.children| == c && c >= 1
    requires forall i :: 0 <= i < c ==>
               && WellFormed(copy.children[i], c, cK) && copy.children[i].depth == copy.depth + 1
               && copy.children[i].kCandidates == Remove(copy.kCandidates, copy.k.value).value
    ensures WellFormed(copy, c, cK)
  {
  }

  // ---------------------------------------------------------------------
  // Choosing the tree
  // ---------------------------------------------------------------------

  /** The loop of `estimate_params` over weighted values `probs`: the
      running index starts at 0 and the running best at 0.0, and a value
      replaces them only when strictly larger. */
  function Scan(probs: seq<real>): (r: (nat, real))
  {
    if |probs| == 0 then (0, 0.0)
    else
      var prev := Scan(probs[..|probs| - 1]);
      if probs[|probs| - 1] > prev.1 then (|probs| - 1, probs[|probs| - 1]) else prev
  }

  /** One more step of the scan. */
  lemma ScanStep(probs: seq<real>, i: nat)
    requires i < |probs|
    ensures Scan(probs[..i + 1]) == if probs[i] > Scan(probs[..i]).1 then (i, probs[i]) else Scan(probs[..i])
  {
    assert probs[..i + 1][..i] == probs[..i];
  }

  /** The scan finds the first position of the largest value when some value
      is positive, and position 0 with best 0.0 otherwise. */
  lemma {:induction false} ScanFirstMax(probs: seq<real>)
    ensures var r := Scan(probs);
      && r.1 >= 0.0
      && (forall j :: 0 <= j < |probs| ==> probs[j] <= r.1)
      && (r.1 == 0.0 ==> r.0 == 0)
      && (r.1 > 0.0 ==> r.0 < |probs| && probs[r.0] == r.1 && forall j :: 0 <= j < r.0 ==> probs[j] < r.1)
  {
    if |probs| > 0 {
      var init := probs[..|probs| - 1];
      ScanFirstMax(init);
      assert forall j :: 0 <= j < |init| ==> init[j] == probs[j];
    }
  }

  /** `_map_recursion` applied to every posterior tree in turn. */
  function MapAll<S>(trees: seq<Node<S>>, cfg: MapCfg<S>): (r: seq<(Node<S>, real)>)
    requires forall i :: 0 <= i < |trees| ==> MapReady(trees[i], cfg)
    ensures |r| == |trees|
  {
    seq(|trees|, i requires 0 <= i < |trees| => MapRec(trees[i], cfg))
  }

  lemma MapAllAt<S>(trees: seq<Node<S>>, cfg: MapCfg<S>, i: nat)
    requires forall i :: 0 <= i < |trees| ==> MapReady(trees[i], cfg)
    requires i < |trees|
    ensures MapAll(trees, cfg)[i] == MapRec(trees[i], cfg)
  {
  }

  /** Each tree's weight times its MAP value, as far as both lists go. */
  function Weighted(w: seq<real>, v: seq<real>): (r: seq<real>)
    ensures |r| == if |v| <= |w| then |v| else |w|
  {
    var n := if |v| <= |w| then |v| else |w|;
    seq(n, i requires 0 <= i < n => Weigh(w[i], v[i]))
  }

  /** A tree's weight times its MAP value. */
  function Weigh(x: real, y: real): real
  {
    x * y
  }

  lemma WeightedAt(w: seq<real>, v: seq<real>, i: nat, x: real)
    requires i < |v| && i < |w| && v[i] == x
    ensures Weighted(w, v)[i] == Weigh(w[i], x)
  {
  }

  lemma MarkedStep<S>(marked: seq<Node<S>>, all: seq<(Node<S>, real)>, t: Node<S>, i: nat)
    requires |marked| == i < |all| && t == all[i].0
    requires forall j :: 0 <= j < i ==> marked[j] == all[j].0
    ensures forall j :: 0 <= j < i + 1 ==> (marked + [t])[j] == all[j].0
  {
  }

  /** The first exception the loop of `estimate_params` raises from step
      `i` on.  Step `i` evaluates `prob_vec[i] * _map_recursion(tree)` left
      to right: without weights (no posterior yet) the lookup fails with a
      `TypeError`, past their end with an `IndexError`, and only then may
      the recursion divide by zero.  Taking the chosen tree out of an empty
      list after the loop fails with an `IndexError`. */
  function SelectError<S>(trees: seq<Node<S>>, w: Option<seq<real>>, cfg: MapCfg<S>, i: nat): (e: Option<Error>)
    ensures e.Some? ==> e.value in {TypeError, IndexError, ZeroDivisionError}
    decreases |trees| - i
  {
    if i >= |trees| then (if trees == [] then Some(IndexError) else None)
    else if w.None? then Some(TypeError)
    else if i >= |w.value| then Some(IndexError)
    else if DividesByZero(trees[i], cfg) then Some(ZeroDivisionError)
    else SelectError(trees, w, cfg, i + 1)
  }

  /** With one weight per tree the loop can only fail on an empty list, or
      by dividing by zero in some tree. */
  lemma {:induction false} SelectErrorFits<S>(trees: seq<Node<S>>, w: Option<seq<real>>, cfg: MapCfg<S>, i: nat)
    requires trees != [] ==> w.Some? && |w.value| == |trees|
    ensures SelectError(trees, w, cfg, i) ==
              if trees == [] then Some(IndexError)
              else if exists j :: i <= j < |trees| && DividesByZero(trees[j], cfg) then Some(ZeroDivisionError)
              else None
    decreases |trees| - i
  {
    if i < |trees| {
      SelectErrorFits(trees, w, cfg, i + 1);
      if !DividesByZero(trees[i], cfg) {
        assert (exists j :: i <= j < |trees| && DividesByZero(trees[j], cfg))
           <==> (exists j :: i + 1 <= j < |trees| && DividesByZero(trees[j], cfg));
      }
    }
  }

  /** The loop of `estimate_params`: it marks every tree in turn and keeps
      the first one with the largest weighted value, or raises the first
      exception of `SelectError`.  On success it returns the marked trees
      and the chosen position. */
  method SelectMap<S>(trees: seq<Node<S>>, w: Option<seq<real>>, cfg: MapCfg<S>) returns (r: Result<(seq<Node<S>>, nat)>)
    requires forall i :: 0 <= i < |trees| ==> MapReady(trees[i], cfg)
    ensures r.Err? <==> SelectError(trees, w, cfg, 0).Some?
    ensures r.Err? ==> r.error == SelectError(trees, w, cfg, 0).value
    ensures r.Ok? ==> w.Some? && |trees| <= |w.value|
    ensures r.Ok? ==> r.value.0 == Trees(MapAll(trees, cfg)) && r.value.1 < |trees|
    ensures r.Ok? ==> r.value.1 == Scan(Weighted(w.value, Values(MapAll(trees, cfg)))).0
  {
    var index: nat := 0;
    var best := 0.0;
    var marked: seq<Node<S>> := [];
    ghost var all := MapAll(trees, cfg);
    ghost var vals := Values(all);
    ghost var probs := if w.Some? then Weighted(w.value, vals) else [];
    var i := 0;
    while i < |trees|
      invariant 0 <= i <= |trees| && |marked| == i
      invariant i > 0 ==> w.Some? && i <= |probs|
      invariant forall j :: 0 <= j < i ==> marked[j] == all[j].0
      invariant (index, best) == Scan(probs[..i])
      invariant SelectError(trees, w, cfg, 0) == SelectError(trees, w, cfg, i)
    {
      if w.None? {
        return Err(TypeError);
      }
      if i >= |w.value| {
        return Err(IndexError);
      }
      if DividesByZero(trees[i], cfg) {
        return Err(ZeroDivisionError);
      }
      var m := MapRec(trees[i], cfg);
      MapAllAt(trees, cfg, i);
      var prob := Weigh(w.value[i], m.1);
      assert vals[i] == m.1;
      WeightedAt(w.value, vals, i, m.1);
      assert probs[i] == prob;
      ScanStep(probs, i);
      if prob > best {
        index := i;
        best := prob;
      }
      MarkedStep(marked, all, m.0, i);
      marked := marked + [m.0];
      i := i + 1;
    }
    if |trees| == 0 {
      return Err(IndexError);
    }
    assert probs[..|trees|] == probs;
    ScanFirstMax(probs);
    assert marked == Trees(all);
    return Ok((marked, index));
  }

  // ---------------------------------------------------------------------
  // The marked tree can be copied
  // ---------------------------------------------------------------------

  /** The tree `_map_recursion_add_nodes` grows splits on available
      features only. */
  lemma {:induction false} AddNodesConsistent<S>(n: Node<S>, cfg: MapCfg<S>)
    requires CandidatesOk(n, cfg.cK) && n.depth <= cfg.dMax
    ensures MapConsistent(AddNodes(n, cfg), multiset(n.kCandidates), cfg.c)
    decreases |n.kCandidates|
  {
    if n.depth < cfg.dMax && n.depth < cfg.cK {
      var cands := n.kCandidates;
      var child := GrowChild(n, cfg);
      var t := AddNodes(child, cfg);
      var r := AddNodes(n, cfg);
      AddNodesConsistent(child, cfg);
      assert cands == [cands[0]] + cands[1..];
      assert multiset(child.kCandidates) == multiset(cands) - multiset{cands[0]};
      assert r.children == Copies(cfg.c, t) && r.k == Some(cands[0]);
      ConsistentCopies(r, t, multiset(cands), cfg.c);
    }
  }

  /** A node splitting on an available feature into copies of one tree that
      is consistent without that feature is consistent. */
  lemma ConsistentCopies<S>(r: Node<S>, t: Node<S>, avail: multiset<nat>, c: nat)
    requires r.k.Some? && r.k.value in avail && r.children == Copies(c, t)
    requires MapConsistent(t, avail - multiset{r.k.value}, c)
    ensures MapConsistent(r, avail, c)
  {
  }

  /** On a well-kept posterior tree, every node the recursion leaves
      unmarked splits on a feature still available on its path, so the copy
      cannot fail. */
  lemma {:induction false} MapRecConsistent<S>(n: Node<S>, cfg: MapCfg<S>)
    requires MapReady(n, cfg) && Consistent(n, cfg.cK)
    ensures MapConsistent(MapRec(n, cfg).0, multiset(n.kCandidates), cfg.c)
    decreases n
  {
    if n.leaf {
      if !LeafPick(n.depth, cfg).0 {
        AddNodesConsistent(n, cfg);
      }
    } else {
      var k := n.k.value;
      var avail := multiset(n.kCandidates) - multiset{k};
      var kids := MapKids(n.children, cfg);
      var m := MapRec(n, cfg).0;
      forall i | 0 <= i < cfg.c
        ensures MapConsistent(m.children[i], avail, cfg.c)
      {
        MapKidsAt(n.children, cfg, i);
        MapRecConsistent(n.children[i], cfg);
        assert n.children[i].kCandidates == Remove(n.kCandidates, k).value;
      }
    }
  }

  /** A distinct list holds each value at most once. */
  lemma {:induction false} DistinctOnce(s: seq<nat>, f: nat)
    requires Distinct(s)
    ensures multiset(s)[f] <= 1
  {
    if |s| > 0 {
      var rest := s[1..];
      assert s == [s[0]] + rest;
      assert Distinct(rest) by {
        forall i, j | 0 <= i < j < |rest|
          ensures rest[i] != rest[j]
        {
          assert rest[i] == s[i + 1] && rest[j] == s[j + 1];
        }
      }
      DistinctOnce(rest, f);
      if s[0] == f {
        assert f !in rest by {
          forall j | 0 <= j < |rest|
            ensures rest[j] != f
          {
            assert rest[j] == s[j + 1];
          }
        }
      }
    }
  }

  /** A candidate list of a node is part of the root's `range(c_k)`. */
  lemma CandidatesInRange(s: seq<nat>, cK: nat)
    requires Distinct(s) && forall f :: f in s ==> f < cK
    ensures multiset(s) <= multiset(Range(cK))
  {
    forall f: nat
      ensures multiset(s)[f] <= multiset(Range(cK))[f]
    {
      DistinctOnce(s, f);
      if f in s {
        assert Range(cK)[f] == f;
      }
    }
  }

  /** More available features never make a consistent tree inconsistent. */
  lemma {:induction false} MapConsistentMono<S>(t: Node<S>, a: multiset<nat>, b: multiset<nat>, c: nat)
    requires a <= b && MapConsistent(t, a, c)
    ensures MapConsistent(t, b, c)
    decreases t
  {
    if !t.mapLeaf {
      var k := t.k.value;
      assert a - multiset{k} <= b - multiset{k};
      forall i | 0 <= i < c
        ensures MapConsistent(t.children[i], b - multiset{k}, c)
      {
        MapConsistentMono(t.children[i], a - multiset{k}, b - multiset{k}, c);
      }
    }
  }

  /** The tree `estimate_params` chooses, once marked, copies into the
      fresh root `_Node(0, c, list(range(c_k)))` without error, and the copy
      is a well-formed meta-tree holding exactly the marked part. */
  lemma EstimateCopies<S>(t: Node<S>, cfg: MapCfg<S>)
    requires MapReady(t, cfg) && Consistent(t, cfg.cK) && cfg.c >= 1
    ensures CopyMap(0, Range(cfg.cK), MapRec(t, cfg).0, cfg.c).Ok?
    ensures WellFormed(CopyMap(0, Range(cfg.cK), MapRec(t, cfg).0, cfg.c).value, cfg.c, cfg.cK)
    ensures Copied(CopyMap(0, Range(cfg.cK), MapRec(t, cfg).0, cfg.c).value, MapRec(t, cfg).0, cfg.c)
  {
    var m := MapRec(t, cfg).0;
    MapRecConsistent(t, cfg);
    CandidatesInRange(t.kCandidates, cfg.cK);
    MapConsistentMono(m, multiset(t.kCandidates), multiset(Range(cfg.cK)), cfg.c);
    CopyMapOk(0, Range(cfg.cK), m, cfg.c);
    assert Distinct(Range(cfg.cK));
    CopyMapWellFormed(0, Range(cfg.cK), m, cfg.c, cfg.cK);
    CopyMapCopied(0, Range(cfg.cK), m, cfg.c);
  }

  /** No way of cutting any of the posterior trees, weighted by that tree's
      posterior probability, beats the value the loop of `estimate_params`
      settles on; and the chosen tree attains it whenever it is positive.
      With the source's exponent this needs `c_d_max <= c_k`. */
  lemma EstimateOptimal<S>(trees: seq<Node<S>>, w: seq<real>, cfg: MapCfg<S>, j: nat, s: Shape)
    requires forall i :: 0 <= i < |trees| ==> MapReady(trees[i], cfg)
    requires j < |trees| <= |w| && 0.0 <= w[j] && ExponentExact(cfg)
    requires StopWeightsIn01(trees[j]) && 0.0 <= cfg.hnG <= 1.0 && cfg.c >= 1 && Prunes(s, trees[j], cfg)
    ensures Weigh(w[j], PruneProb(s, trees[j], cfg)) <= Scan(Weighted(w, Values(MapAll(trees, cfg)))).1
  {
    var probs := Weighted(w, Values(MapAll(trees, cfg)));
    ScanAbove(probs, j);
    WeightedPrune(trees, w, cfg, j, s);
  }

  /** Every weighted value is at most the scan's best. */
  lemma ScanAbove(probs: seq<real>, j: nat)
    requires j < |probs|
    ensures probs[j] <= Scan(probs).1
  {
    ScanFirstMax(probs);
  }

  /** A cutting of one tree, weighted, is at most that tree's weighted MAP
      value. */
  lemma WeightedPrune<S>(trees: seq<Node<S>>, w: seq<real>, cfg: MapCfg<S>, j: nat, s: Shape)
    requires forall i :: 0 <= i < |trees| ==> MapReady(trees[i], cfg)
    requires j < |trees| <= |w| && 0.0 <= w[j] && ExponentExact(cfg)
    requires StopWeightsIn01(trees[j]) && 0.0 <= cfg.hnG <= 1.0 && cfg.c >= 1 && Prunes(s, trees[j], cfg)
    ensures Weigh(w[j], PruneProb(s, trees[j], cfg)) <= Weighted(w, Values(MapAll(trees, cfg)))[j]
  {
    var x, p, v := w[j], PruneProb(s, trees[j], cfg), MapRec(trees[j], cfg).1;
    MapRecOptimal(s, trees[j], cfg);
    assert p <= v;
    MapAllAt(trees, cfg, j);
    WeightedAt(w, Values(MapAll(trees, cfg)), j, v);
    ScaleBound(x, p, v);
  }

  lemma ScaleBound(x: real, a: real, b: real)
    requires 0.0 <= x && a <= b
    ensures Weigh(x, a) <= Weigh(x, b)
  {
    MulNonneg(x, b - a);
  }
}
