# Meta-tree models over discrete features

This project models the meta-tree engine of BayesML's
`bayesml/metatree/_metatree_x_discrete.py`. A meta-tree is a tree of
`_Node`s. Every node has:

- a depth;
- a list of features it may still split on (`k_candidates`);
- a stopping weight `h_g`;
- a split feature `k` and a `leaf` flag;
- a MAP mark (`map_leaf`);
- a leaf model (`sub_model`);
- `c_num_children` child slots.

Two classes use these trees.

- `GenModel` is the data-generating model. It draws a true tree from the
  prior, copies a given tree, and samples a target value at the leaf a
  feature vector reaches.
- `LearnModel` holds a prior and a posterior ensemble, each a list of
  meta-trees with a probability vector over them. It does the following:
  - updates the posterior on data, either with the trees it already holds
    (`given_MT`) or with trees copied from a fitted random forest (`MTRF`);
  - merges structurally equal trees;
  - predicts under squared or 0-1 loss;
  - extracts the MAP tree.

The Dafny modules follow the structure of the source:

| module | file | what it models |
|---|---|---|
| `Wrappers` | wrappers.dfy | `Option`, `Result` and the exceptions the source raises |
| `Nodes` | nodes.dfy | `_Node` as an immutable datatype; `list.remove`; paths; well-formedness |
| `LeafModel` | leaf_model.dfy | the leaf-model families, as records of total functions |
| `Samples` | samples.dfy | integer arrays, `reshape` and `max` |
| `Builders` | builders.dfy | the `h_g` and sub-model setters; the hyperparameter copy `_set_h*_params_recursion`; `_copy_tree_from_sklearn_tree` |
| `Generator` | generator.dfy | `_gen_params_recursion`, `_gen_params_recursion_tree_fix`, `_set_params_recursion` |
| `Prediction` | prediction.dfy | traversal, `_gen_sample_recursion`, `_calc_pred_dist_recursion`, both prediction recursions, `make_prediction` |
| `Posterior` | posterior.dfy | `_update_posterior_recursion` |
| `Merge` | merge.dfy | `_compare_metatree_recursion` and the in-place `_marge_metatrees` |
| `MapEstimate` | map_estimate.dfy | `_map_recursion`, `_map_recursion_add_nodes` and the optimality of the MAP choice |
| `MapCopy` | map_copy.dfy | `_copy_map_tree_recursion` and the selection loop of `estimate_params` |
| `Invariants` | invariants.dfy | the soundness invariant every operation keeps |
| `Ensemble` | ensemble.dfy | the hyperparameter record (class `HyperParams`) and the `set_h*_params` setter |
| `Generative` | gen_model.dfy | class `GenModel` |
| `Learning` | learn_model.dfy | class `LearnModel` |

How the source's in-place code maps onto the model:

- A tree is a value. Every recursion that changes a tree in place becomes a
  function from the old subtree to the new one. A node is owned by exactly
  one parent, so no aliasing is lost.
- The model classes and the hyperparameter record are Dafny classes whose
  methods reassign their fields.
- `_marge_metatrees` works in place on two arrays.
- The loops over trees and rows are methods, proved against pure
  functions.

Two behaviours of the code are easy to misread, and the model keeps both.

- **Merge direction.** At lines 1319-1321 the earlier of two equal trees,
  tree `i`, is dropped, and its mass goes to the first later tree `j` that
  compares equal to it.
- **Stale leaves in the comparison.** At lines 1303-1312 two nodes compare
  equal when both are leaves. Otherwise only their `k` is compared before
  the children are. So a leaf that still carries a stale `k` equal to an
  internal node's feature is compared through its stale children, and an
  unset slot raises AttributeError. `Merge.CompareClean` shows that on
  trees without stale parts the comparison is exactly equality of decision
  structure.

Two places where the code as written and its evident intent part ways are
listed under "## Findings". For each of them, the model keeps both versions:

- **The hyperparameter copy.** The setters rebuild reused trees with
  refreshed candidate lists. On trees without children, which covers every
  fresh root, this is exactly what the code does
  (`Ensemble.HyperParams.RebuildAsWritten`). The remaining gap is listed
  under "## Left out".
- **The MAP leaf exponent.** `estimate_params` runs the exponent as written,
  including its ZeroDivisionError for a single child slot. The optimality
  results are proved for the corrected exponent, and `MapEstimate.MapRecAgree`
  carries them over to the code whenever `c_d_max <= c_k`.

## Model

| member | source | states |
|---|---|---|
| Nodes.NewNode | bayesml/metatree/_metatree_x_discrete.py:59-76 | a new node has unset children, no split feature and no MAP mark, and carries the given depth, candidates, stopping weight, leaf model and leaf flag |
| Nodes.Remove | bayesml/metatree/_metatree_x_discrete.py:190-193 | `list.remove(v)` succeeds iff `v` is in the list; the result is one shorter and has the list's multiset less one `v`; a missing value raises ValueError |
| Nodes.RemoveDistinct | bayesml/metatree/_metatree_x_discrete.py:438-439 | removing the split feature from a list without repeats leaves a list without repeats that holds exactly the other features |
| Nodes.PathOf | bayesml/metatree/_metatree_x_discrete.py:1683-1687 | following `children[x[node.k]]` names a path that ends at a leaf, and the path is empty iff the root is a leaf |
| Nodes.WellFormedNavigable | bayesml/metatree/_metatree_x_discrete.py:1697-1704 | every feature vector the input checks accept leads a well-formed tree to a leaf without an index or attribute error |
| Nodes.WellFormedStrip | bayesml/metatree/_metatree_x_discrete.py:43-76 | well-formedness depends only on the structure (depths, features, candidates, flags), never on stopping weights or leaf models |
| Builders.StopWeight | bayesml/metatree/_metatree_x_discrete.py:388-395 | the stopping weight is forced to 0 at depth `c_d_max` and is `h_g` elsewhere |
| Builders.SetHg | bayesml/metatree/_metatree_x_discrete.py:388-395 | `_set_h_g_recursion` gives every node, live or not, its stopping weight and changes nothing else |
| Builders.SetSubs | bayesml/metatree/_metatree_x_discrete.py:397-402 | `_set_sub_h_params_recursion` gives every node the new leaf model and changes nothing else |
| Builders.ResetSubtree | bayesml/metatree/_metatree_x_discrete.py:414-423 | resetting a subtree sets every stopping weight and leaf model and keeps the structure |
| Builders.ResetIsSetHgThenSubs | bayesml/metatree/_metatree_x_discrete.py:487-498 | a reset is setting the stopping weights and then the leaf models, as the setter does |
| Builders.Determined | bayesml/metatree/_metatree_x_discrete.py:388-402 | two trees with one structure, both reset with the same weights and leaf model, are equal |
| Builders.RemoveFeature | bayesml/metatree/_metatree_x_discrete.py:437-439 | removing the split feature succeeds iff it is set and is a candidate, and otherwise raises ValueError |
| Builders.HyperTree | bayesml/metatree/_metatree_x_discrete.py:404-449 | the copy keeps depth and candidates, sets the stopping weight from the reference (0 at `c_d_max`), re-creates the leaf model, and makes a leaf iff the reference is a leaf or the depth is `c_d_max` |
| Builders.SetHyperRecursion | bayesml/metatree/_metatree_x_discrete.py:404-449 | the copy raises only ValueError, IndexError or AttributeError |
| Builders.HyperTreeShape | bayesml/metatree/_metatree_x_discrete.py:425-449 | from a complete reference, the copy has the reference's decision structure cut at `c_d_max` |
| Builders.HyperSucceeds | bayesml/metatree/_metatree_x_discrete.py:434-449 | with fresh candidate lists, the copy raises nothing iff every split feature of the reference is a candidate where it splits |
| Builders.HyperConsistent | bayesml/metatree/_metatree_x_discrete.py:437-449 | with refreshed candidate lists, or as written into a node without children, a copy that raises nothing has children one level deeper, each with the parent's candidates less the split feature |
| Builders.SetHyperSpec | bayesml/metatree/_metatree_x_discrete.py:404-449 | a copy from a complete reference reproduces its cut structure; with fresh candidate lists, or as written into a node without children, it succeeds iff the features fit, and the result is well-formed |
| Builders.StaleCandidatesRaise | bayesml/metatree/_metatree_x_discrete.py:425-449 | as written, a second copy into a reused tree raises ValueError on references whose features fit; refreshing the children's lists makes it succeed |
| Builders.DemoSecondWritten | bayesml/metatree/_metatree_x_discrete.py:425-449 | a reused child that holds the stale list `[1]` makes the second reference raise ValueError |
| Builders.CopyTree | bayesml/metatree/_metatree_x_discrete.py:1250-1273 | copying a fitted tree keeps the node's depth, candidates and leaf model |
| Builders.CopyFromSkeleton | bayesml/metatree/_metatree_x_discrete.py:1250-1273 | copying a fitted tree raises only ValueError |
| Builders.CopySucceeds | bayesml/metatree/_metatree_x_discrete.py:1252-1255 | the copy raises nothing iff the fitted features along every path are distinct candidates |
| Builders.CopyShape | bayesml/metatree/_metatree_x_discrete.py:1250-1273 | the copy has the fitted tree's decision structure, and every copied leaf has stopping weight 0 |
| Builders.CopyWellFormed | bayesml/metatree/_metatree_x_discrete.py:1250-1273 | a copy that raises nothing is a well-formed binary meta-tree with a leaf model at every node |
| Generator.Choose | bayesml/metatree/_metatree_x_discrete.py:189-191 | the drawn split feature is a candidate of positive weight in `h_k_prob_vec`; with no negative weight, a draw exists iff some candidate has positive weight, and candidates of total weight 0 (an empty list, or all-zero weights that divide 0 by 0) give the ValueError of `rng.choice` |
| Generator.MassPositive | bayesml/metatree/_metatree_x_discrete.py:189-191 | without negative weights, the candidates' total weight is nonnegative and positive iff some candidate can be drawn |
| Generator.ChooseSome | bayesml/metatree/_metatree_x_discrete.py:189-191 | with every feature of positive weight, a non-empty list of features below `c_k` always yields a draw |
| Generator.GenZeroMass | bayesml/metatree/_metatree_x_discrete.py:185-191 | a node that is to split and must draw its feature from candidates of total weight 0 raises ValueError |
| Generator.FixZeroMass | bayesml/metatree/_metatree_x_discrete.py:253-259 | with the tree fixed, an internal node that must draw its feature from candidates of total weight 0 raises ValueError |
| Generator.ZeroWeightRaises | bayesml/metatree/_metatree_x_discrete.py:168-204 | with `h_k_prob_vec = [1, 0]`, `c_k = 2`, `c_d_max = 2` and `h_g = 1`, generating afresh from a one-leaf root raises ValueError, so GenSucceeds needs its positive weights |
| Generator.GenTree | bayesml/metatree/_metatree_x_discrete.py:168-235 | generation keeps depth and candidates, sets the stopping weight from the reference or the default, and forces a leaf at depth `c_d_max` or `c_k` |
| Generator.GenParamsRecursion | bayesml/metatree/_metatree_x_discrete.py:168-235 | generation raises only ValueError (among them a draw from candidates of weight 0, GenZeroMass), IndexError or AttributeError, and otherwise returns the generated tree, whose stopping depth, candidate lists and success condition are stated by GenTreeStops, GenTreeConsistent and GenSucceeds |
| Generator.GenTreeStops | bayesml/metatree/_metatree_x_discrete.py:185-189 | a generated tree splits only above depth `c_d_max` and above depth `c_k` |
| Generator.GenTreeConsistent | bayesml/metatree/_metatree_x_discrete.py:192-204 | every generated child sits one level deeper with the parent's candidates less the split feature, and every node has a leaf model |
| Generator.GenSucceeds | bayesml/metatree/_metatree_x_discrete.py:168-235 | without `feature_fix` and with every feature of positive weight, generation from a usable reference never raises |
| Generator.FixTree | bayesml/metatree/_metatree_x_discrete.py:236-291 | generation with the tree fixed keeps the tree's outline (depths, leaf flags, child slots) and refreshes the candidates and stopping weights |
| Generator.TreeFixRecursion | bayesml/metatree/_metatree_x_discrete.py:236-291 | with the tree fixed, generation raises only ValueError (among them a draw from candidates of weight 0, FixZeroMass) or AttributeError and keeps the outline |
| Generator.FixSucceeds | bayesml/metatree/_metatree_x_discrete.py:253-262 | without `feature_fix` and with every feature of positive weight, generation with the tree fixed raises nothing iff the tree splits only above depth `c_k` |
| Generator.FixTreeWellFormed | bayesml/metatree/_metatree_x_discrete.py:236-291 | generation with the tree fixed that raises nothing gives a well-formed tree |
| Generator.ParamsTree | bayesml/metatree/_metatree_x_discrete.py:292-331 | `_set_params_recursion` keeps depth and candidates and copies the leaf flag unless the split feature cannot be removed |
| Generator.SetParamsRecursion | bayesml/metatree/_metatree_x_discrete.py:292-331 | copying a given tree raises only ValueError, IndexError or AttributeError |
| Generator.ParamsTreeShape | bayesml/metatree/_metatree_x_discrete.py:314-331 | a copy of a complete tree that raises nothing has the original's decision structure |
| Generator.SetParamsSpec | bayesml/metatree/_metatree_x_discrete.py:292-331 | copying a complete tree succeeds iff its split features are candidates where it splits, and then reproduces its decision structure |
| Prediction.PyIndex | bayesml/metatree/_metatree_x_discrete.py:332-351 | Python indexing of the children: defined iff `-len <= i < len`, and then the remainder of `i` modulo `len` |
| Prediction.Follow | bayesml/metatree/_metatree_x_discrete.py:332-351 | a traversal that raises nothing ends at a leaf |
| Prediction.FollowPath | bayesml/metatree/_metatree_x_discrete.py:332-351 | on a navigable path the traversal reaches exactly the leaf the path names |
| Prediction.FollowWraps | bayesml/metatree/_metatree_x_discrete.py:339-351 | entries in `[-c, 0)` select the same child as that entry plus `c` |
| Prediction.GenSampleOne | bayesml/metatree/_metatree_x_discrete.py:332-351 | a sample succeeds iff the traversal reaches a leaf with a leaf model, and is that leaf model's draw |
| Prediction.CalcPredPath | bayesml/metatree/_metatree_x_discrete.py:1677-1687 | the predictive pass changes only leaf models and keeps a leaf model at every node |
| Prediction.CalcPredSubs | bayesml/metatree/_metatree_x_discrete.py:1677-1687 | only the leaf at the end of the path of `x` computes its predictive distribution; every other node keeps its leaf model |
| Prediction.StopDistSumsToOne | bayesml/metatree/_metatree_x_discrete.py:1706-1711 | the probabilities of stopping at each node on the path add up to one |
| Prediction.PredictSquaredIsExpectation | bayesml/metatree/_metatree_x_discrete.py:1706-1711 | the squared-loss prediction of a tree is the expectation of the leaf-model means on the path under the stopping distribution |
| Prediction.PredictSquaredBounds | bayesml/metatree/_metatree_x_discrete.py:1706-1711 | with stopping weights in [0, 1], the squared-loss prediction lies within any bounds of the means on the path |
| Prediction.Predict01 | bayesml/metatree/_metatree_x_discrete.py:1734-1743 | the 0-1 prediction of a tree is the local mode of some node on the path |
| Prediction.Predict01Ties | bayesml/metatree/_metatree_x_discrete.py:1734-1743 | the child's mode wins a tie against `(1-g)` times the local mode probability; a strictly larger local value wins |
| Prediction.FirstArgMax | bayesml/metatree/_metatree_x_discrete.py:1769 | `np.argmax` is the first position that holds the largest value |
| Prediction.FirstArgMaxUnique | bayesml/metatree/_metatree_x_discrete.py:1769 | the first maximal position is unique |
| Prediction.Times | bayesml/metatree/_metatree_x_discrete.py:1769 | numpy's elementwise product fails with ValueError iff the lengths differ and neither is 1; otherwise it has the longer length and multiplies entries position by position, stretching a length-1 side |
| Prediction.TimesEqualLengths | bayesml/metatree/_metatree_x_discrete.py:1769 | on equal lengths the broadcast product is the plain entrywise weighting |
| Prediction.Choose01 | bayesml/metatree/_metatree_x_discrete.py:1765-1769 | the 0-1 choice raises ValueError for lengths that do not broadcast or an empty side, equals the first-best choice `Select01` on equal lengths, raises only ValueError or IndexError, and otherwise returns the mode of one of the trees |
| Prediction.Choose01OneWeight | bayesml/metatree/_metatree_x_discrete.py:1769 | a single weight `a` is stretched over every tree: the call succeeds and returns the mode of the first tree whose `a` times mode probability is largest |
| Prediction.Choose01OneTree | bayesml/metatree/_metatree_x_discrete.py:1769 | several weights for one tree: a success returns that tree's mode, and IndexError is raised iff some later weight gives a strictly larger product than the first |
| Prediction.MakePrediction | bayesml/metatree/_metatree_x_discrete.py:1745-1772 | an unknown loss raises CriteriaError; a missing weight vector raises ValueError under squared loss (`@` needs a dimension) and under 0-1 loss TypeError, or ValueError when there is no tree (the arg-max of an empty product); under squared loss a length mismatch raises ValueError and otherwise the result is the weighted sum of the per-tree predictions; under 0-1 loss the result is the broadcast choice `Choose01`: ValueError for lengths that do not broadcast or an empty product, the mode with the first largest weighted probability on equal lengths, and always the mode of one of the trees |
| Prediction.MakePredictionSquaredBounds | bayesml/metatree/_metatree_x_discrete.py:1759-1763 | with a probability vector as weights, the squared-loss prediction lies within any bounds of the per-tree predictions |
| Posterior.MixtureStep | bayesml/metatree/_metatree_x_discrete.py:1294-1301 | with `g` in [0, 1] and positive evidences, the mixture is positive and lies between the two evidences, the new `g` lies in [0, 1], and its complement is the posterior probability of stopping |
| Posterior.UpdatePath | bayesml/metatree/_metatree_x_discrete.py:1275-1301 | the update returns a positive evidence between the smallest and the largest local evidence on the path, keeps the structure and the weight range, and absorbs `(x, y)` at the root |
| Posterior.UpdateLocality | bayesml/metatree/_metatree_x_discrete.py:1294-1301 | every subtree off the path of `x` is left exactly as it was |
| Posterior.UpdateOnPath | bayesml/metatree/_metatree_x_discrete.py:1275-1301 | every node on the path computes its predictive distribution and then absorbs `(x, y)` |
| Merge.CompareIgnoresContents | bayesml/metatree/_metatree_x_discrete.py:1303-1312 | stopping weights and leaf models never affect the comparison |
| Merge.CompareClean | bayesml/metatree/_metatree_x_discrete.py:1303-1312 | on trees without stale parts the comparison never raises, and reports equality iff the two decision structures are equal |
| Merge.FirstLater | bayesml/metatree/_metatree_x_discrete.py:1317-1321 | the inner loop finds the first later tree equal to tree `i`, or reports that there is none |
| Merge.MergeMetatrees | bayesml/metatree/_metatree_x_discrete.py:1314-1325 | the in-place merge returns exactly the survivors and their masses as the pure merge function `MergeSpec` defines them |
| Merge.MergePass | bayesml/metatree/_metatree_x_discrete.py:1316-1322 | pass `i` moves the mass of tree `i` to the first later equal tree and blanks tree `i`, or leaves both arrays unchanged |
| Merge.KeepSurvivors | bayesml/metatree/_metatree_x_discrete.py:1323 | the list comprehension keeps exactly the trees that were not blanked, in their original order |
| Merge.KeepAboveHalf | bayesml/metatree/_metatree_x_discrete.py:1324 | the mask `> -0.5` keeps exactly the masses that were not blanked, in order |
| Merge.MassesConserve | bayesml/metatree/_metatree_x_discrete.py:1316-1322 | no pass creates or destroys mass: the masses of the trees not yet dropped add up to the original total |
| Merge.MergeConserves | bayesml/metatree/_metatree_x_discrete.py:1314-1325 | the merged list and vector have equal length, the total mass is kept, and no mass becomes negative |
| Merge.MergeLeavesNoEqualPair | bayesml/metatree/_metatree_x_discrete.py:1314-1325 | no earlier survivor compares equal to a later one |
| Merge.MergeIdempotent | bayesml/metatree/_metatree_x_discrete.py:1314-1325 | merging a merged list again changes nothing |
| MapEstimate.Horizon | bayesml/metatree/_metatree_x_discrete.py:1428-1431 | growth stops at the smaller of `c_d_max` and `c_k` |
| MapEstimate.GeomClosedForm | bayesml/metatree/_metatree_x_discrete.py:1451 | `1 + c + ... + c^(m-1)` agrees with the closed form `(c^m - 1)/(c - 1)` |
| MapEstimate.FullClosedForm | bayesml/metatree/_metatree_x_discrete.py:1451 | the prior probability of the full tree of height `m` is `g` raised to the geometric sum |
| MapEstimate.LeafChoiceAsWritten | bayesml/metatree/_metatree_x_discrete.py:1446-1456 | as written, an unsplit leaf returns 1 at depth `c_d_max` or `c_k`, and otherwise the larger of `1-g` and `g` raised to the geometric sum up to `c_d_max` |
| MapEstimate.LeafChoice | bayesml/metatree/_metatree_x_discrete.py:1446-1456 | corrected: the exponent runs to the depth where growth stops; the leaf stops iff that depth is reached or stopping is strictly more probable |
| MapEstimate.LeafChoiceOptimal | bayesml/metatree/_metatree_x_discrete.py:1446-1456 | the corrected leaf value is the probability of the most probable subtree that can grow below the leaf |
| MapEstimate.MapHorizonAsWritten | bayesml/metatree/_metatree_x_discrete.py:1451 | for `c = 2`, `c_d_max = 10`, `c_k = 3`, depth 1 and `hn_g = 3/4`, the code picks stop (1/4) while the best subtree has probability 27/64 |
| MapEstimate.PriorOptimal | bayesml/metatree/_metatree_x_discrete.py:1446-1467 | no subtree that can grow below depth `d` is more probable than the optimum |
| MapEstimate.AddNodes | bayesml/metatree/_metatree_x_discrete.py:1427-1444 | growing keeps the node's depth, candidates and leaf model |
| MapEstimate.AddNodesComplete | bayesml/metatree/_metatree_x_discrete.py:1427-1444 | `_map_recursion_add_nodes` grows the complete tree down to the depth where growth stops |
| MapEstimate.MapRec | bayesml/metatree/_metatree_x_discrete.py:1446-1467 | the MAP recursion keeps the node's depth, candidates and leaf flag, and its stopping weight unless it is a leaf the growth may reset; this holds whether the leaf comparison uses the code's exponent (up to `c_d_max`) or the corrected one (up to `min(c_d_max, c_k)`) |
| MapEstimate.MapRecProb | bayesml/metatree/_metatree_x_discrete.py:1446-1467 | on a tree no earlier estimate has marked, with the corrected exponent or whenever `c_d_max <= c_k`, the value the recursion returns is the prior probability of the tree it marks |
| MapEstimate.MapRecIn01 | bayesml/metatree/_metatree_x_discrete.py:1446-1467 | with stopping weights in [0, 1], every value the recursion returns lies in [0, 1] |
| MapEstimate.MapRecOptimal | bayesml/metatree/_metatree_x_discrete.py:1446-1467 | with the corrected exponent, or whenever `c_d_max <= c_k`, no pruning of the tree is more probable than the value the recursion returns |
| MapEstimate.LeafChoicesAgree | bayesml/metatree/_metatree_x_discrete.py:1446-1456 | for `c >= 2` and `c_d_max <= c_k` the code's leaf comparison gives the same choice and value as the corrected one |
| MapEstimate.LeafPickExact | bayesml/metatree/_metatree_x_discrete.py:1446-1456 | whenever the code's exponent is exact, the leaf choice the recursion uses is the corrected one |
| MapEstimate.AddNodesIgnoresExponent | bayesml/metatree/_metatree_x_discrete.py:1427-1444 | the growth of `_map_recursion_add_nodes` does not depend on the leaf exponent |
| MapEstimate.MapRecAgree | bayesml/metatree/_metatree_x_discrete.py:1446-1467 | when `c_d_max <= c_k` the recursion with the code's exponent marks and values every tree exactly as the corrected recursion does, so MapRecProb and MapRecOptimal hold of the code |
| MapCopy.CopyMap | bayesml/metatree/_metatree_x_discrete.py:1469-1484 | the copy is a leaf exactly where the original is MAP-marked, carries the original's stopping weight, and is unmarked |
| MapCopy.CopyMapCopied | bayesml/metatree/_metatree_x_discrete.py:1469-1484 | a successful copy holds exactly the marked part of the original |
| MapCopy.CopyMapWellFormed | bayesml/metatree/_metatree_x_discrete.py:1471-1476 | copied from a full candidate list, the MAP tree is well-formed |
| MapCopy.ScanFirstMax | bayesml/metatree/_metatree_x_discrete.py:1520-1526 | the selection loop finds the first position of the largest weighted value when one is positive, and position 0 otherwise |
| MapCopy.SelectMap | bayesml/metatree/_metatree_x_discrete.py:1519-1526 | the selection loop raises the first exception in loop order, `SelectError`: TypeError for missing weights, IndexError past their end or for an empty list, ZeroDivisionError from the recursion; on success it marks every tree and returns the first best position |
| MapCopy.SelectError | bayesml/metatree/_metatree_x_discrete.py:1519-1526 | the first exception of the loop from tree `i` on, in the order the code meets them: TypeError, IndexError, then the recursion's ZeroDivisionError |
| MapCopy.SelectErrorFits | bayesml/metatree/_metatree_x_discrete.py:1519-1526 | with one weight per tree, the loop raises IndexError iff there are no trees, ZeroDivisionError iff some tree from `i` on has an unsplit leaf at neither `c_d_max` nor `c_k` with a single child slot, and nothing otherwise |
| MapCopy.EstimateCopies | bayesml/metatree/_metatree_x_discrete.py:1527-1528 | the MAP copy of a consistent tree never raises and is a well-formed tree holding exactly the marked part |
| MapCopy.EstimateOptimal | bayesml/metatree/_metatree_x_discrete.py:1519-1528 | with the corrected exponent, or whenever `c_d_max <= c_k`, no weighted pruning of any tree is more probable than the value the selection settles on |
| Invariants.UpdateSound | bayesml/metatree/_metatree_x_discrete.py:1294-1301 | a posterior update along an accepted path keeps a tree sound |
| Invariants.HyperRoot | bayesml/metatree/_metatree_x_discrete.py:525-526 | with refreshed candidate lists, or as written into a root without children, rebuilding a root after a reference succeeds iff its features fit, raises only ValueError, and gives a sound root with the reference's cut structure |
| Invariants.CopyRoot | bayesml/metatree/_metatree_x_discrete.py:1348-1355 | the copy of a fitted tree grown to depth `c_d_max` is a sound binary root |
| Invariants.MapRecSound | bayesml/metatree/_metatree_x_discrete.py:1446-1467 | the MAP recursion keeps a tree sound |
| Ensemble.Uniform | bayesml/metatree/_metatree_x_discrete.py:538 | `np.ones(n) / n` has `n` entries, each `1/n` |
| Ensemble.UniformIsProb | bayesml/metatree/_metatree_x_discrete.py:536-538 | the uniform vector is a probability vector |
| Ensemble.DefaultVec | bayesml/metatree/_metatree_x_discrete.py:535-540 | without a given vector the tree weights are `None` iff the list is empty, and otherwise a probability vector of its length |
| Ensemble.HyperParams.constructor | bayesml/metatree/_metatree_x_discrete.py:141-146 | the defaults are uniform feature weights, `g = 0.5`, the default leaf hyperparameters and no trees |
| Ensemble.HyperParams.Set | bayesml/metatree/_metatree_x_discrete.py:451-563 | with refreshed candidate lists for reused trees, the setter raises exactly the first failing check; on success every given value is installed, the trees are refit or rebuilt after their references with the references' cut structure, and the weights are the given, uniform or old ones |
| Ensemble.HyperParams.SetFront | bayesml/metatree/_metatree_x_discrete.py:478-498 | the steps before the tree list raise the first failing check, and otherwise install the values and push them into every tree |
| Ensemble.HyperParams.SetGSub | bayesml/metatree/_metatree_x_discrete.py:487-498 | a new `h_g` or new leaf hyperparameters are checked and then pushed into every tree |
| Ensemble.HyperParams.SetTrees | bayesml/metatree/_metatree_x_discrete.py:500-563 | the tree-list step, the weight step and the final length check raise exactly the first failing check, and otherwise leave a coherent record |
| Ensemble.HyperParams.SetList | bayesml/metatree/_metatree_x_discrete.py:511-526 | the list takes the references' length, and tree `i` is rebuilt after reference `i` with refreshed candidate lists; the step raises ValueError iff some reference's features do not fit |
| Ensemble.HyperParams.RebuildAsWritten | bayesml/metatree/_metatree_x_discrete.py:425-449 | into a tree without children (an appended fresh root, or a held single leaf) the copy as written raises and rebuilds exactly as the model's rebuild does |
| Ensemble.HyperParams.Resize | bayesml/metatree/_metatree_x_discrete.py:511-524 | the list is truncated, or extended with fresh depth-0 roots over all features, to exactly `n` trees |
| Ensemble.HyperParams.Retree | bayesml/metatree/_metatree_x_discrete.py:1522-1523 | replacing the trees by sound roots keeps the record coherent |
| Ensemble.HyperParams.Repost | bayesml/metatree/_metatree_x_discrete.py:1422-1425 | installing sound roots and a probability vector of the same length keeps the record coherent |
| Ensemble.SetHgAll | bayesml/metatree/_metatree_x_discrete.py:489-491 | every tree gets the stopping weights of the new default and stays a sound root |
| Ensemble.SetSubsAll | bayesml/metatree/_metatree_x_discrete.py:496-498 | every node of every tree gets the new leaf model and every tree stays a sound root |
| Ensemble.RebuildTrees | bayesml/metatree/_metatree_x_discrete.py:525-526 | with refreshed candidate lists, or as written when no tree has children yet, the rebuild loop succeeds iff every reference's features fit, raises ValueError otherwise, and rebuilds each tree after its reference |
| Ensemble.RebuildOne | bayesml/metatree/_metatree_x_discrete.py:525-526 | with refreshed candidate lists, or as written into a tree without children, one step of the rebuild loop succeeds iff the reference's features fit and then rebuilds the tree after it |
| Generative.ConstantsError | bayesml/metatree/_metatree_x_discrete.py:129-132 | the constants are accepted iff `c_k`, `c_d_max` and `c_num_children` are positive, and otherwise raise ParameterFormatError |
| Generative.GeneratedSpec | bayesml/metatree/_metatree_x_discrete.py:583-606 | with every feature of positive weight, generating afresh never raises and, with the tree fixed, generation succeeds iff the tree splits only above depth `c_k`; a result is a well-formed root that stops by `c_d_max` and `c_k`, or keeps the old outline |
| Generative.SetParamsWellFormed | bayesml/metatree/_metatree_x_discrete.py:607-629 | a copied tree that raises nothing is a well-formed root over all features with a leaf model at every node |
| Generative.SampleRows | bayesml/metatree/_metatree_x_discrete.py:659-674 | `gen_sample` raises only DataFormatError, ParameterFormatError or ValueError, and its rows have `c_k` entries |
| Generative.SampleRowsBound | bayesml/metatree/_metatree_x_discrete.py:659-674 | accepted rows have entries below `c`; drawn rows number `sample_size` with entries in [0, c); an accepted array is not empty |
| Generative.NegativeEntries | bayesml/metatree/_metatree_x_discrete.py:659-684 | the checks let entries in `[-c, 0)` through, and those rows sample at the leaf their entries modulo `c` select |
| Generative.FarNegativeRaises | bayesml/metatree/_metatree_x_discrete.py:332-351 | an entry below `-c` on the path makes the traversal raise IndexError |
| Generative.SampleAll | bayesml/metatree/_metatree_x_discrete.py:681-682 | sampling every row succeeds iff each row does, gives each row's sample, and otherwise raises the first failing row's error |
| Generative.GenModel.Create | bayesml/metatree/_metatree_x_discrete.py:114-166 | the constructor raises the first failing constant or setter check; otherwise the tree is one leaf, or the copy of the given tree, the model is valid, the feature weights are the given ones or uniform, the tree weights the given ones or uniform, and tree `i` is a fresh root rebuilt after reference `i` (`Installed`), with that reference's structure cut at `c_d_max` |
| Generative.GenModel.SetHParams | bayesml/metatree/_metatree_x_discrete.py:451-563 | the setter's outcome is the hyperparameter setter's; on success each given value is installed and each other kept, the tree list is `Installed` (refitted, or rebuilt after the references with the references' structure cut at `c_d_max`), the tree weights are the given, uniform or old ones, and the true tree is untouched |
| Generative.GenModel.GenParams | bayesml/metatree/_metatree_x_discrete.py:583-606 | on success the tree becomes the generated one and the model is valid; an exception is reported with the root still at depth 0 over all features, and with the tree fixed its outline kept; with every weight of `h_k_prob_vec` positive, generating afresh never raises, and with the tree fixed generation raises iff the tree splits at depth `c_k` or below |
| Generative.GenModel.SetParams | bayesml/metatree/_metatree_x_discrete.py:607-629 | a given tree is copied in; for a complete tree the copy succeeds iff its features fit, and then reproduces its structure; an exception leaves a depth-0 root over all features |
| Generative.GenModel.GenSample | bayesml/metatree/_metatree_x_discrete.py:640-685 | the rows are checked or drawn and one value is sampled per row; drawn rows and arrays with entries of at least `-c` never make sampling raise |
| Learning.VectorError | bayesml/metatree/_metatree_x_discrete.py:1697-1701 | a single feature vector is accepted iff it is one-dimensional, not empty, has `c_k` entries and every entry is in [0, c) |
| Learning.ObservationError | bayesml/metatree/_metatree_x_discrete.py:1407-1417 | accepted data are non-negative vectors of width `c_k` whose leading shape matches `y`, with a scalar `y` only for a single vector |
| Learning.Observations | bayesml/metatree/_metatree_x_discrete.py:1419-1420 | accepted data reshape to at least one row, every row one the trees accept |
| Learning.SingleObservation | bayesml/metatree/_metatree_x_discrete.py:1792-1800 | for a vector `pred_and_update` accepts, `update_posterior` accepts it iff `y` is a scalar or has shape `()`, and then it is the one row |
| Learning.Step | bayesml/metatree/_metatree_x_discrete.py:1294-1301 | one recursion call on a row returns a positive predictive value and changes no node's depth, feature, candidates, leaf flag or children |
| Learning.Absorb | bayesml/metatree/_metatree_x_discrete.py:1386-1388 | folding the rows in order keeps the tree's shape and yields a positive product of predictive values |
| Learning.Reweighted | bayesml/metatree/_metatree_x_discrete.py:1367-1391 | `_given_MT` keeps one tree per candidate, each still a valid root, and the new weights form a probability vector |
| Learning.AbsorbSound | bayesml/metatree/_metatree_x_discrete.py:1386-1388 | absorbing valid rows keeps a tree sound and keeps its depth and candidates |
| Learning.AbsorbAppend | bayesml/metatree/_metatree_x_discrete.py:1386-1388 | absorbing two batches in turn is absorbing their concatenation, and the evidences multiply |
| Learning.PosteriorIsProb | bayesml/metatree/_metatree_x_discrete.py:1385-1390 | prior weights times positive evidences have a positive total, and normalised they form a probability vector |
| Learning.NormalizedIsProb | bayesml/metatree/_metatree_x_discrete.py:1389-1390 | nonnegative scores with a positive total, divided by it, form a probability vector |
| Learning.NormalizeShift | bayesml/metatree/_metatree_x_discrete.py:1385-1390 | subtracting the maximum log score before exponentiating only rescales, and normalisation removes the scale |
| Learning.Renormalize | bayesml/metatree/_metatree_x_discrete.py:1385-1390 | normalising after one batch and again after another is normalising once after the products of the evidences |
| Learning.SequentialIsBatch | bayesml/metatree/_metatree_x_discrete.py:1367-1391 | two `given_MT` updates in turn equal one update on all the rows |
| Learning.Reweight | bayesml/metatree/_metatree_x_discrete.py:1367-1391 | `_given_MT` returns every tree after the rows and the normalised prior-times-evidence weights, a probability vector over sound roots |
| Learning.AbsorbAll | bayesml/metatree/_metatree_x_discrete.py:1385-1388 | the loop over trees returns every tree after the rows and its prior weight times its evidence |
| Learning.AbsorbRows | bayesml/metatree/_metatree_x_discrete.py:1387-1388 | the loop over rows returns the tree after every row and the prior weight times the product of the evidences |
| Learning.FittedEach | bayesml/metatree/_metatree_x_discrete.py:1352-1355 | every fitted tree is copied into a fresh binary root |
| Learning.MtrfResult | bayesml/metatree/_metatree_x_discrete.py:1327-1365 | `_MTRF` raises only ValueError, and otherwise returns at most as many sound roots as fitted trees with a probability vector over them |
| Learning.Mtrf | bayesml/metatree/_metatree_x_discrete.py:1327-1365 | the method computes the `_MTRF` result: copy, merge, absorb, normalise |
| Learning.CalcPredSound | bayesml/metatree/_metatree_x_discrete.py:1683-1687 | the predictive pass keeps a root sound and its structure unchanged |
| Learning.PredictivePaths | bayesml/metatree/_metatree_x_discrete.py:1702-1704 | every tree goes through the predictive pass and stays a sound root of the same structure |
| Learning.CalcPredAll | bayesml/metatree/_metatree_x_discrete.py:1703-1704 | the loop of `calc_pred_dist` gives every tree after the predictive pass |
| Learning.PredictionNeedsTrees | bayesml/metatree/_metatree_x_discrete.py:1745-1772 | with a vector that fits the list, a supported loss predicts iff there is at least one tree, and the empty ensemble raises ValueError |
| Learning.MapOutcome | bayesml/metatree/_metatree_x_discrete.py:1519-1538 | `estimate_params` raises IndexError iff there are no trees and ZeroDivisionError iff some tree has an unsplit leaf at neither `c_d_max` nor `c_k` with a single child slot; the model's outcome of an exception keeps the trees given to it, and every outcome leaves sound roots |
| Learning.MapOutcomeChoice | bayesml/metatree/_metatree_x_discrete.py:1519-1528 | with trees present and no division by zero, the estimate is the well-formed copy of the marked part of the first best tree, and every tree is left marked |
| Learning.EstimateMap | bayesml/metatree/_metatree_x_discrete.py:1519-1528 | the method computes the MAP outcome |
| Learning.LearnModel.Create | bayesml/metatree/_metatree_x_discrete.py:808-855 | the constructor raises the first failing constant or setter check; otherwise the model is valid, the prior holds the given values (feature weights given or uniform, tree weights given or uniform, tree `i` a fresh root rebuilt after reference `i`, cut at `c_d_max`), and the posterior holds the same values, trees rebuilt after the prior's trees and then passed over by the predictive pass for the zero vector (`PassedOver`) |
| Learning.LearnModel.SetH0Params | bayesml/metatree/_metatree_x_discrete.py:982-1097 | the prior setter's outcome; on success the prior holds what `Ensemble.HyperParams.Set` installs (values, tree weights, `Installed` trees), and the posterior takes the prior's values, trees rebuilt after the prior's trees (cut at `c_d_max`) and passed over by the predictive pass for the zero vector |
| Learning.LearnModel.ResetHnParams | bayesml/metatree/_metatree_x_discrete.py:982-1097 | resetting never raises and gives the posterior the prior's values and weights, and trees rebuilt after the prior's trees (cut at `c_d_max`) then passed over by the predictive pass for the zero vector |
| Learning.LearnModel.SetHnParams | bayesml/metatree/_metatree_x_discrete.py:1116-1231 | the posterior setter's outcome; on success the values are installed, the weights are the given, uniform or old ones, and the trees are the `Installed` list (the references' structure cut at `c_d_max`) passed over by the predictive pass for the zero vector |
| Learning.LearnModel.CalcPredDist | bayesml/metatree/_metatree_x_discrete.py:1689-1704 | a refused vector changes nothing; an accepted one is stored and every posterior tree goes through the predictive pass |
| Learning.LearnModel.MakePrediction | bayesml/metatree/_metatree_x_discrete.py:1745-1772 | the prediction for the stored vector from the posterior trees and weights (for a new model's empty ensemble, the ValueError of `Prediction.MakePrediction`), which succeeds only with at least one tree; PredictionNeedsTrees gives the converse for a supported loss |
| Learning.LearnModel.GivenMt | bayesml/metatree/_metatree_x_discrete.py:1367-1391 | no trees raises ParameterFormatError; otherwise the trees and weights become the reweighted posterior |
| Learning.LearnModel.RunMtrf | bayesml/metatree/_metatree_x_discrete.py:1327-1365 | `c_num_children != 2` raises ParameterFormatError; otherwise the trees and weights become the `_MTRF` result unless copying raises |
| Learning.LearnModel.UpdatePosterior | bayesml/metatree/_metatree_x_discrete.py:1393-1425 | refused data change nothing; otherwise the posterior list and weights become the `MTRF` or `given_MT` result, and only they change |
| Learning.LearnModel.PredAndUpdate | bayesml/metatree/_metatree_x_discrete.py:1774-1800 | a refused vector changes nothing; otherwise the predictive pass runs, the prediction is made, and the posterior is updated with the one row; an exception of the prediction (for a new model's empty ensemble, ValueError by `Prediction.MakePrediction`) is returned with the posterior not updated |
| Learning.LearnModel.EstimateParams | bayesml/metatree/_metatree_x_discrete.py:1486-1538 | a loss other than 0-1 raises CriteriaError and changes nothing; otherwise the outcome and the marked trees are the MAP outcome under the code's leaf exponent |

## Left out

- Visualisation is not part of this model. That covers `visualize_model`, `visualize_posterior` and the `_visualize_model_recursion*` functions (graphviz and matplotlib); they are user interface.
- `save_sample` (an `.npz` file) is not part of this model; it is I/O.
- Floating point is not modelled. Every number is an exact `real`.
  - The log-space renormalisation in `_MTRF` and `_given_MT` is an exact normalisation of prior times evidence. `Learning.NormalizeShift` shows that the shift by the largest log score cancels.
  - The checks of `bayesml/_check.py` are not part of this model. A probability vector is modelled as nonnegative entries whose sum is exactly one, with no tolerance.
- The scikit-learn forest fit in `_MTRF` is replaced by a given list of fitted trees (`Skeleton`). Each holds the `children_left`, `children_right` and `feature` arrays. Bootstrap sampling and the `n_estimators` argument are not modelled.
- Ensemble.HyperParams.Set, SetTrees, SetList, RebuildTrees, Generative.GenModel.Create, Generative.GenModel.SetHParams, Learning.LearnModel.Create, SetH0Params, SetHnParams: require `Ensemble.References`, whose trees have every child of every internal node (`Complete`). The code also accepts a reference with an internal node whose child slots are unset: lines 442-449 create the missing slots and recurse with no reference, and lines 414-423 give them the default stopping weight and a new leaf model. That input is not modelled.
- Generator.GenParamsRecursion, TreeFixRecursion, GenSucceeds, FixSucceeds, Generative.GeneratedSpec, Generative.GenModel.GenParams: promise success only when every weight of `h_k_prob_vec` is positive. With some weights 0 the code raises whenever a drawing node's candidates weigh 0 in total (`GenZeroMass`, `FixZeroMass`, `ZeroWeightRaises`); which draws lead there is not characterised.
- Generator.Choose: a candidate past the end of `h_k_prob_vec`, which raises IndexError in the code, weighs 0 here; no candidate list the model keeps holds one. Negative weights, which the hyperparameter checks exclude, are not modelled beyond what the draw returns.
- The random draws are parameters. Uniform draws and feature choices come from the `Draws` oracle, indexed by the path to the node. The draws of `gen_sample` and `gen_params` are functions or indices passed in.
- The leaf-model families (bernoulli, poisson, normal, exponential) live in other modules. `LeafModel` represents them by abstract records of total functions. The 'KL' loss of `make_prediction` (the predictive distribution object) is left out with them.
- The `try`/`except` probing of leaf models collapses into one abstract call. So do the `isinstance` checks, which the types make unnecessary.
- `get_h_params`, `get_params`, `get_h0_params`, `get_hn_params` and `get_p_params` return fields. They are not modelled as members.
- `reset_hn_params` lives in the base class, which is not part of this model. It is modelled as the posterior setter applied to the prior's current values.
- Ensemble.HyperParams.Set: states nothing about the record after an exception. The source leaves the steps before the failing check applied; the model runs the same steps but its contract does not describe the partial state.
- Generative.GenModel.SetHParams: states nothing about the record after an exception, for the same reason.
- Learning.LearnModel.EstimateParams: requires `Linked()` rather than `Valid()`, and does not describe the graphviz output of `visualize=True`.
- Learning.Step: on a tree it cannot walk (which the input checks exclude), the model returns the tree unchanged with evidence 1. The source would raise there.
- `Learning.LearnModel.UpdatePosterior` covers `alg_type` values other than `MTRF` and `given_MT` as in the source: the lists stay unchanged. The keyword arguments of `_MTRF` beyond the fitted trees are not modelled.
- numpy arrays shared between the caller and the model are not modelled. Stored vectors are copied values, so a caller's later writes into its array do not reach the model.
- MapEstimate.LeafChoiceAsWritten: requires `c >= 2`, because `c_num_children == 1` divides by zero at line 1451. That exception is modelled separately by `MapEstimate.DividesByZero`, which the selection loop reports as ZeroDivisionError. The corrected member needs no such bound.
- HyperConsistent: stated for refreshed candidate lists and for nodes without children. Into a reused tree, the code as written keeps each existing child's old candidate list (`Builders.StaleCandidatesRaise`); what it then leaves behind is not stated.
- HyperRoot: the same bound. Into a held root that already has children, the code as written can raise ValueError on a reference whose features fit; the iff covers only refreshed lists and roots without children.
- RebuildTrees: the same bound, over the whole list: as written only when no tree has children yet.
- RebuildOne: the same bound, for one tree.
- Ensemble.HyperParams.Set: rebuilds reused trees with refreshed candidate lists, the corrected behaviour of the first "## Findings" row. On trees without children it agrees with the code (`Ensemble.HyperParams.RebuildAsWritten`). On a list whose trees already have children, the code can raise ValueError at line 439 where the model succeeds.
- SetTrees: the same refreshed rebuild, through SetList.
- SetList: the same refreshed rebuild; its iff with `AllFit` is the corrected behaviour.
- Generative.GenModel.SetHParams: inherits the refreshed rebuild of `Ensemble.HyperParams.Set`.
- SetH0Params: inherits the refreshed rebuild; the code can raise at line 907 where the model succeeds.
- SetHnParams: inherits the refreshed rebuild; the code can raise at line 970 where the model succeeds.
- ResetHnParams: promises no exception because it rebuilds with refreshed lists. The code raises ValueError when the posterior trees already have children whose old lists do not fit the prior's references, for example after `update_posterior(alg_type='MTRF')` has replaced them.
- MapRecProb: proved for the corrected exponent and, through `MapEstimate.MapRecAgree`, for the code whenever `c_d_max <= c_k`. With `c_k < c_d_max` the code's stopped leaf returns `hn_g` raised to `(c^(c_d_max-depth)-1)/(c-1)`, which is not the probability of the tree it marks (`MapEstimate.MapHorizonAsWritten`).
- MapRecProb: also requires `MapEstimate.Unmarked`, a tree whose leaves carry no `map_leaf` flag. The code never clears the flag, so on trees marked by an earlier `estimate_params` a leaf the recursion now continues keeps its old mark, and the value returned need not be the probability of the tree that is then copied.
- MapRecOptimal: the same bound; with `c_k < c_d_max` the code's recursion can return a pruning that is not the most probable.
- EstimateOptimal: the same bound; with `c_k < c_d_max` the code's selection can settle on a value that is not optimal.
- Learning.LearnModel.EstimateParams, Learning.MapOutcome: on ZeroDivisionError the model leaves the posterior trees as they were. The code has by then already marked, in place, the trees before the failing one and part of the failing one.
- Generative.GenModel.GenParams: after an exception, states only that the root stays at depth 0 over all features and, with the tree fixed, keeps its outline. The stopping weights, leaf models, split features and child lists that the code rewrites in place before raising are not described.
- Generative.GenModel.SetParams: after an exception, states only that the root is a depth-0 root over all features. The code has already replaced the root at line 620 and filled some child slots before raising; that partial tree, with some slots still unset, is not described.

## Findings

| source | as written | input that shows it | evidently intended | confidence | as-written member | corrected member |
|---|---|---|---|---|---|---|
| bayesml/metatree/_metatree_x_discrete.py:425-449 | when a tree of the list is reused, `_set_h_params_recursion` (and its `h0`/`hn` twins at lines 872-917 and 935-980) keeps each existing child's old `k_candidates` instead of the parent's list less the new split feature (compare line 203, which refreshes them) | `c_k = 2`, two child slots: set the list to a reference splitting on feature 0, then to one splitting on feature 1 whose first child splits on feature 0; the reused child still holds `[1]`, so `remove(0)` raises ValueError although the reference fits | the children's candidate lists are refreshed, and the copy succeeds iff the reference's features fit | high; not executed | Builders.StaleCandidatesRaise | Builders.SetHyperSpec |
| bayesml/metatree/_metatree_x_discrete.py:1451 | an unsplit leaf compares `1 - hn_g` with `hn_g` raised to `(c^(c_d_max-depth) - 1)/(c - 1)`, the prior probability of a full tree down to `c_d_max`, while `_map_recursion_add_nodes` stops growing at depth `c_k` when `c_k < c_d_max` | `c = 2`, `c_d_max = 10`, `c_k = 3`, depth 1, `hn_g = 3/4`: the code stops with 1/4, while the subtree the growth builds has probability (3/4)^3 = 27/64 | the exponent runs to `min(c_d_max, c_k) - depth`, so the leaf value is the probability of the best subtree; `estimate_params` keeps the code's exponent, and `MapEstimate.MapRecAgree` shows the two agree whenever `c_d_max <= c_k` | high; not executed | MapEstimate.MapHorizonAsWritten | MapEstimate.LeafChoiceOptimal |
