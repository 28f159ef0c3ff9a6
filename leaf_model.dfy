/** The contract of the leaf distributions (bernoulli, normal, poisson,
    exponential) as the meta-tree code consumes them.  The families live in
    other modules of the library; here each one is a record of total functions
    over an abstract sub-model state `S` and an abstract hyperparameter
    dictionary `H`.  A Python call that mutates a sub-model in place
    (`sub_model.update_posterior(x, y)`) becomes a function returning the new
    state.  Where the source probes a capability with try/except (`x` accepted
    or not, `pdf` or `pmf`, `get_h_params` or `get_h0_params`) the probe is
    folded into the one function. */
module LeafModel {

  /** Sub-models of the generative model (`SubModel.GenModel`). */
  datatype GenSub<!S, !H> = GenSub(
    /** constructing `SubModel.GenModel(**h)` succeeds */
    accepts: H -> bool,
    /** `SubModel.GenModel(seed=rng, **h)` */
    create: H -> S,
    /** `target.set_h_params(*source.get_h_params().values())` */
    inherit: (S, S) -> S,
    /** `s.set_h_params(*s.get_h_params().values())` */
    rehyper: S -> S,
    /** `s.gen_params()`; the random draws are those of the node at the given path */
    genParams: (S, seq<nat>) -> S,
    /** `target.set_params(**source.get_params())`, or of the source's estimate */
    paramsFrom: (S, S) -> S,
    /** `s.gen_sample(sample_size=1, x=x)` for the sample with the given number */
    sample: (S, seq<int>, nat) -> real)

  /** Sub-models of the posterior (`SubModel.LearnModel`). */
  datatype LearnSub<!S, !H> = LearnSub(
    /** constructing `SubModel.LearnModel(**h)` succeeds */
    accepts: H -> bool,
    /** `SubModel.LearnModel(**h)` */
    create: H -> S,
    /** `s.set_h0_params(*s.get_h0_params().values())` */
    rePrior: S -> S,
    /** `s.set_hn_params(*s.get_hn_params().values())` */
    rePosterior: S -> S,
    /** `s.calc_pred_dist(x)` */
    calcPred: (S, seq<int>) -> S,
    /** the predictive density or mass at `y` of the last computed predictive distribution */
    predictive: (S, real) -> real,
    /** `s.update_posterior(x, y)` */
    absorb: (S, seq<int>, real) -> S,
    /** `s.make_prediction(loss='squared')` */
    mean: S -> real,
    /** `s.make_prediction(loss='0-1')` */
    mode: S -> real,
    /** the predictive density or mass at the mode */
    modeProb: S -> real)

  /** Every predictive density or mass the family reports is positive. */
  ghost predicate PositiveEvidence<S(!new), H>(fam: LearnSub<S, H>)
  {
    forall s, y :: fam.predictive(s, y) > 0.0
  }
}
