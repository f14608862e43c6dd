/** The global parameters of src/main.py that the routing core depends on. */
module Globals {

  /** `infinite`: the weight that stands for "no edge". It is an ordinary
      number compared by equality, so a measured weight of 999999 cannot be
      told apart from a missing one. */
  const Infinite: real := 999999.0

  /** A weight that the penalty transformers adjust: neither zero (the cost
      of staying at a node) nor the no-edge sentinel. */
  predicate Eligible(v: real)
  {
    v != 0.0 && v != Infinite
  }
}
