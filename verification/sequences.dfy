/** Facts about positions into a sequence, shared by the filters of the model. */
module Sequences {

  /** Positions listed in strictly increasing order: a selection that keeps order. */
  ghost predicate StrictlyIncreasing(positions: seq<nat>) {
    forall j, k :: 0 <= j < k < |positions| ==> positions[j] < positions[k]
  }
}
