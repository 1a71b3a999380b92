/** Small shared vocabulary: optional values, and weighted sums over tables of goroutines. */
module Common {

  datatype Option<+T> = None | Some(value: T)

  datatype Result<+T, +E> = Ok(value: T) | Err(error: E)

  /** The total weight of a sequence. */
  function SumBy<T>(xs: seq<T>, weight: T -> nat): nat {
    if xs == [] then 0 else SumBy(xs[..|xs| - 1], weight) + weight(xs[|xs| - 1])
  }

  lemma SumByAppend<T>(xs: seq<T>, x: T, weight: T -> nat)
    ensures SumBy(xs + [x], weight) == SumBy(xs, weight) + weight(x)
  {
    assert (xs + [x])[..|xs|] == xs;
  }

  lemma {:induction false} SumByUpdate<T>(xs: seq<T>, i: nat, x: T, weight: T -> nat)
    requires i < |xs|
    ensures SumBy(xs[i := x], weight) == SumBy(xs, weight) - weight(xs[i]) + weight(x)
    ensures weight(xs[i]) <= SumBy(xs, weight)
    decreases |xs|
  {
    var last := |xs| - 1;
    if i == last {
      assert xs[i := x][..last] == xs[..last];
    } else {
      assert xs[i := x][..last] == xs[..last][i := x];
      SumByUpdate(xs[..last], i, x, weight);
    }
  }

  /** A positive total has a member of positive weight. */
  lemma {:induction false} SumByWitness<T>(xs: seq<T>, weight: T -> nat) returns (i: nat)
    requires SumBy(xs, weight) > 0
    ensures i < |xs| && weight(xs[i]) > 0
    decreases |xs|
  {
    if weight(xs[|xs| - 1]) > 0 {
      i := |xs| - 1;
    } else {
      i := SumByWitness(xs[..|xs| - 1], weight);
    }
  }

  /** A zero total has only members of weight zero. */
  lemma {:induction false} SumByZero<T>(xs: seq<T>, weight: T -> nat)
    requires SumBy(xs, weight) == 0
    ensures forall i :: 0 <= i < |xs| ==> weight(xs[i]) == 0
    decreases |xs|
  {
    if xs != [] {
      SumByZero(xs[..|xs| - 1], weight);
    }
  }
}
