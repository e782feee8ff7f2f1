/** The engine's calls to Math.random, made explicit: every draw is an arbitrary value in [0, 1). */
module Randomness {
  import opened Lattice

  /**
   * A random source. `values(i)` is the result of the i-th call to Math.random and
   * `orders(i)` the outcome of the i-th sort of the direction table with a random comparator.
   * Both are arbitrary, so whatever is proved holds for every sequence of draws.
   */
  class RandomSource {
    const values: nat -> real
    const orders: nat -> seq<Dir>
    var drawn: nat
    var shuffled: nat

    ghost predicate Valid() {
      (forall i: nat :: 0.0 <= values(i) < 1.0) && (forall i: nat :: IsShuffle(orders(i)))
    }

    constructor (values: nat -> real, orders: nat -> seq<Dir>)
      ensures this.values == values && this.orders == orders
      ensures drawn == 0 && shuffled == 0
    {
      this.values := values;
      this.orders := orders;
      drawn, shuffled := 0, 0;
    }

    /** One call to Math.random: the next draw of the stream. */
    method Random() returns (u: real)
      requires Valid()
      modifies this`drawn
      ensures 0.0 <= u < 1.0
      ensures u == values(old(drawn)) && drawn == old(drawn) + 1
    {
      u := values(drawn);
      drawn := drawn + 1;
    }

    /** Sorting the direction table with a random comparator: the next permutation of the stream. */
    method ShuffledDirections() returns (order: seq<Dir>)
      requires Valid()
      modifies this`shuffled
      ensures IsShuffle(order) && |order| == |Directions|
      ensures order == orders(old(shuffled)) && shuffled == old(shuffled) + 1
    {
      order := orders(shuffled);
      shuffled := shuffled + 1;
      assert |multiset(order)| == |multiset(Directions)|;
    }
  }

  /** The integer part of a draw scaled by n: an index in [0, n). */
  function ScaledFloor(u: real, n: nat): (k: int)
    requires 0.0 <= u < 1.0 && 0 < n
    ensures 0 <= k < n
    ensures k as real <= u * n as real < k as real + 1.0
  {
    assert u * n as real < n as real by {
      assert (1.0 - u) * n as real > 0.0;
    }
    (u * n as real).Floor
  }
}
