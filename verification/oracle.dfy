/** Random choices as an oracle.

    Every `kotlin.random.Random` call of the generators is replaced by one draw
    from a `Stream`: the k-th draw is `rng(k)`, and each generator threads the
    index of the next unused draw. Nothing is assumed about the values drawn, so
    every property proved about a generator holds for every seed. */
module Oracle {

  type Stream = nat -> nat

  /** `random.nextInt(bound)`: a draw in [0, bound). */
  function NextInt(rng: Stream, k: nat, bound: nat): (r: nat)
    requires bound > 0
    ensures r < bound
  {
    rng(k) % bound
  }

  /** `random.nextBoolean()`. */
  function NextBool(rng: Stream, k: nat): bool
  {
    rng(k) % 2 == 1
  }

  /** `random.nextFloat() < 0.3f`: the only use the generators make of a float
      draw is this comparison, so the draw is reduced to its outcome. */
  function NextFloatBelowSplit(rng: Stream, k: nat): bool
  {
    rng(k) % 10 < 3
  }

  function Swap<T>(xs: seq<T>, i: nat, j: nat): (r: seq<T>)
    requires i < |xs| && j < |xs|
    ensures |r| == |xs|
    ensures multiset(r) == multiset(xs)
    ensures r[i] == xs[j] && r[j] == xs[i]
    ensures forall m :: 0 <= m < |xs| && m != i && m != j ==> r[m] == xs[m]
  {
    xs[i := xs[j]][j := xs[i]]
  }

  /** The swap loop of the standard library's `shuffle`: for i from the last
      index down to 1, swap element i with element `nextInt(i + 1)`. */
  function ShuffleDown<T>(xs: seq<T>, i: int, rng: Stream, k: nat): (r: seq<T>)
    requires i < |xs|
    ensures |r| == |xs|
    ensures multiset(r) == multiset(xs)
    decreases i
  {
    if i <= 0 then xs
    else ShuffleDown(Swap(xs, i, NextInt(rng, k, i + 1)), i - 1, rng, k + 1)
  }

  /** `xs.shuffled(random)`: a permutation of `xs` that uses `ShuffleDraws(|xs|)`
      draws starting at draw k. */
  function Shuffle<T>(xs: seq<T>, rng: Stream, k: nat): (r: seq<T>)
    ensures |r| == |xs|
    ensures multiset(r) == multiset(xs)
  {
    ShuffleDown(xs, |xs| - 1, rng, k)
  }

  function ShuffleDraws(n: nat): nat
  {
    if n == 0 then 0 else n - 1
  }

  /** Every element of a shuffled sequence comes from the original and vice versa. */
  lemma ShuffleSameElements<T>(xs: seq<T>, rng: Stream, k: nat)
    ensures forall x :: x in Shuffle(xs, rng, k) <==> x in xs
  {
    var r := Shuffle(xs, rng, k);
    forall x
      ensures x in r <==> x in xs
    {
      assert x in r <==> x in multiset(r);
      assert x in xs <==> x in multiset(xs);
    }
  }
}
