/**
 * The two Fibonacci formulations of chapter 1: the memoized recursion `fib`
 * and the generator `fib_gen`, modelled as a method that builds the sequence
 * of yielded values.
 */
module Fib {

  /** `fib(n)`: plain recursion; the LRU cache of the original only memoizes
      results and does not change them. Negative arguments return themselves. */
  function Fib(n: int): (r: int)
    ensures n >= 1 ==> r >= 1
    ensures n >= 2 ==> r >= n - 1
    decreases if n < 0 then 0 else n
  {
    if n < 2 then n else Fib(n - 1) + Fib(n - 2)
  }

  /** For natural arguments fib is non-negative and non-decreasing. */
  lemma {:induction false} FibNonNegativeMonotone(n: nat)
    ensures Fib(n) >= 0
    ensures n >= 1 ==> Fib(n) >= Fib(n - 1)
  {
    if n >= 2 {
      FibNonNegativeMonotone(n - 1);
      FibNonNegativeMonotone(n - 2);
    }
  }

  /** The number of values `fib_gen(n)` yields. */
  function YieldCount(n: int): nat
  {
    if n > 0 then n + 1 else 1
  }

  /**
   * `fib_gen(n)`: yields 0, then 1 when n > 0, then one more value per
   * iteration of `for _ in range(1, n)`, each the new `next` of the pair
   * `(last, next)`.
   */
  method FibGen(n: int) returns (ys: seq<int>)
    ensures |ys| == YieldCount(n)
    ensures forall k :: 0 <= k < |ys| ==> ys[k] == Fib(k)
  {
    ys := [0];
    if n > 0 {
      ys := ys + [1];
    }
    var last, next := 0, 1;
    var j := 1;
    while j < n
      invariant n > 0 ==> 1 <= j <= n
      invariant n <= 0 ==> j == 1 && |ys| == 1
      invariant last == Fib(j - 1) && next == Fib(j)
      invariant n > 0 ==> |ys| == j + 1
      invariant forall k :: 0 <= k < |ys| ==> ys[k] == Fib(k)
    {
      last, next := next, last + next;
      ys := ys + [next];
      j := j + 1;
    }
  }

  /** The yielded values are non-negative and non-decreasing. */
  lemma YieldedNonDecreasing(ys: seq<int>, n: int)
    requires |ys| == YieldCount(n)
    requires forall k :: 0 <= k < |ys| ==> ys[k] == Fib(k)
    ensures forall k :: 0 <= k < |ys| ==> ys[k] >= 0
    ensures forall i, j :: 0 <= i <= j < |ys| ==> ys[i] <= ys[j]
  {
    forall k | 0 <= k < |ys| ensures ys[k] >= 0 {
      FibNonNegativeMonotone(k);
    }
    forall i, j | 0 <= i <= j < |ys| ensures ys[i] <= ys[j] {
      FibMonotone(i, j);
    }
  }

  lemma {:induction false} FibMonotone(i: nat, j: nat)
    requires i <= j
    ensures Fib(i) <= Fib(j)
    decreases j - i
  {
    if i < j {
      FibMonotone(i, j - 1);
      FibNonNegativeMonotone(j);
    }
  }
}
