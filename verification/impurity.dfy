/**
 The C++ side of "types and functions": an iterative factorial, and a
 function whose hidden static accumulator makes it impure. The static
 variable is modelled as an explicit state that each call consumes and
 returns.
 */
module Impurity {
  import Memoization

  /** The iterative factorial: multiplies `result` by 2, 3, ..., n. */
  method Fact(n: int) returns (result: int)
    ensures n <= 1 ==> result == 1
    ensures n >= 0 ==> result == Memoization.Factorial(n)
  {
    var i := 2;
    result := 1;
    while i <= n
      invariant 2 <= i
      invariant i <= if n >= 2 then n + 1 else 2
      invariant result == Memoization.Factorial(i - 1)
    {
      result := result * i;
      i := i + 1;
    }
  }

  /** 6! is 720. */
  lemma FactorialOfSix()
    ensures Memoization.Factorial(6) == 720
  {
    assert Memoization.Factorial(3) == 6;
  }

  /** The sample call `fact(6)`, which returns 720. */
  method FactOfSix() returns (r: int)
    ensures r == 720
  {
    r := Fact(6);
    FactorialOfSix();
  }

  /** The value of the static accumulator `y`. */
  datatype Accumulator = Accumulator(total: int)

  /** The accumulator before the first call. */
  const Initial := Accumulator(0)

  /** One call `f(x)`: the returned value and the accumulator afterwards. */
  function Call(acc: Accumulator, x: int): (r: (int, Accumulator))
    ensures r.1.total - acc.total == x
    ensures r.0 == r.1.total
  {
    var y := acc.total + x;
    (y, Accumulator(y))
  }

  /** The sum of a sequence of arguments. */
  function Sum(xs: seq<int>): int
  {
    if |xs| == 0 then 0 else Sum(xs[..|xs| - 1]) + xs[|xs| - 1]
  }

  /** The values returned by calling `f` on each argument in turn. */
  function CallAll(acc: Accumulator, xs: seq<int>): (r: (seq<int>, Accumulator))
    ensures |r.0| == |xs|
    ensures r.1.total == acc.total + Sum(xs)
    decreases |xs|
  {
    if |xs| == 0 then ([], acc)
    else
      var before := CallAll(acc, xs[..|xs| - 1]);
      var (y, after) := Call(before.1, xs[|xs| - 1]);
      (before.0 + [y], after)
  }

  /** Each call returns the running total of every argument so far. */
  lemma {:induction false} CallAllReturnsRunningTotals(acc: Accumulator, xs: seq<int>)
    ensures forall k :: 0 <= k < |xs| ==> CallAll(acc, xs).0[k] == acc.total + Sum(xs[..k + 1])
    decreases |xs|
  {
    if |xs| > 0 {
      var init := xs[..|xs| - 1];
      CallAllReturnsRunningTotals(acc, init);
      forall k | 0 <= k < |xs|
        ensures CallAll(acc, xs).0[k] == acc.total + Sum(xs[..k + 1])
      {
        if k < |xs| - 1 {
          assert xs[..k + 1] == init[..k + 1];
        } else {
          assert xs[..k + 1] == xs;
        }
      }
    }
  }

  /** The calls f(2), f(3), f(2) return 2, 5 and 7. */
  lemma CallsTwoThreeTwo()
    ensures CallAll(Initial, [2, 3, 2]).0 == [2, 5, 7]
  {
    assert [2, 3, 2][..2] == [2, 3];
    assert [2, 3, 2][..1] == [2];
  }

  /** `f` is not a function of its argument: the same argument 2 returns 2 on
      the first call and 7 on the third. */
  lemma NotPure()
    ensures var r := CallAll(Initial, [2, 3, 2]).0;
            r[0] != r[2]
  {
    CallsTwoThreeTwo();
  }
}
