/**
 Types and functions: a memoizing wrapper around a pure one-argument
 function, the recursive factorial it is demonstrated on, and the four
 functions from Bool to Bool.

 The wrapper is an explicit value owning its cache; one call takes the
 wrapper to its successor state, and `invoked` records whether the wrapped
 function had to be evaluated, which is what distinguishes a memoized call
 from a plain one.
 */
module Memoization {
  import Composition

  /** The wrapped function together with the results cached so far. */
  datatype Memoizer<!K, V> = Memoizer(f: K -> V, cache: map<K, V>)

  /** The outcome of one call: the returned value, the wrapper afterwards,
      and whether the wrapped function was evaluated. */
  datatype Call<!K, V> = Call(value: V, next: Memoizer<K, V>, invoked: bool)

  /** Every cached result is what the wrapped function returns. */
  ghost predicate Faithful<K, V>(m: Memoizer<K, V>)
  {
    forall k :: k in m.cache ==> m.cache[k] == m.f(k)
  }

  /** The later wrapper keeps every entry of the earlier one unchanged. */
  ghost predicate Extends<K, V>(m: Memoizer<K, V>, m': Memoizer<K, V>)
  {
    && m'.f == m.f
    && m.cache.Keys <= m'.cache.Keys
    && forall k :: k in m.cache ==> m'.cache[k] == m.cache[k]
  }

  /** A fresh wrapper: nothing is cached yet. */
  function Memoize<K, V>(f: K -> V): (m: Memoizer<K, V>)
    ensures m.f == f
    ensures |m.cache| == 0
    ensures Faithful(m)
  {
    Memoizer(f, map[])
  }

  /** One call of the memoized function with argument `x`. */
  function Apply<K, V>(m: Memoizer<K, V>, x: K): (c: Call<K, V>)
    requires Faithful(m)
    ensures c.value == m.f(x)
    ensures x in c.next.cache && c.next.cache[x] == m.f(x)
    ensures c.next.cache.Keys == m.cache.Keys + {x}
    ensures Extends(m, c.next)
    ensures Faithful(c.next)
    ensures c.invoked <==> x !in m.cache
    ensures x in m.cache ==> c.next == m
  {
    if x in m.cache then Call(m.cache[x], m, false)
    else
      var m' := m.(cache := m.cache[x := m.f(x)]);
      Call(m'.cache[x], m', true)
  }

  /** The results of a run of calls, the final wrapper, and how many calls
      evaluated the wrapped function. */
  datatype Run<!K, V> = Run(values: seq<V>, last: Memoizer<K, V>, invocations: nat)

  /** The set of arguments occurring in `xs`. */
  function Elements<K>(xs: seq<K>): set<K>
  {
    set i | 0 <= i < |xs| :: xs[i]
  }

  /** Calls the memoized function on each argument of `xs` in turn. */
  function ApplyAll<K, V>(m: Memoizer<K, V>, xs: seq<K>): (r: Run<K, V>)
    requires Faithful(m)
    ensures |r.values| == |xs|
    ensures forall i :: 0 <= i < |xs| ==> r.values[i] == m.f(xs[i])
    ensures Faithful(r.last) && Extends(m, r.last)
    decreases |xs|
  {
    if |xs| == 0 then Run([], m, 0)
    else
      var c := Apply(m, xs[0]);
      var rest := ApplyAll(c.next, xs[1..]);
      Run([c.value] + rest.values, rest.last, rest.invocations + (if c.invoked then 1 else 0))
  }

  /** After a run of calls, the cache holds exactly the earlier keys and the
      arguments of the run. */
  lemma {:induction false} ApplyAllCachesArguments<K, V>(m: Memoizer<K, V>, xs: seq<K>)
    requires Faithful(m)
    ensures ApplyAll(m, xs).last.cache.Keys == m.cache.Keys + Elements(xs)
    decreases |xs|
  {
    if |xs| == 0 {
      assert Elements(xs) == {};
    } else {
      var c := Apply(m, xs[0]);
      ApplyAllCachesArguments(c.next, xs[1..]);
      ElementsOfCons(xs);
    }
  }

  /** The wrapped function is evaluated exactly once per argument that is
      not cached yet, however often that argument recurs. */
  lemma {:induction false} InvokedOncePerNewArgument<K, V>(m: Memoizer<K, V>, xs: seq<K>)
    requires Faithful(m)
    ensures ApplyAll(m, xs).invocations == |Elements(xs) - m.cache.Keys|
    decreases |xs|
  {
    if |xs| == 0 {
      assert Elements(xs) == {};
    } else {
      var x := xs[0];
      var c := Apply(m, x);
      var rest := ApplyAll(c.next, xs[1..]);
      assert ApplyAll(m, xs).invocations == rest.invocations + (if c.invoked then 1 else 0);
      InvokedOncePerNewArgument(c.next, xs[1..]);
      ElementsOfCons(xs);
      NewArgumentsOfCons(x, Elements(xs[1..]), m.cache.Keys);
    }
  }

  lemma ElementsOfCons<K>(xs: seq<K>)
    requires |xs| > 0
    ensures Elements(xs) == {xs[0]} + Elements(xs[1..])
  {
    assert forall i :: 1 <= i < |xs| ==> xs[i] == xs[1..][i - 1];
  }

  /** Counting the arguments not yet cached, one leading argument at a time. */
  lemma NewArgumentsOfCons<K>(x: K, rest: set<K>, cached: set<K>)
    ensures x in cached ==> |({x} + rest) - cached| == |rest - cached|
    ensures x !in cached ==> |({x} + rest) - cached| == 1 + |rest - (cached + {x})|
  {
    if x in cached {
      assert ({x} + rest) - cached == rest - cached;
    } else {
      var unseen := rest - (cached + {x});
      assert ({x} + rest) - cached == {x} + unseen;
    }
  }

  /** Starting from a fresh wrapper, the number of evaluations of the
      wrapped function is the number of distinct arguments. */
  lemma FreshWrapperInvokesOncePerDistinctArgument<K, V>(f: K -> V, xs: seq<K>)
    ensures ApplyAll(Memoize(f), xs).invocations == |Elements(xs)|
  {
    InvokedOncePerNewArgument(Memoize(f), xs);
    assert Elements(xs) - Memoize(f).cache.Keys == Elements(xs);
  }

  /** The recursive factorial; the source only terminates on naturals. */
  function Factorial(n: nat): (r: nat)
    ensures r >= 1
    ensures r >= n
  {
    if n == 0 then 1 else n * Factorial(n - 1)
  }

  /** The recursion that defines factorial, read as a law. */
  lemma FactorialRecurrence(n: nat)
    ensures Factorial(0) == 1
    ensures n > 0 ==> Factorial(n) == n * Factorial(n - 1)
  {
  }

  /** Memoizing factorial: two calls with 5 both give 120, and only the
      first evaluates the factorial. */
  lemma MemoizedFactorialTwice()
    ensures var first := Apply(Memoize(Factorial), 5);
            var second := Apply(first.next, 5);
            && first.value == 120 && first.invoked
            && second.value == 120 && !second.invoked
  {
    var first := Apply(Memoize(Factorial), 5);
    assert Factorial(5) == 120 by {
      assert Factorial(2) == 2;
      assert Factorial(3) == 6;
      assert Factorial(4) == 24;
    }
  }

  /** The four functions from Bool to Bool. */
  function BoolIdentity(x: bool): (r: bool)
    ensures r == x
  {
    Composition.Identity(x)
  }

  function BoolInverse(x: bool): (r: bool)
    ensures r != x
  {
    !x
  }

  function BoolTrue(x: bool): (r: bool)
    ensures r
  {
    true
  }

  function BoolFalse(x: bool): (r: bool)
    ensures !r
  {
    false
  }

  /** Inverting twice gives the argument back; the two constants ignore it. */
  lemma BoolFunctionLaws(x: bool, y: bool)
    ensures BoolInverse(BoolInverse(x)) == x
    ensures BoolInverse(x) != x
    ensures BoolTrue(x) == BoolTrue(y) && BoolFalse(x) == BoolFalse(y)
  {
  }

  /** Every function from Bool to Bool agrees everywhere with exactly one of
      the four, so there are four such functions. */
  lemma BoolFunctionsAreFour(h: bool -> bool)
    ensures var isId := h(false) == BoolIdentity(false) && h(true) == BoolIdentity(true);
            var isInv := h(false) == BoolInverse(false) && h(true) == BoolInverse(true);
            var isTrue := h(false) == BoolTrue(false) && h(true) == BoolTrue(true);
            var isFalse := h(false) == BoolFalse(false) && h(true) == BoolFalse(true);
            && (isId || isInv || isTrue || isFalse)
            && (isId ==> !isInv && !isTrue && !isFalse)
            && (isInv ==> !isTrue && !isFalse)
            && (isTrue ==> !isFalse)
  {
  }
}
