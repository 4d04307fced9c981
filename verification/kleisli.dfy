/**
 The Kleisli category of partial functions. A partial function returns an
 `Optional`, which is either a valid value or invalid; composition threads
 the validity through and stops at the first failure.

 Floating-point numbers are modelled as exact reals, and the square root
 `x ** 0.5` is a parameter: the example lemmas assume it is the
 non-negative square root.
 */
module Kleisli {

  /** The embellished result of a partial function. */
  datatype Optional<T> = Valid(value: T) | Invalid
  {
    predicate IsValid()
    {
      Valid?
    }
  }

  /** Kleisli composition: run `f`, and only if it produced a value, run `g`
      on it. */
  function Compose<A(!new), B, C>(f: A -> Optional<B>, g: B -> Optional<C>): (h: A -> Optional<C>)
    ensures forall x :: !f(x).IsValid() ==> h(x) == Invalid
    ensures forall x :: f(x).IsValid() ==> h(x) == g(f(x).value)
  {
    x => if f(x).IsValid() then g(f(x).value) else Invalid
  }

  /** The Kleisli identity arrow always succeeds with its argument. */
  function Identity<A>(x: A): (r: Optional<A>)
    ensures r.IsValid() && r.value == x
  {
    Valid(x)
  }

  /** When `f` fails, the second stage is never consulted: any `g` gives the
      same invalid result. */
  lemma ShortCircuit<A(!new), B, C>(f: A -> Optional<B>, g: B -> Optional<C>, g': B -> Optional<C>, x: A)
    requires !f(x).IsValid()
    ensures Compose(f, g)(x) == Compose(f, g')(x) == Invalid
  {
  }

  lemma LeftIdentity<A(!new), B>(f: A -> Optional<B>, x: A)
    ensures Compose(Identity, f)(x) == f(x)
  {
  }

  lemma RightIdentity<A(!new), B>(f: A -> Optional<B>, x: A)
    ensures Compose(f, Identity)(x) == f(x)
  {
  }

  lemma Associative<A(!new), B(!new), C, D>(f: A -> Optional<B>, g: B -> Optional<C>, h: C -> Optional<D>, x: A)
    ensures Compose(Compose(f, g), h)(x) == Compose(f, Compose(g, h))(x)
  {
  }

  /** The reciprocal, defined everywhere except at zero. */
  function SafeReciprocal(x: real): (r: Optional<real>)
    ensures r.IsValid() <==> x != 0.0
    ensures r.IsValid() ==> r.value * x == 1.0
  {
    if x != 0.0 then Valid(1.0 / x) else Invalid
  }

  /** `sqrt` returns the non-negative square root of every non-negative
      argument. */
  ghost predicate IsSquareRoot(sqrt: real -> real)
  {
    forall x :: x >= 0.0 ==> sqrt(x) >= 0.0 && sqrt(x) * sqrt(x) == x
  }

  /** The square root, defined on the non-negative reals. */
  function SafeRoot(sqrt: real -> real, x: real): (r: Optional<real>)
    ensures r.IsValid() <==> x >= 0.0
    ensures r.IsValid() ==> r.value == sqrt(x)
  {
    if x >= 0.0 then Valid(sqrt(x)) else Invalid
  }

  /** `sqrt(1/x)`, built as the Kleisli composite of the two. */
  function SafeRootReciprocal(sqrt: real -> real): (h: real -> Optional<real>)
    ensures forall x :: h(x).IsValid() <==> x > 0.0
    ensures forall x :: x > 0.0 ==> h(x) == Valid(sqrt(1.0 / x))
  {
    var h := Compose(SafeReciprocal, x => SafeRoot(sqrt, x));
    assert forall x :: (h(x).IsValid() <==> x > 0.0) && (x > 0.0 ==> h(x) == Valid(sqrt(1.0 / x))) by {
      forall x: real
        ensures (h(x).IsValid() <==> x > 0.0) && (x > 0.0 ==> h(x) == Valid(sqrt(1.0 / x)))
      {
        SafeRootReciprocalDomain(sqrt, x);
      }
    }
    h
  }

  /** The composite is defined exactly on the positive reals, and there it
      is the square root of the reciprocal. */
  lemma SafeRootReciprocalDomain(sqrt: real -> real, x: real)
    ensures Compose(SafeReciprocal, y => SafeRoot(sqrt, y))(x).IsValid() <==> x > 0.0
    ensures x > 0.0 ==> Compose(SafeReciprocal, y => SafeRoot(sqrt, y))(x) == Valid(sqrt(1.0 / x))
  {
    if x > 0.0 {
      assert 1.0 / x > 0.0;
    } else if x < 0.0 {
      assert 1.0 / x < 0.0;
    }
  }

  /** The sample values: 1/4 = 0.25, 0 has no reciprocal, -4 has one. */
  lemma SafeReciprocalExamples()
    ensures SafeReciprocal(4.0) == Valid(0.25)
    ensures !SafeReciprocal(0.0).IsValid()
    ensures SafeReciprocal(-4.0).IsValid()
  {
  }

  /** The sample values: the root of 4 is 2, 0 has a root and -4 has none. */
  lemma SafeRootExamples(sqrt: real -> real)
    requires IsSquareRoot(sqrt)
    ensures SafeRoot(sqrt, 4.0) == Valid(2.0)
    ensures SafeRoot(sqrt, 0.0).IsValid()
    ensures !SafeRoot(sqrt, -4.0).IsValid()
  {
    RootIsUnique(sqrt(4.0), 2.0);
  }

  /** The sample values: sqrt(1/4) = 0.5, sqrt(1/1) = 1, and 0 and -4 fail. */
  lemma SafeRootReciprocalExamples(sqrt: real -> real)
    requires IsSquareRoot(sqrt)
    ensures SafeRootReciprocal(sqrt)(4.0) == Valid(0.5)
    ensures SafeRootReciprocal(sqrt)(1.0) == Valid(1.0)
    ensures !SafeRootReciprocal(sqrt)(0.0).IsValid()
    ensures !SafeRootReciprocal(sqrt)(-4.0).IsValid()
  {
    RootIsUnique(sqrt(0.25), 0.5);
    RootIsUnique(sqrt(1.0), 1.0);
  }

  /** Two non-negative reals with the same square are equal. */
  lemma RootIsUnique(a: real, b: real)
    requires a >= 0.0 && b >= 0.0 && a * a == b * b
    ensures a == b
  {
    assert (a - b) * (a + b) == 0.0;
    if a + b != 0.0 {
      assert a - b == (a - b) * (a + b) / (a + b);
    }
  }
}
