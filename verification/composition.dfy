/**
 Identity and composition of plain functions: the two ingredients of a
 category, with functions as arrows. Composition is ordinary application,
 so the category laws hold pointwise for every argument.
 */
module Composition {

  /** The identity arrow: hands back its argument unchanged. */
  function Identity<A>(x: A): (r: A)
    ensures r == x
  {
    x
  }

  /** `Compose(f, g)` runs `g` first and feeds its result to `f`. */
  function Compose<A(!new), B, C>(f: B -> C, g: A -> B): (h: A -> C)
    ensures forall x :: h(x) == f(g(x))
  {
    x => f(g(x))
  }

  /** Identity is a left unit of composition. */
  lemma LeftIdentity<A(!new), B>(f: A -> B, x: A)
    ensures Compose(Identity, f)(x) == f(x)
  {
  }

  /** Identity is a right unit of composition. */
  lemma RightIdentity<A(!new), B>(f: A -> B, x: A)
    ensures Compose(f, Identity)(x) == f(x)
  {
  }

  /** Composition is associative: bracketing does not change the result. */
  lemma Associative<A(!new), B(!new), C, D>(f: C -> D, g: B -> C, h: A -> B, x: A)
    ensures Compose(Compose(f, g), h)(x) == Compose(f, Compose(g, h))(x)
  {
  }

  /** The sample arrow `f`: one more than its argument. */
  function Increment(x: int): (r: int)
    ensures r > x && r - 1 == x
  {
    x + 1
  }

  /** The sample arrow `g`: an even number, half of which is the argument. */
  function Double(x: int): (r: int)
    ensures r % 2 == 0 && r / 2 == x
  {
    x * 2
  }

  /** With "add one" after "double", 5 becomes 11. */
  lemma IncrementAfterDoubleOfFive()
    ensures Compose(Increment, Double)(5) == 11
  {
  }

  /** Composition is not commutative: swapping the two arrows changes the
      value at 1 from 3 to 4. */
  lemma OrderMatters()
    ensures Compose(Increment, Double)(1) == 3
    ensures Compose(Double, Increment)(1) == 4
    ensures Compose(Increment, Double)(1) != Compose(Double, Increment)(1)
  {
  }
}
