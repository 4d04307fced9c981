/**
 Either as the coproduct of two types, and the factoriser that shows it is
 a better coproduct of int and bool than int with the injections `i` and
 `j`.
 */
module Coproduct {
  import Composition

  /** A value of one of two types, tagged with which one. */
  datatype Either<L, R> = Left(left: L) | Right(right: R)
  {
    predicate IsLeft()
    {
      Left?
    }

    predicate IsRight()
    {
      Right?
    }
  }

  /** The left injection. */
  function MakeLeft<L, R>(v: L): (e: Either<L, R>)
    ensures e.IsLeft() && !e.IsRight()
    ensures e.left == v
  {
    Left(v)
  }

  /** The right injection. */
  function MakeRight<L, R>(v: R): (e: Either<L, R>)
    ensures e.IsRight() && !e.IsLeft()
    ensures e.right == v
  {
    Right(v)
  }

  /** Every value is exactly one of the two, and is the injection of its own
      payload. */
  lemma LeftOrRight<L, R>(e: Either<L, R>)
    ensures e.IsLeft() != e.IsRight()
    ensures e.IsLeft() ==> e == MakeLeft(e.left)
    ensures e.IsRight() ==> e == MakeRight(e.right)
  {
  }

  /** The candidate coproduct's left injection: the identity arrow on int. */
  function I(n: int): (r: int)
    ensures r == Composition.Identity(n)
  {
    n
  }

  /** The candidate coproduct's right injection: true is sent to 0 and false
      to 1. */
  function J(b: bool): (r: int)
    ensures r == 0 <==> b
    ensures r == 1 <==> !b
  {
    if b then 0 else 1
  }

  /** Unlike Either's injections, `i` and `j` overlap: 0 and 1 are each the
      image of both an int and a bool, so int cannot tell them apart. */
  lemma InjectionsOverlap()
    ensures I(0) == J(true) && I(1) == J(false)
    ensures forall n: int, b: bool :: MakeLeft<int, bool>(n) != MakeRight<int, bool>(b)
  {
  }

  /** Exercise 6: int with `i` and `j` is not a better coproduct than
      Either, because no arrow from int to Either factorises Either's
      injections through `i` and `j`: an arrow that sends every i(n) to the
      left sends j(true) = i(0) to the left as well, not to the right. */
  lemma IntIsNotBetter(h: int -> Either<int, bool>)
    ensures (forall n :: h(I(n)) == MakeLeft(n)) ==> exists b :: h(J(b)) != MakeRight(b)
  {
    if forall n :: h(I(n)) == MakeLeft(n) {
      assert h(J(true)) == h(I(0)) == MakeLeft(0);
      assert h(J(true)) != MakeRight(true);
    }
  }

  /** The factoriser from Either to int. */
  function M(e: Either<int, bool>): (r: int)
    ensures e.IsLeft() ==> r == I(e.left)
    ensures e.IsRight() ==> r == J(e.right)
  {
    if e.IsLeft() then e.left
    else if e.right then 0 else 1
  }

  /** `m` composed with the left injection is `i`. */
  lemma FactorsLeft(n: int)
    ensures M(MakeLeft(n)) == I(n)
  {
  }

  /** `m` composed with the right injection is `j`. */
  lemma FactorsRight(b: bool)
    ensures M(MakeRight(b)) == J(b)
  {
  }

  /** `m` is the only morphism that factorises `i` and `j`. */
  lemma FactoriserIsUnique(h: Either<int, bool> -> int, e: Either<int, bool>)
    requires forall n :: h(Left(n)) == I(n)
    requires forall b :: h(Right(b)) == J(b)
    ensures h(e) == M(e)
  {
    match e
    case Left(n) =>
      assert h(Left(n)) == I(n);
    case Right(b) =>
      assert h(Right(b)) == J(b);
  }

  /** The samples: `make_left(5)` is left with 5, and `make_right(1729)` is
      not left and carries 1729. */
  lemma SampleInjections()
    ensures var el: Either<int, int> := MakeLeft(5);
            el.IsLeft() && el.left == 5
    ensures var er: Either<int, int> := MakeRight(1729);
            !er.IsLeft() && er.right == 1729
  {
  }

  /** The sample factorisation: `m(make_left(5))` is 5. */
  lemma SampleFactorisation()
    ensures M(MakeLeft(5)) == 5
  {
  }
}
