/**
 The Reader functor: a computation that reads an environment. Mapping a
 function over a reader post-composes it with the reader's computation.
 */
module Functors {
  import Composition

  /** A computation from an environment of type `E` to a value of type `A`. */
  datatype Reader<!E(!new), A> = Reader(run: E -> A)

  /** `reader.map(func)`: a new reader that post-composes `func`; the reader
      mapped over is a value and stays as it was. */
  function Map<E(!new), A, B>(reader: Reader<E, A>, func: A -> B): (r: Reader<E, B>)
    ensures forall x :: r.run(x) == func(reader.run(x))
  {
    Reader(x => func(reader.run(x)))
  }

  /** Mapping is post-composition of plain functions. */
  lemma MapIsPostComposition<E(!new), A, B>(reader: Reader<E, A>, func: A -> B, x: E)
    ensures Map(reader, func).run(x) == Composition.Compose(func, reader.run)(x)
  {
  }

  /** Functor identity law. */
  lemma MapIdentity<E(!new), A>(reader: Reader<E, A>, x: E)
    ensures Map(reader, Composition.Identity).run(x) == reader.run(x)
  {
  }

  /** Functor composition law. */
  lemma MapComposition<E(!new), A(!new), B, C>(reader: Reader<E, A>, f: A -> B, g: B -> C, x: E)
    ensures Map(Map(reader, f), g).run(x) == Map(reader, Composition.Compose(g, f)).run(x)
  {
  }

  /** Every character is a decimal digit. */
  predicate IsDigits(s: string)
  {
    forall i :: 0 <= i < |s| ==> '0' <= s[i] <= '9'
  }

  /** Ten to the power `n`. */
  function Pow10(n: nat): nat
  {
    if n == 0 then 1 else 10 * Pow10(n - 1)
  }

  /** `read_int`: the value of a string of decimal digits, standing in for
      Python's `int(s)`; a string of n digits reads as a number below 10^n. */
  function ReadInt(s: string): (r: int)
    ensures IsDigits(s) ==> 0 <= r < Pow10(|s|)
  {
    if |s| == 0 then 0
    else 10 * ReadInt(s[..|s| - 1]) + (s[|s| - 1] as int - '0' as int)
  }

  /** `int_to_float`: the real with the integer's value. */
  function IntToReal(i: int): (r: real)
    ensures r.Floor == i && r == r.Floor as real
  {
    i as real
  }

  /** The sample arrow `g`: doubling, undone by halving. */
  function Twice(x: real): (r: real)
    ensures r / 2.0 == x
  {
    x * 2.0
  }

  /** Reading "42", converting and doubling gives 84. */
  lemma ReadConvertDouble()
    ensures Map(Reader(ReadInt), IntToReal).run("42") == 42.0
    ensures Map(Map(Reader(ReadInt), IntToReal), Twice).run("42") == 84.0
    ensures Map(Reader(ReadInt), Composition.Compose(Twice, IntToReal)).run("42") == 84.0
  {
    assert "42"[..1] == "4";
    assert "4"[..0] == "";
  }
}
