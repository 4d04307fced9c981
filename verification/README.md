# Category theory for programmers: the exercises as a verified model

This project models the solutions to a set of short exercises on category theory for programmers. Each exercise is independent:

- **Composition** (`composition.dfy`): the identity function and function composition. Functions are the arrows, and the unit and associativity laws are proved pointwise.
- **Memoization** (`memoization.dfy`): a memoizing wrapper around a one-argument function, modelled as an explicit value that owns the wrapped function and its cache. One call returns the result and the next state of the wrapper, and records whether the wrapped function had to be evaluated. The module also has the recursive factorial that is memoized in the sample, and the four functions from Bool to Bool.
- **Impurity** (`impurity.dfy`): the iterative C++ `fact` as a loop, proved equal to the recursive factorial. Also `int f(int)`, whose `static` accumulator becomes an explicit state.
- **Kleisli** (`kleisli.dfy`): the Kleisli category of partial functions. `Optional` is a sum type `Valid(value) | Invalid`. The module has Kleisli composition and identity, their category laws, and `safe_reciprocal`, `safe_root` and their composite.
- **Logging** (`logging.dfy`): the C++ embellished functions. These are the three versions of a logging `negate`, the character-wise `toUpper`, and `words`/`toWords`, which split a string on whitespace.
- **Coproduct** (`coproduct.dfy`): `Either` with its two injections, and the factoriser `m` from `Either<int, bool>` to `int` equipped with `i` and `j`. The module proves that `m` is the unique factoriser.
- **Functors** (`functors.dfy`): the Reader functor. `map` is post-composition, and the functor identity and composition laws are proved.

Python floats are modelled as exact `real`s. C++ `int` is modelled as an unbounded `int`. The square root `x ** 0.5` is a parameter of `SafeRoot`. The example lemmas about its value require that parameter to be the non-negative square root.

## Model

| member | source | states |
|---|---|---|
| Composition.Identity | 1_Category_The_Essence_of_Composition/1.4_Challenges.py:17-18 | the identity returns its argument unchanged |
| Composition.Compose | 1_Category_The_Essence_of_Composition/1.4_Challenges.py:20-21 | the composite applied to x is f applied to g(x), for every x |
| Composition.LeftIdentity | 1_Category_The_Essence_of_Composition/1.4_Challenges.py:29 | composing identity after f behaves as f |
| Composition.RightIdentity | 1_Category_The_Essence_of_Composition/1.4_Challenges.py:30 | composing f after identity behaves as f |
| Composition.Associative | 1_Category_The_Essence_of_Composition/1.4_Challenges.py:20-21 | (f . g) . h and f . (g . h) agree on every argument |
| Composition.Increment | 1_Category_The_Essence_of_Composition/1.4_Challenges.py:24 | f adds one: the result exceeds the argument by exactly one |
| Composition.Double | 1_Category_The_Essence_of_Composition/1.4_Challenges.py:25 | g doubles: the result is even and halves back to the argument |
| Composition.IncrementAfterDoubleOfFive | 1_Category_The_Essence_of_Composition/1.4_Challenges.py:24-27 | with f = x+1 and g = x*2, composition(f, g)(5) is 11 |
| Composition.OrderMatters | 1_Category_The_Essence_of_Composition/1.4_Challenges.py:33-34 | composition(f, g)(1) is 3 and composition(g, f)(1) is 4, so order matters |
| Memoization.Memoize | 2_Types_and_Functions/challenges.py:43-44 | a new wrapper holds f and an empty cache, which trivially agrees with f |
| Memoization.Apply | 2_Types_and_Functions/challenges.py:46-49 | a call returns f(x); afterwards x is cached with f(x) and no other key is added; existing entries are kept; f is evaluated iff x was not cached; a cached x leaves the wrapper unchanged |
| Memoization.ApplyAll | 2_Types_and_Functions/challenges.py:46-50 | a run of calls returns f of every argument in order, keeps every earlier entry unchanged, and leaves a cache that agrees with f |
| Memoization.ApplyAllCachesArguments | 2_Types_and_Functions/challenges.py:47-48 | after a run of calls the cache holds exactly the earlier keys plus the arguments of the run |
| Memoization.InvokedOncePerNewArgument | 2_Types_and_Functions/challenges.py:46-49 | over any run of calls, f is evaluated exactly once per distinct argument that was not yet cached, however often it recurs |
| Memoization.FreshWrapperInvokesOncePerDistinctArgument | 2_Types_and_Functions/challenges.py:43-50 | from a fresh wrapper, the number of evaluations of f is the number of distinct arguments |
| Memoization.Factorial | 2_Types_and_Functions/challenges.py:52-57 | factorial is at least 1 and at least its argument |
| Memoization.FactorialRecurrence | 2_Types_and_Functions/challenges.py:52-57 | factorial(0) = 1 and factorial(n) = n * factorial(n-1) for n > 0 |
| Memoization.MemoizedFactorialTwice | 2_Types_and_Functions/challenges.py:59-70 | memoized factorial of 5 gives 120 twice; only the first call evaluates factorial |
| Memoization.BoolIdentity | 2_Types_and_Functions/challenges.py:109 | returns its argument: the identity arrow at Bool |
| Memoization.BoolInverse | 2_Types_and_Functions/challenges.py:110 | returns the other truth value |
| Memoization.BoolTrue | 2_Types_and_Functions/challenges.py:111 | returns true whatever the argument |
| Memoization.BoolFalse | 2_Types_and_Functions/challenges.py:112 | returns false whatever the argument |
| Memoization.BoolFunctionLaws | 2_Types_and_Functions/challenges.py:109-112 | inverse is an involution with no fixed point; true and false are constant |
| Memoization.BoolFunctionsAreFour | 2_Types_and_Functions/challenges.py:109-112 | every Bool to Bool function agrees with exactly one of identity, inverse, true and false |
| Impurity.Fact | 2_Types_and_Functions/challenges.cpp:3-9 | the loop returns n! for n >= 0, and 1 whenever n <= 1 because the loop body never runs |
| Impurity.FactOfSix | 2_Types_and_Functions/challenges.cpp:23 | the call fact(6) returns 720, the value recorded at line 31 |
| Impurity.FactorialOfSix | 2_Types_and_Functions/challenges.cpp:31 | 6! is 720 |
| Impurity.Call | 2_Types_and_Functions/challenges.cpp:16-20 | a call adds its argument to the accumulator and returns the new total |
| Impurity.CallAll | 2_Types_and_Functions/challenges.cpp:16-20 | after a run of calls the accumulator has grown by the sum of the arguments, with one result per call |
| Impurity.CallAllReturnsRunningTotals | 2_Types_and_Functions/challenges.cpp:16-20 | the k-th call returns the initial total plus the sum of the first k+1 arguments |
| Impurity.CallsTwoThreeTwo | 2_Types_and_Functions/challenges.cpp:34-36 | f(2), f(3), f(2) from a zero accumulator return 2, 5, 7 |
| Impurity.NotPure | 2_Types_and_Functions/challenges.cpp:25-27 | the same argument 2 returns different values on the first and third calls |
| Kleisli.Compose | 4_Kleisli_Categories/challenge.py:45-51 | if f(x) is invalid the composite is invalid; otherwise the composite is g applied to f's value |
| Kleisli.Identity | 4_Kleisli_Categories/challenge.py:53-54 | the Kleisli identity is valid and carries its argument |
| Kleisli.ShortCircuit | 4_Kleisli_Categories/challenge.py:47-50 | when f(x) is invalid, the composite's result does not depend on g |
| Kleisli.LeftIdentity | 4_Kleisli_Categories/challenge.py:45-54 | compose(identity, f) agrees with f on every argument |
| Kleisli.RightIdentity | 4_Kleisli_Categories/challenge.py:45-54 | compose(f, identity) agrees with f on every argument |
| Kleisli.Associative | 4_Kleisli_Categories/challenge.py:45-51 | compose(compose(f, g), h) agrees with compose(f, compose(g, h)) on every argument |
| Kleisli.SafeReciprocal | 4_Kleisli_Categories/challenge.py:56-60 | valid iff x is not 0, and then the value times x is 1 |
| Kleisli.SafeRoot | 4_Kleisli_Categories/challenge.py:67-71 | valid iff x >= 0, and then the value is the root of x |
| Kleisli.SafeRootReciprocal | 4_Kleisli_Categories/challenge.py:77 | the composite of safe_reciprocal and safe_root is valid exactly for x > 0, and then carries sqrt(1/x) |
| Kleisli.SafeRootReciprocalDomain | 4_Kleisli_Categories/challenge.py:77 | the composite is valid iff x > 0, and then it carries sqrt(1/x) |
| Kleisli.SafeReciprocalExamples | 4_Kleisli_Categories/challenge.py:62-64 | 4 gives 0.25, 0 is invalid and -4 is valid |
| Kleisli.SafeRootExamples | 4_Kleisli_Categories/challenge.py:73-75 | 4 gives 2.0, 0 is valid and -4 is invalid |
| Kleisli.SafeRootReciprocalExamples | 4_Kleisli_Categories/challenge.py:79-82 | 4 gives 0.5 and 1 gives 1.0; 0 and -4 are invalid |
| Logging.ImpureNegate | 4_Kleisli_Categories/kleisli_categories.cpp:14-18 | returns the negation; the global log keeps its old text as a prefix, followed by exactly "Not so! " |
| Logging.Negate | 4_Kleisli_Categories/kleisli_categories.cpp:22-24 | returns the negation; the returned log is the given log followed by exactly "Not so! " |
| Logging.Negate2 | 4_Kleisli_Categories/kleisli_categories.cpp:32-34 | returns the negation and the entry "Not so! ", whatever was logged before |
| Logging.ImpureNegateIsNegate | 4_Kleisli_Categories/kleisli_categories.cpp:14-24 | threading the global log through impure_negate gives what negate gives with the log passed explicitly |
| Logging.Negate2AggregatesToNegate | 4_Kleisli_Categories/kleisli_categories.cpp:32-36 | appending negate2's entry to an earlier log gives exactly negate's result |
| Logging.NegateTwice | 4_Kleisli_Categories/kleisli_categories.cpp:22-24 | negating twice restores the value and logs the message twice |
| Logging.IsSpace | 4_Kleisli_Categories/kleisli_categories.cpp:55 | a character is whitespace exactly when it is the space or one of the control characters with codes 9 to 13 |
| Logging.Upper | 4_Kleisli_Categories/kleisli_categories.cpp:43 | the transform keeps the length, applies toupper at every position, and leaves no lower-case letter |
| Logging.UpperChar | 4_Kleisli_Categories/kleisli_categories.cpp:42 | toupper returns no lower-case letter; it shifts a to z down by 32 and leaves every other character alone |
| Logging.ToUpper | 4_Kleisli_Categories/kleisli_categories.cpp:40-45 | the result has the input's length and is toupper applied to each character |
| Logging.UpperIsIdempotent | 4_Kleisli_Categories/kleisli_categories.cpp:40-45 | upper-casing leaves no lower-case letter, keeps every other character, and a second pass changes nothing |
| Logging.WordsOf | 4_Kleisli_Categories/kleisli_categories.cpp:51-61 | the words the loop builds from a string, defined by recursion on its last character: never empty; the lemmas WordsOfCount, WordsOfHaveNoSpaces, WordsOfConcat and WordsOfInterleave state what they are |
| Logging.Words | 4_Kleisli_Categories/kleisli_categories.cpp:51-61 | never empty; one more word than whitespace characters; no word contains whitespace; the words concatenate to the non-whitespace characters; putting the whitespace back rebuilds the input |
| Logging.ToWords | 4_Kleisli_Categories/kleisli_categories.cpp:63-65 | gives the same words as words, with the same splitting guarantees: never empty, one more word than whitespace characters, no whitespace in a word, the words concatenate to the non-whitespace characters, and the whitespace put back rebuilds the input |
| Logging.WordsOfCount | 4_Kleisli_Categories/kleisli_categories.cpp:52-59 | the number of words is one more than the number of whitespace characters |
| Logging.WordsOfHaveNoSpaces | 4_Kleisli_Categories/kleisli_categories.cpp:55-58 | no word contains a whitespace character |
| Logging.WordsOfConcat | 4_Kleisli_Categories/kleisli_categories.cpp:55-58 | the words concatenate to the input with its whitespace removed |
| Logging.WordsOfInterleave | 4_Kleisli_Categories/kleisli_categories.cpp:52-59 | interleaving the words with the input's whitespace characters rebuilds the input |
| Logging.WordsOfAppendLetters | 4_Kleisli_Categories/kleisli_categories.cpp:57-58 | characters other than whitespace only extend the last word |
| Logging.WordsOfTwoWords | 4_Kleisli_Categories/kleisli_categories.cpp:52-59 | two whitespace-free words around one whitespace character split back into those two words |
| Logging.HelloWorldWords | 4_Kleisli_Categories/kleisli_categories.cpp:70-71 | "hello world" splits into "hello" and "world" |
| Coproduct.MakeLeft | 5_Products_and_Coproducts/challenge.py:37-39 | the left injection is left, not right, and carries its value |
| Coproduct.MakeRight | 5_Products_and_Coproducts/challenge.py:41-43 | the right injection is right, not left, and carries its value |
| Coproduct.LeftOrRight | 5_Products_and_Coproducts/challenge.py:45-51 | every value is exactly one of left or right, and is the injection of its own payload |
| Coproduct.I | 5_Products_and_Coproducts/challenge.py:66-67 | i is the identity arrow on int |
| Coproduct.J | 5_Products_and_Coproducts/challenge.py:69-70 | j sends true to 0 and false to 1, and returns 0 or 1 only for those |
| Coproduct.InjectionsOverlap | 5_Products_and_Coproducts/challenge.py:15-16 | i and j overlap (i(0) = j(true), i(1) = j(false)) while no left value of Either equals any right value |
| Coproduct.IntIsNotBetter | 5_Products_and_Coproducts/challenge.py:15-16 | no arrow from int to Either factorises Either's injections through i and j: if it sends every i(n) to left n, some j(b) does not go to right b |
| Coproduct.M | 5_Products_and_Coproducts/challenge.py:72-75 | on a left value m is i of the payload; on a right value m is j of the payload |
| Coproduct.FactorsLeft | 5_Products_and_Coproducts/challenge.py:66-74 | m after the left injection is i |
| Coproduct.FactorsRight | 5_Products_and_Coproducts/challenge.py:69-75 | m after the right injection is j |
| Coproduct.FactoriserIsUnique | 5_Products_and_Coproducts/challenge.py:64-75 | any function that factorises i and j through the injections agrees with m everywhere |
| Coproduct.SampleInjections | 5_Products_and_Coproducts/challenge.py:55-61 | make_left(5) is left with 5; make_right(1729) is not left and carries 1729 |
| Coproduct.SampleFactorisation | 5_Products_and_Coproducts/challenge.py:78-79 | m(make_left(5)) is 5 |
| Functors.Map | 7_Functors/reader.py:20-21 | the mapped reader's run on x is func applied to the original reader's run on x |
| Functors.MapIsPostComposition | 7_Functors/reader.py:20-21 | mapping is post-composition with the reader's function |
| Functors.MapIdentity | 7_Functors/reader.py:39 | mapping the identity leaves the reader's results unchanged |
| Functors.MapComposition | 7_Functors/reader.py:44 | mapping f and then g agrees with mapping g after f |
| Functors.ReadInt | 7_Functors/reader.py:24-25 | read_int: a string of n decimal digits reads as a number from 0 to 10^n - 1 |
| Functors.IntToReal | 7_Functors/reader.py:27-28 | int_to_float: a whole real whose floor is the integer |
| Functors.Twice | 7_Functors/reader.py:43 | g doubles: halving the result gives the argument back |
| Functors.ReadConvertDouble | 7_Functors/reader.py:42-47 | reading "42", converting to a real and doubling gives 84.0, whether mapped in two steps or one |

## Left out

- 6_Simple_Algebraic_Data_Types/challenge.cpp is not part of this model. It is floating-point area and circumference formulas and a driver that uses `new` and `delete`.
- All printing and the `main` drivers are left out. The values they print are stated as sample lemmas instead.
- The `time.sleep` inside `factorial` and the `time.time()` measurements are left out. The speed-up they show is modelled by the `invoked` flag of a memoized call.
- `my_random` and `seeded_random` depend on library random-number state, so they are left out. So is the `TypeError` from calling the memoized zero-argument function.
- The C++ `bool f()` only prints and returns true, so it is left out.
- The memoizer's closure over a mutable dictionary is modelled as a value passed from call to call. Dafny map keys always support equality, so the `TypeError` for unhashable arguments has no counterpart.
- Memoization.Apply requires that the cache agrees with the wrapped function. Every wrapper built by `Memoize` and then `Apply` satisfies this.
- Memoization.Apply's guarantee that a call returns `f(x)` assumes `f` gives equal results for arguments Python treats as the same key. Python's dictionary identifies `1`, `1.0` and `True`, so `memoize(str)` called on `True` and then on `1` returns `"True"` for `1`; the model's keys are compared by Dafny equality only.
- Memoization.Apply returns values, so the sharing of one cached object between calls is not modelled: in Python, mutating a mutable result changes what later calls return.
- Memoization.Apply does not model an exception raised by `f`. In Python it propagates to the caller and leaves the cache unchanged.
- Memoization.Factorial is defined on naturals only. The source's `factorial` never reaches its base case on a negative argument and fails with a recursion error.
- Impurity.Fact does not model 32-bit `int` overflow. The C++ result overflows, which is undefined behaviour, from n = 13 on; the model computes the exact n!.
- Impurity.Call does not model 32-bit overflow of the static accumulator. The model's total is unbounded.
- Kleisli.SafeReciprocal computes over exact reals rather than IEEE doubles, so the values are exact and the rounding of `1/x` is not modelled.
- Kleisli.SafeRoot takes the square root as a parameter, because `x ** 0.5` is floating-point. The example lemmas assume it is the non-negative square root.
- Python uses `None` as the "absent" marker in `Optional` and `Either`. So `Optional(None)` is invalid, `make_left(None)` is neither left nor right, and `Either(left=1, right=2)` is both. The model uses sum types, which have none of these cases.
- `Optional.value()` on an invalid instance returns `None` in the code. The model has no value there: `value` is a field of `Valid` only.
- The Python `compose` evaluates `f(x)` twice. Because `f` is pure, the model evaluates it once.
- `std::isspace` and `std::toupper` are modelled for the C locale only: the six ASCII whitespace characters, and the letters a to z. The undefined behaviour of passing a negative `char` is not modelled.
- Functors.ReadInt reads a string of decimal digits and stands in for Python's `int(s)`. Signs, surrounding whitespace and the `ValueError` for other strings are not modelled.
- `Reader.map` returns a new reader and leaves the original untouched. Dafny datatypes are immutable, so this holds by construction and has no separate contract.
- Functors.Map captures the reader's function when the mapped reader is built. Python's `map` reads `self.run` only when the new reader runs, so reassigning the original reader's `run` afterwards also changes the mapped reader; that late binding is not modelled.
