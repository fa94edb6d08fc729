# Standard-library-style search and counting algorithms, and two "Elements of Programming" exercises, modelled in Dafny

This project models three small pieces of a C++ library of generic algorithms:

- **Stl** (`stl.dfy`): the linear algorithms over a bounded range `[first, last)`:
  `for_each`, `find`, `find_if`, `find_if_not`, `all_of`, `none_of`, `any_of`,
  `count` and `count_if`. The range is a `seq<T>` plus two integer positions.
  It is readable when `0 <= first <= last <= |s|`, which is the precondition
  every one of these algorithms documents. A predicate is a function value
  `T -> bool`. The callable passed to `for_each` is modelled by its state `F`
  together with the step `(F, T) -> F` that one call makes to that state.
  `for_each`, the three searches and the two counts are loops over a local
  position, as in the source (`while` loops there for the first four, `for`
  loops for the counts). `all_of`, `none_of` and `any_of` are pure
  expressions over where a search stops. Here the search is the function
  `FirstSatisfying`; the methods `FindIf` and `FindIfNot` are proved to
  return exactly that position.
- **Selection** (`selection.dfy`): `select_2_4` and its helpers
  `select_2_4_ab` and `select_2_4_ab_cd`. They pick the element of rank 2
  (zero-based, so the third smallest) among four values under a comparator.
  They are pure functions that branch on the comparator. None of them demands
  anything of the comparator. Their rank property is proved under the
  hypothesis that the comparator is a strict weak order.
- **Power** (`power.dfy`): `power_unary(x, n, f)`. It counts `n` down to zero
  and replaces `x` by `f(x)` on each step. It is a method whose loop is proved
  against `Iterate`, the definition of `f` applied `n` times. `increment` is
  the successor on unbounded integers.

Two things in `src/ex_4_4.cpp` are handled explicitly:

- The source's calls from `select_2_4` to `select_2_4_ab`, from
  `select_2_4_ab` to `select_2_4_ab_cd`, and from `select_2_4_ab_cd` to
  `select_1_2`, leave out the comparator argument (src/ex_4_4.cpp:10, 12, 23,
  25, 36, 38). The model passes `cmp` through every call.
- `select_1_2` is called but defined in none of include/stl.hpp, include/concepts.hpp, include/function_reflection.hpp, src/ex_4_4.cpp, src/ch2.cpp or src/main.cpp. The model takes it
  to be "the larger of two": `select_1_2(x, y)` is `x` when `cmp(y, x)`, and
  `y` otherwise (`Selection.Select1Of2`). The branch structure of
  `select_2_4_ab_cd` yields the third smallest only under this reading.

## Model

| member | source | states |
|---|---|---|
| `Stl.FirstSatisfying` | include/stl.hpp:36-39 | the position where a scan for `p` stops: within `[first, last]`; every earlier element fails `p`; if it is below `last`, its element satisfies `p` |
| `Stl.FirstFailing` | include/stl.hpp:44-47 | the dual: within `[first, last]`; every earlier element satisfies `p`; if it is below `last`, its element fails `p` |
| `Stl.Filter` | include/stl.hpp:84-91 | the elements that satisfy `p`: there are no more of them than elements; each is an element of the input that satisfies `p`; every element of the input that satisfies `p` is kept |
| `Stl.FilterCountsPositions` | include/stl.hpp:84-91 | the length of the filtered sequence is the number of positions whose element satisfies `p` |
| `Stl.ForEach` | include/stl.hpp:15-24 | the callable's final state is the left-to-right fold of its step over the elements of `[first, last)` |
| `Stl.Find` | include/stl.hpp:26-32 | result is in `[first, last]`; every earlier element differs from `val`; if the result is below `last`, it holds `val`; it equals the `find_if` position for "equal to `val`" |
| `Stl.FindIf` | include/stl.hpp:34-40 | result is in `[first, last]`; every earlier element fails `p`; if the result is below `last`, it satisfies `p`; it equals `FirstSatisfying` |
| `Stl.FindIfNot` | include/stl.hpp:42-48 | result is in `[first, last]`; every earlier element satisfies `p`; if the result is below `last`, it fails `p`; it equals `FirstFailing` |
| `Stl.AllOf` | include/stl.hpp:50-55 | true iff every element of `[first, last)` satisfies `p` |
| `Stl.NoneOf` | include/stl.hpp:57-62 | true iff no element of `[first, last)` satisfies `p` |
| `Stl.AnyOf` | include/stl.hpp:64-69 | true iff some element of `[first, last)` satisfies `p` |
| `Stl.Count` | include/stl.hpp:71-80 | the tally is at most `last - first`; it is the number of elements equal to `val`, i.e. `count_if` with "equal to `val`" |
| `Stl.CountIf` | include/stl.hpp:82-91 | the tally is at most `last - first`; it is the number of elements that satisfy `p` |
| `Stl.QuantifierDualities` | include/stl.hpp:50-69 | `any_of(p) == !none_of(p)`, `all_of(p) == none_of(not p)`, `all_of(p) == !any_of(not p)` |
| `Stl.EmptyRange` | include/stl.hpp:28-91 | on an empty range both searches stop at `last`; `all_of` and `none_of` hold; `any_of` fails; the count is 0 |
| `Stl.FindIfResumes` | include/stl.hpp:36-47 | a search started again where `find_if` stopped stops at the same place; when that place holds a match, `find_if_not` started there moves past it |
| `Stl.FilterEmptyIffNone` | include/stl.hpp:84-91 | the tally is 0 iff no element satisfies `p` |
| `Stl.FilterFullIffAll` | include/stl.hpp:84-91 | the tally is the length iff every element satisfies `p` |
| `Stl.FilterComplement` | include/stl.hpp:84-91 | the tallies for `p` and for its negation add up to the length |
| `Stl.CountIfZeroIffNoneOf` | include/stl.hpp:57-91 | `count_if(p)` over a range is 0 iff `none_of(p)` holds there |
| `Stl.CountIfFullIffAllOf` | include/stl.hpp:50-91 | `count_if(p)` over a range equals `last - first` iff `all_of(p)` holds there |
| `Stl.FoldConcat` | include/stl.hpp:17-24 | traversing `xs + ys` is traversing `ys` starting from the state `xs` left |
| `Stl.FoldVisitsInOrder` | include/stl.hpp:17-24 | a callable that logs its arguments ends with exactly the elements, each once and in order |
| `Stl.DemoExpectations` | src/main.cpp:9-17 | on `[1, 2, 3, 4, 5]`: `find` of 3 is offset 2; `find_if` for "equal to 3" is offset 2; `any_of` for "equal to 3" holds |
| `Selection.Select1Of2` | src/ex_4_4.cpp:10-12 | returns one of its two arguments; under a strict weak order, neither argument is strictly after the result |
| `Selection.Select2Of4AbCd` | src/ex_4_4.cpp:3-14 | returns one of its four arguments; if the order is a strict weak order and both pairs are in order, the result has rank 2 |
| `Selection.Select2Of4Ab` | src/ex_4_4.cpp:16-27 | returns one of its four arguments; if the order is a strict weak order and the first pair is in order, the result has rank 2 |
| `Selection.Select2Of4` | src/ex_4_4.cpp:29-40 | returns one of its four arguments; under a strict weak order, at most two arguments are strictly before the result and at most one is strictly after it |
| `Selection.RankTwoUnique` | src/ex_4_4.cpp:29-40 | under a strict weak order, two values of rank 2 among the same four are equivalent, so the rank property pins the result down to equivalence |
| `Selection.Select2Of4SwapFirstPair` | src/ex_4_4.cpp:35-39 | exchanging `a` and `b` gives an equivalent result, and the identical one when `a` and `b` are comparable |
| `Selection.Select2Of4SwapSecondPair` | src/ex_4_4.cpp:22-26 | exchanging `c` and `d` gives an equivalent result, and the identical one when `c` and `d` are comparable |
| `Power.PowerUnary` | src/ch2.cpp:5-12 | for `n >= 0` the loop terminates and the result is `f` applied `n` times to `x` (so `x` itself when `n` is 0) |
| `Power.IterateSucc` | src/ch2.cpp:7-10 | `f` applied `n + 1` times is `f` applied `n` times to `f(x)`, and also `f` of `f` applied `n` times to `x` |
| `Power.IterateAdd` | src/ch2.cpp:6-12 | applying `f` `m + n` times is applying it `n` times and then `m` more times |
| `Power.Increment` | src/ch2.cpp:14 | the successor on unbounded `int`: greater than its argument by exactly one; applied `n` times to `k` it gives `k + n` (`Power.PowerOfIncrement`) |
| `Power.PowerOfIncrement` | src/ch2.cpp:6-14 | applying `increment` `n` times to `k` gives `k + n` |

## Left out

- The capability constraints of include/concepts.hpp, `Transformation` and `Relation`, are checked at compile time only. They appear as Dafny function types: `D -> D` for a transformation, `(T, T) -> bool` for a relation.
- `eop::predicate` and `eop::callable_with`, used by include/stl.hpp:16, 35, 43, 51, 58, 65, 83, are defined in none of include/stl.hpp, include/concepts.hpp, include/function_reflection.hpp, src/ex_4_4.cpp, src/ch2.cpp or src/main.cpp. The model reads them as a function `T -> bool` and as a callable whose effect is a step `(F, T) -> F` on its state.
- include/function_reflection.hpp is an unfinished type-reflection fragment that does not compile and defines no behaviour; it is not part of this model.
- `reduce` is called by src/main.cpp:19 but is defined in none of include/stl.hpp, include/concepts.hpp, include/function_reflection.hpp, src/ex_4_4.cpp, src/ch2.cpp or src/main.cpp, so it is not modelled. The same holds for `for_each_n`, the counted-range variants of the searches, `mismatch`, `adjacent_mismatch`, `relation_preserving`, `is_partitioned`, `partition_point`, `lower_bound`, `upper_bound` and `equal_range`: none of them exists in any of include/stl.hpp, include/concepts.hpp, include/function_reflection.hpp, src/ex_4_4.cpp, src/ch2.cpp or src/main.cpp.
- src/main.cpp is a test program. Its printing callback (src/main.cpp:10-11) is I/O and is left out. Its three search expectations are `Stl.DemoExpectations`.
- Stl: iterator categories are not distinguished. A range is random-access in the model; the algorithms only step forward by one, as single-pass iterators allow.
- Stl.Count, Stl.CountIf: the tally is an unbounded `nat`; overflow of the iterator's `difference_type` is not modelled.
- Power.PowerUnary: `n` and the integer values of `increment` are unbounded. Fixed-width wrap-around is not modelled. For a negative `n` of a signed type, the loop ends only after `n` wraps around. The wrap is undefined behaviour for `int` and wider types, and a wrapping conversion (after promotion to `int`) for narrower ones. The model requires `n >= 0`.
- Selection: the C++ selectors return a reference to one of their arguments. The model returns the value, so which argument object is returned is captured only up to equality of values.
- Selection.Select2Of4Ab: the passing of an ordered pair from `select_2_4` to `select_2_4_ab`, and from `select_2_4_ab` to `select_2_4_ab_cd`, is not a separate lemma. It is proved where each caller uses the callee's conditional rank guarantee.
