# Lock-step traversal algorithms (`aal::var`)

This project models the algorithms of `aal::var` and the helpers of their test
suite. The algorithms walk several sequences in lock-step. A primary range
`[f, l)` decides where the walk stops. Zero or more secondary cursors advance
one step each time the primary cursor does. A caller-supplied predicate or
operation receives the current primary element and the current element of
every secondary sequence, in declaration order.

- `find` stops at `l` or at the first position where the predicate holds, and
  returns every cursor. `found` (and `any_of`, which the tests call) says
  whether `find` stopped before `l`.
- `transform` writes the operation's value through an output cursor at every
  position and returns the output cursor one past the last write.
- The test suite adds the fold lambdas `plus`, `multiply`, `equal_to` and
  `not_equal_to`, the array builder `iota`, and an eager `transform` wrapper that
  returns its output array.

How the model represents them:

- Cursors are indices (`nat`).
- The secondary pack is a sequence of sequences `ys` with a sequence of start
  offsets `fs`.
- A predicate or operation is a function of the primary element and the
  sequence of secondary elements.
- The engine trusts the caller that every secondary sequence has at least
  `l - f` elements from its start, and that the output has room for `l - f`
  writes. Both are preconditions (`LockStep.LongEnough` and the `Transform`
  bound), never checks.
- `find` is a `while` loop (`LockStep.Find`) proved equal to the recursive
  specification `LockStep.Search`. `transform` is a loop over an `array`
  (`LockStep.Transform`) proved against `LockStep.Mapped`.

Files:

- `lockstep.dfy` (module `LockStep`): `find`, `found`, `any_of`, `transform`.
- `folds.dfy` (module `Folds`): the fold lambdas.
- `algorithm_test.dfy` (module `AlgorithmTest`): `iota`, the eager `transform`
  wrapper, and the test cases over the input `0..9`.

The header `src/aal/algorithm.hpp` defines only `find` and `found`. The tests
also call `aal::var::any_of` and `aal::var::transform`, whose definitions are
not in that header. `AnyOf` is modelled as `found`. `Transform` is modelled
by the behaviour the tests pin down.

The tests pass two extra views (`b, e, b, b`) to `multiply` and expect `i`
cubed (27 at index 3), see `AlgorithmTest.TransformMultiplyTwoViewsValues`.
`AlgorithmTest.TransformMultiplyViews` covers any number of views.

## Model

| member | source | states |
|---|---|---|
| LockStep.Step | src/aal/algorithm.hpp:12 | The advance `(++fs, ...)` moves every secondary cursor exactly one position forward and keeps their number. |
| LockStep.Search | src/aal/algorithm.hpp:7-15 | The walk stops at a position `p` with `f <= p <= l`. Every secondary cursor is its start plus exactly `p - f`. If `p < l`, the predicate holds of the elements at the returned cursors. It is false at every earlier position. |
| LockStep.Find | src/aal/algorithm.hpp:7-15 | The `while (f != l)` loop with its early `break` and lock-step `++f, (++fs, ...)` returns exactly the cursors of `Search`. The loop runs at most `l - f` times. |
| LockStep.Found | src/aal/algorithm.hpp:17-22 | `found` is true iff some position of `[f, l)` satisfies the predicate together with the secondary elements at the same offset. It is false on an empty range. |
| LockStep.AnyOf | tests/src/algorithm_test.cpp:148-151 | `any_of`, modelled as `found`: true iff some position of the range satisfies the predicate. |
| LockStep.SearchEvaluatesOnlyUpToStop | src/aal/algorithm.hpp:10-11 | Any two predicates that agree at the positions up to where `find` stops give the same cursors. So `find` evaluates the predicate nowhere else, and on an empty range it evaluates it nowhere. |
| LockStep.SearchReadsOnlyWindows | src/aal/algorithm.hpp:10-12 | Inputs that agree on `xs[f..l]` and on the first `l - f` elements of each secondary sequence give the same cursors. `find` never reads the primary at or past `l`, nor a secondary `l - f` or more past its start. |
| LockStep.SearchWithoutSecondaries | src/aal/algorithm.hpp:9-14 | With an empty secondary pack, `find` is the plain single-sequence search for the first index where the predicate holds. |
| LockStep.Mapped | tests/src/algorithm_test.cpp:181-224 | The values `transform` writes: one per position of the range, `op` of the primary element at `f + i` and the secondary elements `i` past their starts. |
| LockStep.Transform | tests/src/algorithm_test.cpp:153-158 | Writes `Mapped` to the output cells `out .. out + (l - f)` in order. It returns the output cursor `out + (l - f)` and leaves every other cell of the output array as it was. |
| Folds.Plus | tests/src/algorithm_test.cpp:12-16 | `plus(a...)`, the right fold `(a + ...)`, is the sum of all its arguments: it equals the left-fold `Sum` of the pack. |
| Folds.Multiply | tests/src/algorithm_test.cpp:6-10 | `multiply(a...)`, the right fold `(a * ...)`, is the product of all its arguments: it equals the left-fold `Product` of the pack. |
| Folds.PlusAppend | tests/src/algorithm_test.cpp:12-16 | Folding `plus` over two packs in turn adds the two folds. |
| Folds.MultiplyAppend | tests/src/algorithm_test.cpp:6-10 | Folding `multiply` over two packs in turn multiplies the two folds. |
| Folds.PlusRepeat | tests/src/algorithm_test.cpp:16 | `plus` over `n` copies of `x` is `n * x`. |
| Folds.MultiplyRepeat | tests/src/algorithm_test.cpp:10 | `multiply` over `n` copies of `x` is `x` to the power `n`. |
| Folds.FoldTestValues | tests/src/algorithm_test.cpp:110-122 | `plus(1) == 1`, `plus(1, -1) == 0`, `plus(1, 1, 1) == 3`, `plus(100, 158, 699) == 957`. `multiply(1) == 1`, `multiply(1, -1) == -1`, `multiply(1, 1, 1) == 1`, `multiply(100, 158, 699) == 11044200`. |
| Folds.EqualTo | tests/src/algorithm_test.cpp:23-26 | `equal_to(first, rest...)` as written: true iff `first` equals at least one value of the non-empty `rest`. |
| Folds.AllEqualTo | tests/src/algorithm_test.cpp:18-22 | `equal_to` as its comment describes it: true iff every value of the non-empty `rest` equals `first`. |
| Folds.NotEqualTo | tests/src/algorithm_test.cpp:28-36 | `not_equal_to(first, rest...)`: true iff `first` differs from at least one value of the non-empty `rest`. |
| Folds.AllEqualToIsNotNotEqualTo | tests/src/algorithm_test.cpp:18-36 | The documented `equal_to` is exactly the negation of `not_equal_to`, on every pack. |
| Folds.EqualToOnPairs | tests/src/algorithm_test.cpp:23-26 | With one value after `first`, the written and the documented `equal_to` agree, and both are `first == other`. |
| Folds.EqualToAcceptsUnequalPack | tests/src/algorithm_test.cpp:23-26 | `equal_to(3, 3, 4)` as written is true although the values are not all equal. |
| Folds.EqualityTestValues | tests/src/algorithm_test.cpp:124-140 | The integer packs of the `equal_to` and `not_equal_to` tests give the expected answers. For example, `not_equal_to(3, 3, 6, 5, 3)` is true and `not_equal_to(3, 3, 3)` is false. |
| AlgorithmTest.Iota | tests/src/algorithm_test.cpp:88-98 | Under the guard `count < max - start`, `iota` returns a fresh array of `count` cells. Cell `k` is `start + k`, and every cell is below `INT_MAX`. |
| AlgorithmTest.InputAt | tests/src/algorithm_test.cpp:106 | The test input `iota<0, 10>()` holds `i` at index `i`. |
| AlgorithmTest.TransformArray | tests/src/algorithm_test.cpp:72-80 | The eager wrapper returns its output array. The first `l - f` cells are the values `transform` writes at run time, and the rest are as passed in. |
| AlgorithmTest.ColumnOfViews | tests/src/algorithm_test.cpp:183 | When every secondary is a view of the primary from its start, each lock-step position shows the primary element in every secondary. |
| AlgorithmTest.TransformPlusViews | tests/src/algorithm_test.cpp:181-209 | `transform(plus, o, b, e, b, ..., b)` with `k` extra views writes `(k + 1) * xs[i]` to cell `i`, for every input `xs`. |
| AlgorithmTest.TransformMultiplyViews | tests/src/algorithm_test.cpp:211-224 | `transform(multiply, o, b, e, b, ..., b)` with `k` extra views writes `xs[i]` to the power `k + 1` to cell `i`. |
| AlgorithmTest.TransformPlusThree | tests/src/algorithm_test.cpp:167-171 | `transform` of `plus(3, a...)` with no extra views writes `xs[i] + 3` to cell `i`, for every input `xs`. |
| AlgorithmTest.TransformPlusThreeValues | tests/src/algorithm_test.cpp:167-179 | Over `0..9`, `plus(3, a...)` writes `i + 3` to every cell `i`. |
| AlgorithmTest.TransformPlusOneViewValues | tests/src/algorithm_test.cpp:181-194 | Over `0..9`, `plus` with one extra view writes `2i` to every cell `i`. |
| AlgorithmTest.TransformPlusTwoViewsValues | tests/src/algorithm_test.cpp:196-209 | Over `0..9`, `plus` with two extra views writes `3i` to every cell `i`. |
| AlgorithmTest.TransformMultiplyTwoViewsValues | tests/src/algorithm_test.cpp:211-224 | Over `0..9`, `multiply` with two extra views writes `i` cubed to every cell `i`. |
| AlgorithmTest.TransformIsThreeValues | tests/src/algorithm_test.cpp:153-165 | Over `0..9`, `equal_to(3, a...)` writes 1 to cell 3 and 0 to every other cell. |
| AlgorithmTest.FindTestValues | tests/src/algorithm_test.cpp:142-151 | Searching `0..9` for 3 stops at index 3, not at the end, and the element there is 3. `any_of` is true. |
| AlgorithmTest.FindThree | tests/src/algorithm_test.cpp:142-146 | `find` run as a method over the array that `Iota(0, 10)` builds; the test at lines 142-146 evaluates it at compile time. It returns a cursor that is not the end and dereferences to 3. |
| AlgorithmTest.TransformIsThreeCells | tests/src/algorithm_test.cpp:153-158 | After `equal_to(3, a...)` is written over `0..9` into a 40-cell zero array from cell 0, cells 0 to 9 hold 1 exactly at cell 3. Cells 10 to 39 are still 0. |
| AlgorithmTest.TransformIsThree | tests/src/algorithm_test.cpp:153-158 | `transform` into a 40-cell zero array writes 10 cells, with 1 at cell 3. It returns output cursor 10, and the cell there is still 0. |

## Left out

- The `boost.ut` harness (`suite`, `expect`, `_test`, `constant<>`) is test plumbing, not behaviour.
- The compile-time versus run-time distinction (`constexpr`, `consteval`) is not modelled. Dafny functions have one semantics; `TransformArray` and `Transform` are proved against the same `Mapped`.
- Template and parameter-pack mechanics and the `static_assert` arity checks are left out. A pack is a sequence, and "at least one value after `first`" is a `requires` on its length.
- `make_signed` and `make_unsigned` are type casts. The integer packs of the tests are stated after the cast, as plain integers; `'5'` reads as 53.
- `equal_to(0.0, 0)` compares a floating-point value and is not modelled.
- Plus, Multiply: machine-integer overflow is not modelled, because the folds work on mathematical integers and every value the tests fold fits in 32 bits.
- All secondary sequences share one element type. C++ allows each cursor its own type, which a Dafny sequence of sequences cannot express.
- Predicates and operations are pure Dafny functions. A stateful callable cannot be passed to `Find` or `Transform`. This is why `Iota` writes out the loop of `transform` with its counter next to it, instead of passing the counting lambda.
- Iota: modelled for an `int` start, the only instantiation the tests use; the source accepts any `auto start` and bounds it by the maximum of its own type.
- Iota: `iota` passes the output array as its own primary input. The model does not capture this aliasing, because the counting lambda ignores its input.
- Find: the number of predicate evaluations is not returned. That the predicate is evaluated nowhere past the stopping position is stated about `Search` in `SearchEvaluatesOnlyUpToStop`.
- Primary and secondary inputs are read-only sequences, not arrays. No traversal writes to them, so the model does not capture a write through the output cursor into an input.

## Findings

| source | as written | input that shows it | evidently intended | confidence | as-written member | corrected member |
|---|---|---|---|---|---|---|
| tests/src/algorithm_test.cpp:18-26 | `equal_to` folds `first == r` with `\|\|`, so it is true when `first` equals any one value of the pack | `equal_to(3, 3, 4)` is true | true only when all values are equal, as its comment says: the fold with `&&`, which is the negation of `not_equal_to` | medium, not executed: every pack in the tests is all-equal or has a single value after `first`, so the tests cannot tell the two apart | Folds.EqualTo, Folds.EqualToAcceptsUnequalPack | Folds.AllEqualTo, Folds.AllEqualToIsNotNotEqualTo |

The test lambdas `equal_to(3, a...)` are modelled with `EqualTo`, as written. Each of them passes exactly one value after `first`, and for such calls `Folds.EqualToOnPairs` shows the written and the documented readings give the same answer, so every test case holds under either.
