/**
 The helpers and scenarios of the test suite that drive the lock-step
 algorithms: `iota`, the eager `transform` wrapper that returns its output
 array, and the `find`, `any_of` and `transform` cases over the input `0..9`.
 An operation receives the primary element and the pack of secondary
 elements; the test lambdas that forward `a...` to a fold see `[x] + rest`.
 */
module AlgorithmTest {
  import opened LockStep
  import opened Folds

  /** `std::numeric_limits<int>::max()`, the largest value of the type of `start` in the tests. */
  const IntMax: int := 0x7FFF_FFFF

  /** The values `start, start + 1, ..., start + count - 1`. */
  function IotaSeq(start: int, count: nat): (r: seq<int>)
    ensures |r| == count
  {
    seq(count, k => start + k)
  }

  /**
   `iota<start, count>()`: a value-initialised array of `count` cells filled by
   `transform` with a lambda that returns a counter and then increments it.
   The lambda carries state, which a Dafny function value cannot, so the loop of
   `transform` is written out here with the counter `i` beside it. The guard
   `count < max - start` keeps every value, and the final counter, below `IntMax`;
   for a negative `start` the guard itself overflows and is not a constant, so
   `iota` cannot be instantiated.
   */
  method Iota(start: int, count: nat) returns (a: array<int>)
    requires 0 <= start <= IntMax
    requires count < IntMax - start
    ensures fresh(a)
    ensures a[..] == IotaSeq(start, count)
    ensures forall k :: 0 <= k < a.Length ==> a[k] < IntMax
  {
    a := new int[count](_ => 0);
    var i := start;
    var k := 0;
    while k < count
      invariant 0 <= k <= count && i == start + k
      invariant forall j :: 0 <= j < k ==> a[j] == start + j
    {
      a[k] := i;
      i := i + 1;
      k := k + 1;
    }
    assert a[..] == IotaSeq(start, count);
  }

  /**
   The eager `transform(op, o, f, l, fs...)` wrapper: runs `transform` from the
   beginning of a fresh copy of the output array `init` and returns that array.
   */
  method TransformArray<T, U, V>(op: (T, seq<U>) -> V, init: seq<V>, xs: seq<T>, f: nat, l: nat, ys: seq<seq<U>>, fs: seq<nat>)
    returns (result: seq<V>)
    requires f <= l <= |xs|
    requires LongEnough(ys, fs, l - f)
    requires l - f <= |init|
    ensures |result| == |init|
    ensures result[..l - f] == Mapped(op, xs, f, l, ys, fs)
    ensures result[l - f..] == init[l - f..]
  {
    var o := new V[|init|](k requires 0 <= k < |init| => init[k]);
    assert o[..] == init;
    var end := Transform(op, o, 0, xs, f, l, ys, fs);
    result := o[..];
  }

  /** `plus` applied to all the current elements. */
  function PlusOp(x: int, rest: seq<int>): (r: int) { Plus([x] + rest) }

  /** `multiply` applied to all the current elements. */
  function MultiplyOp(x: int, rest: seq<int>): (r: int) { Multiply([x] + rest) }

  /** `plus(3, a...)`. */
  function PlusThreeOp(x: int, rest: seq<int>): (r: int) { Plus([3, x] + rest) }

  /** `equal_to(3, a...)`, with `equal_to` as written. */
  function IsThree(x: int, rest: seq<int>): (b: bool) { EqualTo(3, [x] + rest) }

  /** `IsThree` written to an `int` cell, where the `bool` is stored as `1` or `0`. */
  function IsThreeAsInt(x: int, rest: seq<int>): (r: int) { if IsThree(x, rest) then 1 else 0 }

  /** Every secondary sequence is `xs` itself, viewed from its beginning. */
  predicate ViewsOf(xs: seq<int>, ys: seq<seq<int>>, fs: seq<nat>)
  {
    |fs| == |ys| && forall j :: 0 <= j < |ys| ==> ys[j] == xs && fs[j] == 0
  }

  /** At every lock-step position, extra views of `xs` all show the primary element. */
  lemma ColumnOfViews(xs: seq<int>, ys: seq<seq<int>>, fs: seq<nat>, i: nat)
    requires i < |xs| && ViewsOf(xs, ys, fs)
    ensures LongEnough(ys, fs, |xs|)
    ensures Column(ys, Shifted(fs, i)) == Repeat(xs[i], |ys|)
  {
  }

  /** `transform(plus, o, b, e, b, ..., b)` with `k` extra views writes `(k + 1) * xs[i]` to cell `i`. */
  lemma TransformPlusViews(xs: seq<int>, ys: seq<seq<int>>, fs: seq<nat>, i: nat)
    requires i < |xs| && ViewsOf(xs, ys, fs)
    ensures LongEnough(ys, fs, |xs|)
    ensures Mapped(PlusOp, xs, 0, |xs|, ys, fs)[i] == (|ys| + 1) * xs[i]
  {
    ColumnOfViews(xs, ys, fs, i);
    assert [xs[i]] + Repeat(xs[i], |ys|) == Repeat(xs[i], |ys| + 1);
    PlusRepeat(xs[i], |ys| + 1);
  }

  /** `transform(multiply, o, b, e, b, ..., b)` with `k` extra views writes `xs[i]` to the power `k + 1`. */
  lemma TransformMultiplyViews(xs: seq<int>, ys: seq<seq<int>>, fs: seq<nat>, i: nat)
    requires i < |xs| && ViewsOf(xs, ys, fs)
    ensures LongEnough(ys, fs, |xs|)
    ensures Mapped(MultiplyOp, xs, 0, |xs|, ys, fs)[i] == Pow(xs[i], |ys| + 1)
  {
    ColumnOfViews(xs, ys, fs, i);
    assert [xs[i]] + Repeat(xs[i], |ys|) == Repeat(xs[i], |ys| + 1);
    MultiplyRepeat(xs[i], |ys| + 1);
  }

  /** The input of the test suite, `iota<0, 10>()`. */
  const Input: seq<int> := IotaSeq(0, 10)

  /** Cell `i` of the input holds `i`. */
  lemma InputAt(i: nat)
    requires i < 10
    ensures |Input| == 10 && Input[i] == i
  {
  }

  /** `transform` of `plus(3, a...)` with no extra views writes `xs[i] + 3` to cell `i`. */
  lemma TransformPlusThree(xs: seq<int>, i: nat)
    requires i < |xs|
    ensures Mapped(PlusThreeOp, xs, 0, |xs|, [], [])[i] == xs[i] + 3
  {
    assert Column<int>([], Shifted([], i)) == [];
    assert [3, xs[i]] + [] == [3] + [xs[i]];
    PlusAppend([3], [xs[i]]);
  }

  /** The "transform plus 3" cases: cell `i` holds `i + 3` for `plus(3, a...)`. */
  lemma TransformPlusThreeValues(i: nat)
    requires i < 10
    ensures Mapped(PlusThreeOp, Input, 0, 10, [], [])[i] == i + 3
  {
    InputAt(i);
    TransformPlusThree(Input, i);
  }

  /** The "transform plus 2 times" cases: `plus` with one extra view writes `2i`. */
  lemma TransformPlusOneViewValues(i: nat)
    requires i < 10
    ensures Mapped(PlusOp, Input, 0, 10, [Input], [0])[i] == 2 * i
  {
    InputAt(i);
    TransformPlusViews(Input, [Input], [0], i);
  }

  /** The "transform plus 3 times" cases: `plus` with two extra views writes `3i`. */
  lemma TransformPlusTwoViewsValues(i: nat)
    requires i < 10
    ensures Mapped(PlusOp, Input, 0, 10, [Input, Input], [0, 0])[i] == 3 * i
  {
    InputAt(i);
    TransformPlusViews(Input, [Input, Input], [0, 0], i);
  }

  /** `x` to the power 3 is `x * x * x`. */
  lemma Cube(x: int)
    ensures Pow(x, 3) == x * x * x
  {
    calc {
      Pow(x, 3);
      x * Pow(x, 2);
      x * (x * Pow(x, 1));
      x * (x * x);
    }
  }

  /** The "transform multiply 3 times" cases: `multiply` with two extra views writes `i` cubed. */
  lemma TransformMultiplyTwoViewsValues(i: nat)
    requires i < 10
    ensures Mapped(MultiplyOp, Input, 0, 10, [Input, Input], [0, 0])[i] == i * i * i
  {
    InputAt(i);
    TransformMultiplyViews(Input, [Input, Input], [0, 0], i);
    Cube(i);
  }

  /** The "transform == 3" cases: `equal_to(3, a...)` writes `1` exactly at cell 3. */
  lemma TransformIsThreeValues(i: nat)
    requires i < 10
    ensures Mapped(IsThreeAsInt, Input, 0, 10, [], [])[i] == if i == 3 then 1 else 0
  {
  }

  /** The `find` and `any_of` cases: searching `0..9` for 3 stops at index 3, which holds 3. */
  lemma FindTestValues()
    ensures Search(IsThree, Input, 0, 10, [], []) == Cursors(3, [])
    ensures Input[3] == 3
    ensures AnyOf(IsThree, Input, 0, 10, [], [])
  {
  }

  /**
   `find` run as a method over the array that `Iota(0, 10)` builds (the test
   evaluates it at compile time): the returned cursor is not the end and
   dereferences to 3.
   */
  method FindThree() returns (r: Cursors, value: int)
    ensures r.primary != 10 && r.primary == 3 && value == 3
  {
    var input := Iota(0, 10);
    r := Find(IsThree, input[..], 0, 10, [], []);
    FindTestValues();
    value := input[r.primary];
  }

  /** The cells of a 40-cell zero array after `transform` writes `equal_to(3, a...)` over `0..9` from cell 0. */
  lemma TransformIsThreeCells(before: seq<int>, input: seq<int>, output: seq<int>)
    requires |before| == 40 && forall j :: 0 <= j < 40 ==> before[j] == 0
    requires input == Input
    requires output == before[..0] + Mapped(IsThreeAsInt, input, 0, 10, [], []) + before[10..]
    ensures |output| == 40
    ensures forall j :: 0 <= j < 10 ==> output[j] == if j == 3 then 1 else 0
    ensures forall j :: 10 <= j < 40 ==> output[j] == 0
  {
    forall j | 0 <= j < 10
      ensures output[j] == if j == 3 then 1 else 0
    {
      TransformIsThreeValues(j);
    }
  }

  /**
   The run-time "transform == 3" case: the output array has `sizeof(input)`,
   that is 40, zero cells; 10 are written, cell 3 holds 1 and the returned
   output cursor is 10, past the last write, at a cell still 0.
   */
  method TransformIsThree() returns (output: seq<int>, result: nat)
    ensures |output| == 40 && result == 10
    ensures output[3] == 1 && output[result] == 0
    ensures forall j :: 0 <= j < 10 ==> output[j] == if j == 3 then 1 else 0
    ensures forall j :: 10 <= j < 40 ==> output[j] == 0
  {
    var input := Iota(0, 10);
    var xs := input[..];
    assert xs == Input;
    var o := new int[40](_ => 0);
    ghost var before := o[..];
    assert forall j :: 0 <= j < 40 ==> before[j] == 0;
    result := Transform(IsThreeAsInt, o, 0, xs, 0, 10, [], []);
    output := o[..];
    TransformIsThreeCells(before, xs, output);
  }
}
