/**
 The variadic helper lambdas of the test suite, each a C++ fold expression
 over a parameter pack. A pack is a sequence; the
 `static_assert(sizeof...(rest) != 0)` arity checks of the C++ lambdas become
 `requires` clauses on its length. Integers are mathematical: every value the
 tests fold fits in a 32-bit `int`.
 */
module Folds {

  /** `n` copies of `x`. */
  function Repeat<X>(x: X, n: nat): (r: seq<X>)
    ensures |r| == n && forall i :: 0 <= i < n ==> r[i] == x
  {
    seq(n, _ => x)
  }

  /** `x` multiplied by itself `n` times. */
  function Pow(x: int, n: nat): (r: int)
  {
    if n == 0 then 1 else x * Pow(x, n - 1)
  }

  /** The sum of `a`, as the left fold `((0 + a0) + a1) + ... + an`. */
  function Sum(a: seq<int>): (s: int)
  {
    if |a| == 0 then 0 else Sum(a[..|a| - 1]) + a[|a| - 1]
  }

  /** The product of `a`, as the left fold `((1 * a0) * a1) * ... * an`. */
  function Product(a: seq<int>): (p: int)
  {
    if |a| == 0 then 1 else Product(a[..|a| - 1]) * a[|a| - 1]
  }

  /** The left-fold sum can also be taken from the front. */
  lemma {:induction false} SumFront(a: seq<int>)
    requires |a| > 0
    ensures Sum(a) == a[0] + Sum(a[1..])
  {
    var n := |a|;
    if n == 1 {
      assert a[..0] == [] && a[1..] == [];
    } else {
      var init := a[..n - 1];
      SumFront(init);
      assert init[1..] == a[1..][..n - 2];
      assert a[1..][n - 2] == a[n - 1];
    }
  }

  /** The left-fold product can also be taken from the front. */
  lemma {:induction false} ProductFront(a: seq<int>)
    requires |a| > 0
    ensures Product(a) == a[0] * Product(a[1..])
  {
    var n := |a|;
    if n == 1 {
      assert a[..0] == [] && a[1..] == [];
    } else {
      var init := a[..n - 1];
      ProductFront(init);
      assert init[1..] == a[1..][..n - 2];
      assert a[1..][n - 2] == a[n - 1];
      calc {
        Product(a);
        Product(init) * a[n - 1];
        (a[0] * Product(init[1..])) * a[n - 1];
        a[0] * (Product(init[1..]) * a[n - 1]);
        a[0] * Product(a[1..]);
      }
    }
  }

  /** `plus(a...)`: the right fold `a0 + (a1 + (... + an))`; one argument is returned as is. */
  function Plus(a: seq<int>): (r: int)
    requires |a| > 0
    ensures r == Sum(a)
  {
    SumFront(a);
    if |a| == 1 then a[0] else a[0] + Plus(a[1..])
  }

  /** `multiply(a...)`: the right fold `a0 * (a1 * (... * an))`; one argument is returned as is. */
  function Multiply(a: seq<int>): (r: int)
    requires |a| > 0
    ensures r == Product(a)
  {
    ProductFront(a);
    if |a| == 1 then a[0] else a[0] * Multiply(a[1..])
  }

  /** Folding `plus` over two packs one after the other adds their two folds. */
  lemma {:induction false} PlusAppend(a: seq<int>, b: seq<int>)
    requires |a| > 0 && |b| > 0
    ensures Plus(a + b) == Plus(a) + Plus(b)
  {
    if |a| > 1 {
      assert (a + b)[1..] == a[1..] + b;
      PlusAppend(a[1..], b);
    } else {
      assert (a + b)[1..] == b;
    }
  }

  /** Folding `multiply` over two packs one after the other multiplies their two folds. */
  lemma {:induction false} MultiplyAppend(a: seq<int>, b: seq<int>)
    requires |a| > 0 && |b| > 0
    ensures Multiply(a + b) == Multiply(a) * Multiply(b)
  {
    if |a| > 1 {
      assert (a + b)[1..] == a[1..] + b;
      MultiplyAppend(a[1..], b);
    } else {
      assert (a + b)[1..] == b;
    }
  }

  /** `plus` over `n` copies of `x` is `n * x`. */
  lemma {:induction false} PlusRepeat(x: int, n: nat)
    requires n > 0
    ensures Plus(Repeat(x, n)) == n * x
  {
    if n > 1 {
      assert Repeat(x, n)[1..] == Repeat(x, n - 1);
      PlusRepeat(x, n - 1);
    }
  }

  /** `multiply` over `n` copies of `x` is `x` to the power `n`. */
  lemma {:induction false} MultiplyRepeat(x: int, n: nat)
    requires n > 0
    ensures Multiply(Repeat(x, n)) == Pow(x, n)
  {
    if n > 1 {
      assert Repeat(x, n)[1..] == Repeat(x, n - 1);
      MultiplyRepeat(x, n - 1);
    }
  }

  /** The values the test suite expects of `plus` and `multiply`. */
  lemma FoldTestValues()
    ensures Plus([1]) == 1 && Plus([1, -1]) == 0 && Plus([1, 1, 1]) == 3 && Plus([100, 158, 699]) == 957
    ensures Multiply([1]) == 1 && Multiply([1, -1]) == -1 && Multiply([1, 1, 1]) == 1
    ensures Multiply([100, 158, 699]) == 11044200
  {
  }

  /**
   `equal_to(first, rest...)` as written: the fold `(first == r0) || ...`, true
   when `first` equals AT LEAST ONE of `rest`.
   */
  function EqualTo(first: int, rest: seq<int>): (b: bool)
    requires |rest| > 0
    ensures b <==> exists j :: 0 <= j < |rest| && rest[j] == first
  {
    if |rest| == 1 then first == rest[0] else first == rest[0] || EqualTo(first, rest[1..])
  }

  /**
   `equal_to` as its documentation describes it, "are all the parameter pack
   values equal?": the fold with `&&` in place of `||`.
   */
  function AllEqualTo(first: int, rest: seq<int>): (b: bool)
    requires |rest| > 0
    ensures b <==> forall j :: 0 <= j < |rest| ==> rest[j] == first
  {
    if |rest| == 1 then first == rest[0] else first == rest[0] && AllEqualTo(first, rest[1..])
  }

  /** `not_equal_to(first, rest...)`: the fold `(first != r0) || ...`, true when `first` differs from some of `rest`. */
  function NotEqualTo(first: int, rest: seq<int>): (b: bool)
    requires |rest| > 0
    ensures b <==> exists j :: 0 <= j < |rest| && rest[j] != first
  {
    if |rest| == 1 then first != rest[0] else first != rest[0] || NotEqualTo(first, rest[1..])
  }

  /** The documented `equal_to` is exactly the negation of `not_equal_to`. */
  lemma AllEqualToIsNotNotEqualTo(first: int, rest: seq<int>)
    requires |rest| > 0
    ensures AllEqualTo(first, rest) == !NotEqualTo(first, rest)
  {
  }

  /** With a single value after `first`, the written and the documented `equal_to` agree. */
  lemma EqualToOnPairs(first: int, other: int)
    ensures EqualTo(first, [other]) == AllEqualTo(first, [other]) == (first == other)
  {
  }

  /** The written `equal_to` accepts a pack whose values are not all equal. */
  lemma EqualToAcceptsUnequalPack()
    ensures EqualTo(3, [3, 4]) && !AllEqualTo(3, [3, 4])
  {
  }

  /** The packs of the test suite, read as integers, with the expected answers. */
  lemma EqualityTestValues()
    ensures EqualTo(0, [0]) && EqualTo(3, [3, 3, 3]) && EqualTo(3, [3, 3])
    ensures AllEqualTo(0, [0]) && AllEqualTo(3, [3, 3, 3]) && AllEqualTo(3, [3, 3])
    ensures NotEqualTo(3, [3, 6, 5, 3]) && NotEqualTo(-3, [3, 6, 53, 3])
    ensures !NotEqualTo(3, [3, 3, 3, 3]) && !NotEqualTo(3, [3, 3])
  {
  }
}
