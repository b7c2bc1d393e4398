/**
 A model of the lock-step traversal algorithms of namespace `aal::var`.

 One primary range `[f, l)` of a sequence `xs` decides where a walk stops;
 zero or more secondary cursors, one per sequence of `ys`, start at the
 offsets `fs` and advance one step each time the primary cursor does. The
 caller-supplied predicate or operation receives the current primary element
 and the current element of every secondary sequence, in declaration order.

 Cursors are indices. The engine performs no bounds check on secondary (or
 output) cursors: the caller guarantees that every secondary sequence has at
 least `l - f` elements from its start, which is the precondition `LongEnough`.
 */
module LockStep {

  /** The tuple of cursors `find` returns: the primary one and every secondary one. */
  datatype Cursors = Cursors(primary: nat, secondary: seq<nat>)

  /** Every secondary cursor has at least `n` elements left in its sequence. */
  predicate LongEnough<U>(ys: seq<seq<U>>, fs: seq<nat>, n: nat)
  {
    |fs| == |ys| && forall k :: 0 <= k < |ys| ==> fs[k] + n <= |ys[k]|
  }

  /** The cursors `cs`, each moved forward `n` positions. */
  function Shifted(cs: seq<nat>, n: nat): (r: seq<nat>)
    ensures |r| == |cs|
  {
    seq(|cs|, k requires 0 <= k < |cs| => cs[k] + n)
  }

  /** The advance primitive `(++fs, ...)`: the one-step case of `Shifted`. */
  function Step(cs: seq<nat>): (r: seq<nat>)
    ensures |r| == |cs| && forall k :: 0 <= k < |cs| ==> r[k] == cs[k] + 1
  {
    Shifted(cs, 1)
  }

  /** The elements `*fs...` that the secondary cursors `cs` dereference to. */
  function Column<U>(ys: seq<seq<U>>, cs: seq<nat>): (r: seq<U>)
    requires |cs| == |ys| && forall k :: 0 <= k < |ys| ==> cs[k] < |ys[k]|
    ensures |r| == |ys|
  {
    seq(|ys|, k requires 0 <= k < |ys| => ys[k][cs[k]])
  }

  /** Moving each cursor `n` positions and then one more is moving it `n + 1`. */
  lemma StepShifted(cs: seq<nat>, n: nat)
    ensures Step(Shifted(cs, n)) == Shifted(cs, n + 1)
  {
  }

  /**
   The elements the predicate sees `i` steps after the start: the primary
   element at `f + i` and the secondary elements `i` past their starts.
   */
  function Matches<T, U>(pred: (T, seq<U>) -> bool, xs: seq<T>, f: nat, ys: seq<seq<U>>, fs: seq<nat>, i: nat): (b: bool)
    requires f + i < |xs|
    requires LongEnough(ys, fs, i + 1)
  {
    pred(xs[f + i], Column(ys, Shifted(fs, i)))
  }

  /**
   The specification of `find`: the walk that stops at `l` or at the first
   position where `pred` holds, advancing every cursor in lock-step.
   */
  function Search<T, U>(pred: (T, seq<U>) -> bool, xs: seq<T>, f: nat, l: nat, ys: seq<seq<U>>, fs: seq<nat>): (r: Cursors)
    requires f <= l <= |xs|
    requires LongEnough(ys, fs, l - f)
    ensures f <= r.primary <= l
    ensures r.secondary == Shifted(fs, r.primary - f)
    ensures r.primary < l ==> Matches(pred, xs, f, ys, fs, r.primary - f)
    ensures forall i :: 0 <= i < r.primary - f ==> !Matches(pred, xs, f, ys, fs, i)
    decreases l - f
  {
    if f == l then Cursors(f, fs)
    else if pred(xs[f], Column(ys, fs)) then
      assert fs == Shifted(fs, 0);
      Cursors(f, fs)
    else
      var r := Search(pred, xs, f + 1, l, ys, Step(fs));
      SearchShiftedStart(pred, xs, f, f + 1, l, ys, fs, Step(fs), r);
      r
  }

  /** Relates a search that starts one step later, at `g`, to the search from `f`. */
  lemma SearchShiftedStart<T, U>(pred: (T, seq<U>) -> bool, xs: seq<T>, f: nat, g: nat, l: nat,
                                 ys: seq<seq<U>>, fs: seq<nat>, gs: seq<nat>, r: Cursors)
    requires f < l <= |xs| && g == f + 1
    requires LongEnough(ys, fs, l - f) && gs == Step(fs)
    requires !pred(xs[f], Column(ys, fs))
    requires g <= r.primary <= l
    requires r.secondary == Shifted(gs, r.primary - g)
    requires r.primary < l ==> Matches(pred, xs, g, ys, gs, r.primary - g)
    requires forall i :: 0 <= i < r.primary - g ==> !Matches(pred, xs, g, ys, gs, i)
    ensures r.secondary == Shifted(fs, r.primary - f)
    ensures r.primary < l ==> Matches(pred, xs, f, ys, fs, r.primary - f)
    ensures forall i :: 0 <= i < r.primary - f ==> !Matches(pred, xs, f, ys, fs, i)
  {
    assert fs == Shifted(fs, 0);
    forall i | 0 <= i < r.primary - f
      ensures !Matches(pred, xs, f, ys, fs, i)
    {
      if i > 0 {
        assert Shifted(gs, i - 1) == Shifted(fs, i);
        assert !Matches(pred, xs, g, ys, gs, i - 1);
      }
    }
  }

  /**
   `find(pred, f, l, fs...)`: advances the primary cursor and every secondary
   cursor together until the primary one reaches `l` or `pred` holds of the
   current elements, and returns all cursors.
   */
  method Find<T, U>(pred: (T, seq<U>) -> bool, xs: seq<T>, f: nat, l: nat, ys: seq<seq<U>>, fs: seq<nat>) returns (r: Cursors)
    requires f <= l <= |xs|
    requires LongEnough(ys, fs, l - f)
    ensures r == Search(pred, xs, f, l, ys, fs)
  {
    var p, ps := f, fs;
    while p != l
      invariant f <= p <= l
      invariant ps == Shifted(fs, p - f)
      invariant LongEnough(ys, ps, l - p)
      invariant Search(pred, xs, p, l, ys, ps) == Search(pred, xs, f, l, ys, fs)
      decreases l - p
    {
      if pred(xs[p], Column(ys, ps)) {
        break;
      }
      StepShifted(fs, p - f);
      p, ps := p + 1, Step(ps);
    }
    r := Cursors(p, ps);
  }

  /**
   `found(pred, f, l, fs...)`: whether `find` stopped before `l`, which is
   whether `pred` holds at some position of the range.
   */
  function Found<T, U>(pred: (T, seq<U>) -> bool, xs: seq<T>, f: nat, l: nat, ys: seq<seq<U>>, fs: seq<nat>): (b: bool)
    requires f <= l <= |xs|
    requires LongEnough(ys, fs, l - f)
    ensures b <==> exists i :: 0 <= i < l - f && Matches(pred, xs, f, ys, fs, i)
  {
    Search(pred, xs, f, l, ys, fs).primary != l
  }

  /** `any_of`, which the tests call: the same answer as `found`. */
  function AnyOf<T, U>(pred: (T, seq<U>) -> bool, xs: seq<T>, f: nat, l: nat, ys: seq<seq<U>>, fs: seq<nat>): (b: bool)
    requires f <= l <= |xs|
    requires LongEnough(ys, fs, l - f)
    ensures b <==> exists i :: 0 <= i < l - f && Matches(pred, xs, f, ys, fs, i)
  {
    Found(pred, xs, f, l, ys, fs)
  }

  /**
   `find` evaluates `pred` only at the positions up to where it stops: two
   predicates that agree there give the same cursors. On an empty range
   nothing is required, so `pred` is never evaluated.
   */
  lemma SearchEvaluatesOnlyUpToStop<T, U>(pred: (T, seq<U>) -> bool, pred': (T, seq<U>) -> bool,
                                          xs: seq<T>, f: nat, l: nat, ys: seq<seq<U>>, fs: seq<nat>)
    requires f <= l <= |xs|
    requires LongEnough(ys, fs, l - f)
    requires forall i :: 0 <= i <= Search(pred, xs, f, l, ys, fs).primary - f && i < l - f ==>
                           Matches(pred, xs, f, ys, fs, i) == Matches(pred', xs, f, ys, fs, i)
    ensures Search(pred', xs, f, l, ys, fs) == Search(pred, xs, f, l, ys, fs)
    decreases l - f
  {
  }

  /**
   `find` never dereferences the primary cursor at or past `l`, and reads each
   secondary sequence only in the `l - f` positions from its start: inputs
   that agree on those windows give the same cursors.
   */
  lemma {:induction false} SearchReadsOnlyWindows<T, U>(pred: (T, seq<U>) -> bool, xs: seq<T>, xs': seq<T>, f: nat, l: nat,
                                                      ys: seq<seq<U>>, ys': seq<seq<U>>, fs: seq<nat>)
    requires f <= l <= |xs| && l <= |xs'|
    requires xs[f..l] == xs'[f..l]
    requires SameWindows(ys, ys', fs, l - f)
    ensures LongEnough(ys, fs, l - f) && LongEnough(ys', fs, l - f)
    ensures Search(pred, xs', f, l, ys', fs) == Search(pred, xs, f, l, ys, fs)
    decreases l - f
  {
    if f < l {
      assert xs[f] == xs[f..l][0] == xs'[f..l][0] == xs'[f];
      SameWindowsStep(ys, ys', fs, l - f);
      if !pred(xs[f], Column(ys, fs)) {
        assert xs[f + 1..l] == xs[f..l][1..];
        assert xs'[f + 1..l] == xs'[f..l][1..];
        SearchReadsOnlyWindows(pred, xs, xs', f + 1, l, ys, ys', Step(fs));
      }
    }
  }

  /** The secondary sequences `ys` and `ys'` hold the same `n` elements from every start in `fs`. */
  ghost predicate SameWindows<U>(ys: seq<seq<U>>, ys': seq<seq<U>>, fs: seq<nat>, n: nat)
  {
    && LongEnough(ys, fs, n) && LongEnough(ys', fs, n)
    && forall k :: 0 <= k < |ys| ==> ys[k][fs[k]..fs[k] + n] == ys'[k][fs[k]..fs[k] + n]
  }

  /** Agreeing windows show the same current elements, and still agree one step on. */
  lemma SameWindowsStep<U>(ys: seq<seq<U>>, ys': seq<seq<U>>, fs: seq<nat>, n: nat)
    requires n > 0 && SameWindows(ys, ys', fs, n)
    ensures Column(ys, fs) == Column(ys', fs)
    ensures SameWindows(ys, ys', Step(fs), n - 1)
  {
    var gs := Step(fs);
    forall k | 0 <= k < |ys|
      ensures ys[k][fs[k]] == ys'[k][fs[k]]
      ensures ys[k][gs[k]..gs[k] + (n - 1)] == ys'[k][gs[k]..gs[k] + (n - 1)]
    {
      assert ys[k][fs[k]] == ys[k][fs[k]..fs[k] + n][0];
      assert ys'[k][fs[k]] == ys'[k][fs[k]..fs[k] + n][0];
      assert ys[k][gs[k]..gs[k] + (n - 1)] == ys[k][fs[k]..fs[k] + n][1..];
      assert ys'[k][gs[k]..gs[k] + (n - 1)] == ys'[k][fs[k]..fs[k] + n][1..];
    }
  }

  /** A plain single-sequence search: the first index in `[f, l)` where `q` holds, or `l`. */
  function IndexWhere<T>(q: T -> bool, xs: seq<T>, f: nat, l: nat): (p: nat)
    requires f <= l <= |xs|
    decreases l - f
  {
    if f == l || q(xs[f]) then f else IndexWhere(q, xs, f + 1, l)
  }

  /** With no secondary sequences, `find` is a plain single-sequence search. */
  lemma {:induction false} SearchWithoutSecondaries<T, U>(pred: (T, seq<U>) -> bool, xs: seq<T>, f: nat, l: nat)
    requires f <= l <= |xs|
    ensures Search(pred, xs, f, l, [], []) == Cursors(IndexWhere(x => pred(x, []), xs, f, l), [])
    decreases l - f
  {
    if f < l {
      assert Column<U>([], []) == [];
      assert Step([]) == [];
      SearchWithoutSecondaries(pred, xs, f + 1, l);
    }
  }

  /**
   The specification of `transform`: the values `op` produces at each
   lock-step position of the range, in order.
   */
  function Mapped<T, U, V>(op: (T, seq<U>) -> V, xs: seq<T>, f: nat, l: nat, ys: seq<seq<U>>, fs: seq<nat>): (r: seq<V>)
    requires f <= l <= |xs|
    requires LongEnough(ys, fs, l - f)
    ensures |r| == l - f
    ensures forall i :: 0 <= i < l - f ==> r[i] == op(xs[f + i], Column(ys, Shifted(fs, i)))
    decreases l - f
  {
    if f == l then []
    else
      var rest := Mapped(op, xs, f + 1, l, ys, Step(fs));
      assert fs == Shifted(fs, 0);
      forall i | 0 <= i < l - (f + 1)
        ensures Shifted(Step(fs), i) == Shifted(fs, i + 1)
      {
      }
      [op(xs[f], Column(ys, fs))] + rest
  }

  /**
   `transform(op, o, f, l, fs...)`: writes `op` of the current elements through
   the output cursor `out` of array `o`, advancing the output, primary and
   secondary cursors together, and returns the output cursor one past the last
   write. Cells of `o` outside the written window keep their values.
   */
  method Transform<T, U, V>(op: (T, seq<U>) -> V, o: array<V>, out: nat, xs: seq<T>, f: nat, l: nat, ys: seq<seq<U>>, fs: seq<nat>)
    returns (r: nat)
    requires f <= l <= |xs|
    requires LongEnough(ys, fs, l - f)
    requires out + (l - f) <= o.Length
    modifies o
    ensures r == out + (l - f)
    ensures o[..] == old(o[..out]) + Mapped(op, xs, f, l, ys, fs) + old(o[r..])
  {
    ghost var want := Mapped(op, xs, f, l, ys, fs);
    var d, p, ps := out, f, fs;
    while p != l
      invariant f <= p <= l && d == out + (p - f)
      invariant ps == Shifted(fs, p - f)
      invariant forall k :: 0 <= k < out ==> o[k] == old(o[k])
      invariant forall k :: out <= k < d ==> o[k] == want[k - out]
      invariant forall k :: d <= k < o.Length ==> o[k] == old(o[k])
      decreases l - p
    {
      assert want[p - f] == op(xs[p], Column(ys, ps));
      o[d] := op(xs[p], Column(ys, ps));
      StepShifted(fs, p - f);
      d, p, ps := d + 1, p + 1, Step(ps);
    }
    r := d;
    ghost var before := old(o[..]);
    assert o[..] == before[..out] + want + before[r..];
  }
}
