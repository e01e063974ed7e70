/** Machines that consume a sequence one element at a time. */
module Folds {
  function FoldLeft<R, B>(step: (R, B) -> R, r: R, xs: seq<B>): R
    decreases |xs|
  {
    if xs == [] then r else FoldLeft(step, step(r, xs[0]), xs[1..])
  }

  lemma {:induction false} FoldConcat<R, B>(step: (R, B) -> R, r: R, xs: seq<B>, ys: seq<B>)
    ensures FoldLeft(step, r, xs + ys) == FoldLeft(step, FoldLeft(step, r, xs), ys)
    decreases |xs|
  {
    if xs == [] {
      assert xs + ys == ys;
    } else {
      assert (xs + ys)[1..] == xs[1..] + ys;
      FoldConcat(step, step(r, xs[0]), xs[1..], ys);
    }
  }

  lemma FoldOneMore<R, B>(step: (R, B) -> R, r: R, xs: seq<B>, n: nat)
    requires n < |xs|
    ensures FoldLeft(step, r, xs[..n + 1]) == step(FoldLeft(step, r, xs[..n]), xs[n])
  {
    var last := [xs[n]];
    assert xs[..n + 1] == xs[..n] + last && last[1..] == [];
    FoldConcat(step, r, xs[..n], last);
    assert FoldLeft(step, FoldLeft(step, r, xs[..n]), last) == step(FoldLeft(step, r, xs[..n]), xs[n]);
  }

  function Flatten<A, B>(expand: A -> seq<B>, xs: seq<A>): seq<B> {
    if xs == [] then [] else expand(xs[0]) + Flatten(expand, xs[1..])
  }

  /** A machine whose every step does the work of a run of smaller steps. */
  lemma {:induction false} FoldFlatten<R(!new), A(!new), B>(big: (R, A) -> R, small: (R, B) -> R, expand: A -> seq<B>,
                                                            r: R, xs: seq<A>)
    requires forall s, a :: big(s, a) == FoldLeft(small, s, expand(a))
    ensures FoldLeft(big, r, xs) == FoldLeft(small, r, Flatten(expand, xs))
    decreases |xs|
  {
    if xs != [] {
      FoldConcat(small, r, expand(xs[0]), Flatten(expand, xs[1..]));
      FoldFlatten(big, small, expand, big(r, xs[0]), xs[1..]);
    }
  }

  function Iterate<R>(f: R -> R, r: R, n: nat): R
    decreases n
  {
    if n == 0 then r else Iterate(f, f(r), n - 1)
  }

  lemma {:induction false} IterateLinear<R(!new)>(f: R -> R, add: (R, R) -> R, a: R, b: R, n: nat)
    requires forall x, y :: f(add(x, y)) == add(f(x), f(y))
    ensures Iterate(f, add(a, b), n) == add(Iterate(f, a, n), Iterate(f, b, n))
    decreases n
  {
    if n > 0 {
      IterateLinear(f, add, f(a), f(b), n - 1);
    }
  }

  ghost predicate AgreeFrom<B>(x: seq<B>, y: seq<B>, k: nat) {
    |x| == |y| && forall i :: k <= i < |x| ==> x[i] == y[i]
  }

  /** `close(r, s, k)` is a distance on states for which no step can bring two states closer than the
      inputs account for: seen backwards, k different inputs account for a distance of k. */
  ghost predicate Separates<R(!new), B(!new)>(step: (R, B) -> R, close: (R, R, nat) -> bool, limit: nat) {
    && (forall r :: close(r, r, 0))
    && (forall r, s, b :: close(step(r, b), step(s, b), 0) ==> close(r, s, 0))
    && (forall r, s, b, c, k: nat :: k < limit && close(step(r, b), step(s, c), k) ==> close(r, s, k + 1))
    && (forall r, b, c :: close(step(r, b), step(r, c), limit) ==> b == c)
    && (forall r, s, k: nat :: k <= limit && close(r, s, k) ==> close(r, s, limit))
  }

  lemma {:induction false} StatesWereClose<R(!new), B(!new)>(step: (R, B) -> R, close: (R, R, nat) -> bool, limit: nat,
                                                             r: R, s: R, x: seq<B>, y: seq<B>, k: nat)
    requires Separates(step, close, limit) && k <= limit
    requires AgreeFrom(x, y, k) && FoldLeft(step, r, x) == FoldLeft(step, s, y)
    ensures close(r, s, if k <= |x| then k else |x|)
    ensures close(r, s, limit)
    decreases |x|
  {
    if x == [] {
      assert close(r, r, 0);
    } else if k == 0 {
      assert x[0] == y[0];
      StatesWereClose(step, close, limit, step(r, x[0]), step(s, y[0]), x[1..], y[1..], 0);
    } else {
      StatesWereClose(step, close, limit, step(r, x[0]), step(s, y[0]), x[1..], y[1..], k - 1);
    }
  }

  /** From one state, inputs that agree beyond the first limit + 1 places and end in one state are equal. */
  lemma {:induction false} ShortRunIsSeen<R(!new), B(!new)>(step: (R, B) -> R, close: (R, R, nat) -> bool, limit: nat,
                                                            r: R, x: seq<B>, y: seq<B>, k: nat)
    requires Separates(step, close, limit) && k <= limit + 1
    requires AgreeFrom(x, y, k) && FoldLeft(step, r, x) == FoldLeft(step, r, y)
    ensures x == y
    decreases |x|
  {
    if k > 0 && x != [] {
      StatesWereClose(step, close, limit, step(r, x[0]), step(r, y[0]), x[1..], y[1..], k - 1);
      assert x[0] == y[0];
      ShortRunIsSeen(step, close, limit, step(r, x[0]), x[1..], y[1..], k - 1);
      assert x == [x[0]] + x[1..] && y == [y[0]] + y[1..];
    }
  }
}
