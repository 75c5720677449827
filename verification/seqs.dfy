/** Reference definitions on finite sequences: the eager counterparts that the
    lazy iterator operations are proved against. */
module Seqs {

  /** Elementwise image of `xs` under `f`, in order. */
  function Apply<T, R>(f: T -> R, xs: seq<T>): (r: seq<R>)
    ensures |r| == |xs|
    ensures forall i :: 0 <= i < |xs| ==> r[i] == f(xs[i])
  {
    seq(|xs|, i requires 0 <= i < |xs| => f(xs[i]))
  }

  /** The elements of `xs` satisfying `p`, in their original order. */
  function Keep<T>(p: T -> bool, xs: seq<T>): (r: seq<T>)
    ensures |r| <= |xs|
    ensures forall i :: 0 <= i < |r| ==> p(r[i]) && r[i] in xs
    ensures forall i :: 0 <= i < |xs| && p(xs[i]) ==> xs[i] in r
    decreases |xs|
  {
    if xs == [] then []
    else if p(xs[0]) then [xs[0]] + Keep(p, xs[1..])
    else Keep(p, xs[1..])
  }

  /** Left fold with the element as first argument and the accumulator second:
      `acc := f(x, acc)` for every `x` of `xs`, first to last. */
  function Fold<T, R>(f: (T, R) -> R, acc: R, xs: seq<T>): R
    decreases |xs|
  {
    if xs == [] then acc else Fold(f, f(xs[0], acc), xs[1..])
  }

  /** The last element is combined outermost: `Fold` really runs left to right. */
  lemma {:induction false} FoldSnoc<T, R>(f: (T, R) -> R, acc: R, xs: seq<T>, x: T)
    ensures Fold(f, acc, xs + [x]) == f(x, Fold(f, acc, xs))
    decreases |xs|
  {
    if xs == [] {
      assert ([] + [x])[1..] == [];
    } else {
      assert (xs + [x])[1..] == xs[1..] + [x];
      FoldSnoc(f, f(xs[0], acc), xs[1..], x);
    }
  }
}
