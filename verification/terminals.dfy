/** The terminal operations of iters/iters.go: `ToSlice` and `Reduce` pull
    until the first failed pull. They return exactly when some pull from the
    iterator's state fails (`Ends`); otherwise the Go loops run forever. */
module Terminals {
  import opened Protocol
  import opened Seqs

  /** `ToSlice`: the elements pulled before the first failed pull, in the
      order they arrived. */
  function ToSlice<S, T>(it: Iter<S, T>): (r: seq<T>)
    requires Ends(it.next, it.state)
    ensures Yields(it.next, it.state, r)
    decreases Distance(it.next, it.state, Fails)
  {
    var st := it.next(it.state);
    if !st.more then
      YieldsNil(it.next, it.state);
      []
    else
      DistanceStep(it.next, it.state, Fails);
      var tail := ToSlice(Iter(st.rest, it.next));
      YieldsCons(it.next, it.state, st.value, tail);
      [st.value] + tail
  }

  /** `Reduce(it, acc, f)`: `acc := f(x, acc)` for every pulled `x` until the
      first failed pull, element first and accumulator second. */
  function Reduce<S, T, R>(it: Iter<S, T>, acc: R, f: (T, R) -> R): (r: R)
    requires Ends(it.next, it.state)
    ensures r == Fold(f, acc, ToSlice(it))
    decreases Distance(it.next, it.state, Fails)
  {
    var st := it.next(it.state);
    if !st.more then acc
    else
      DistanceStep(it.next, it.state, Fails);
      var tail := ToSlice(Iter(st.rest, it.next));
      assert ([st.value] + tail)[1..] == tail;
      Reduce(Iter(st.rest, it.next), f(st.value, acc), f)
  }
}
