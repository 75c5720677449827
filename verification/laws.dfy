/** What a whole pipeline computes: a slice source, zero or more combinators,
    and a terminal operation, stated against the eager reference definitions
    of `Seqs`. */
module Laws {
  import opened Protocol
  import opened Seqs
  import opened Sources
  import opened Combinators
  import opened Terminals

  /** `ToSlice` returns exactly what the iterator yields. */
  lemma ToSliceIsYield<S, T>(it: Iter<S, T>, xs: seq<T>)
    requires Yields(it.next, it.state, xs)
    ensures (YieldsEnds(it.next, it.state, xs); ToSlice(it) == xs)
  {
    YieldsEnds(it.next, it.state, xs);
    YieldsUnique(it.next, it.state, ToSlice(it), xs);
  }

  /** Round trip: collecting a slice iterator gives the slice back; the empty
      (or nil) slice gives the empty result. */
  lemma SliceRoundTrip<T(!new)>(slice: seq<T>, zero: T)
    ensures ToSlice(FromSlice(slice, zero)) == slice
  {
    SliceYields(zero, slice, 0);
    assert slice[0..] == slice;
    ToSliceIsYield(FromSlice(slice, zero), slice);
  }

  // ------------------------------------------------- a countdown via FromFunc

  /** The pull function of a `FromFunc` closure counting an `int` down: it
      yields the counter and decrements it, and fails at 0. Started below 0
      it never fails. */
  function Down(t: int): Step<int, int>
  {
    if t == 0 then Step(0, false, 0) else Step(t, true, t - 1)
  }

  /** `t, t - 1, ..., 1`. */
  function DownFrom(t: nat): (r: seq<int>)
    ensures |r| == t
  {
    seq(t, i requires 0 <= i < t => t - i)
  }

  /** Started at `t >= 0`, the countdown yields `t, t - 1, ..., 1`. */
  lemma {:induction false} DownYields(t: nat)
    ensures Yields(Down, t, DownFrom(t))
    decreases t
  {
    if t == 0 {
      YieldsNil(Down, 0);
    } else {
      DownYields(t - 1);
      assert DownFrom(t) == [t] + DownFrom(t - 1);
      YieldsCons(Down, t, t, DownFrom(t - 1));
    }
  }

  /** After `k` pulls from `t >= 0` the countdown stands at `t - k`, or at 0
      once it has run out. */
  lemma {:induction false} DownRun(t: nat, k: nat)
    ensures Run(Down, t, k) == if k <= t then t - k else 0
    decreases k
  {
    if k > 0 {
      DownRun(if t == 0 then 0 else t - 1, k - 1);
    }
  }

  /** Started at `t >= 0`, the countdown keeps the `Next` contract along its
      run: a failed pull returns 0 and so does the pull after it. */
  lemma DownStable(t: nat)
    ensures StableFrom(Down, 0, t)
  {
    forall k: nat
      ensures !Nth(Down, t, k).more ==> Nth(Down, t, k).value == 0 && !Down(Nth(Down, t, k).rest).more
    {
      DownRun(t, k);
    }
  }

  /** `ToSlice(FromFunc(Down, t))` is `[t, t - 1, ..., 1]`, although the state
      type `int` also has states (the negative ones) from which the countdown
      never ends. */
  lemma CountdownToSlice(t: nat)
    ensures (DownYields(t); YieldsEnds(Down, t, DownFrom(t));
             ToSlice(FromFunc(Down, t)) == DownFrom(t))
  {
    DownYields(t);
    ToSliceIsYield(FromFunc(Down, t), DownFrom(t));
  }

  /** Summing `t, t - 1, ..., 1` onto `acc`, element by element. */
  lemma {:induction false} DownSum(t: nat, acc: int)
    ensures Fold((x: int, a: int) => a + x, acc, DownFrom(t)) == acc + t * (t + 1) / 2
    decreases t
  {
    if t > 0 {
      assert DownFrom(t)[1..] == DownFrom(t - 1);
      DownSum(t - 1, acc + t);
    }
  }

  /** `Reduce` with `acc + x` over `FromFunc(Down, t)` from 0 is `t(t + 1)/2`. */
  lemma CountdownSum(t: nat)
    ensures (DownYields(t); YieldsEnds(Down, t, DownFrom(t));
             Reduce(FromFunc(Down, t), 0, (x: int, acc: int) => acc + x) == t * (t + 1) / 2)
  {
    CountdownToSlice(t);
    DownSum(t, 0);
  }

  // ------------------------------------------------------------- combinators

  /** `Map` collects to the elementwise image of what its upstream collects:
      same length, same order. */
  lemma MapToSlice<S(!new), T, R>(it: Iter<S, T>, f: T -> R, zero: R)
    requires Ends(it.next, it.state)
    ensures (MapEnds(it, f, zero, it.state);
             ToSlice(Map(it, f, zero)) == Apply(f, ToSlice(it)))
  {
    MapYields(it, f, zero, it.state, ToSlice(it));
    ToSliceIsYield(Map(it, f, zero), Apply(f, ToSlice(it)));
  }

  /** `Map` over a slice: `f` of every element, in order, as many as there are. */
  lemma MapSlice<T(!new), R>(slice: seq<T>, zeroIn: T, f: T -> R, zero: R)
    ensures (MapEnds(FromSlice(slice, zeroIn), f, zero, Cursor(slice, 0));
            var r := ToSlice(Map(FromSlice(slice, zeroIn), f, zero));
            |r| == |slice| && forall i :: 0 <= i < |slice| ==> r[i] == f(slice[i]))
  {
    MapToSlice(FromSlice(slice, zeroIn), f, zero);
    SliceRoundTrip(slice, zeroIn);
  }

  /** `Filter` of an iterator that ends ends. */
  lemma FilterEnds<S(!new), T>(it: Iter<S, T>, p: T -> bool)
    requires Settles(it.next, p)
    requires Ends(it.next, it.state)
    ensures Ends(Filter(it, p).next, it.state)
  {
    FilterYields(it, p, it.state, ToSlice(it));
    YieldsEnds(Filter(it, p).next, it.state, Keep(p, ToSlice(it)));
  }

  /** `Filter` collects to the elements of what its upstream collects that
      satisfy `p`, in their original order. */
  lemma FilterToSlice<S(!new), T>(it: Iter<S, T>, p: T -> bool)
    requires Settles(it.next, p)
    requires Ends(it.next, it.state)
    ensures (FilterEnds(it, p);
             ToSlice(Filter(it, p)) == Keep(p, ToSlice(it)))
  {
    FilterYields(it, p, it.state, ToSlice(it));
    ToSliceIsYield(Filter(it, p), Keep(p, ToSlice(it)));
  }

  /** `Filter` over a slice: the elements of the slice satisfying `p`. */
  lemma FilterSlice<T(!new)>(slice: seq<T>, zero: T, p: T -> bool)
    ensures (FilterRanked(FromSlice(slice, zero), p, Left); FilterEnds(FromSlice(slice, zero), p);
             ToSlice(Filter(FromSlice(slice, zero), p)) == Keep(p, slice))
  {
    FilterRanked(FromSlice(slice, zero), p, Left);
    FilterToSlice(FromSlice(slice, zero), p);
    SliceRoundTrip(slice, zero);
  }

  /** `Take(it, n)` collects to the prefix of length `min(max(n, 0), L)` of
      what its upstream collects, `L` being that length. */
  lemma TakeToSlice<S(!new), T>(it: Iter<S, T>, n: int, zero: T)
    requires Ends(it.next, it.state)
    ensures var xs := ToSlice(it);
            var m := if n <= 0 then 0 else if n < |xs| then n else |xs|;
            ToSlice(Take(it, n, zero)) == xs[..m]
  {
    var xs := ToSlice(it);
    TakeYields(it, n, zero, it.state, xs);
    var m := if n <= 0 then 0 else if n < |xs| then n else |xs|;
    ToSliceIsYield(Take(it, n, zero), xs[..m]);
  }

  /** `Take` over a slice: its first `min(max(n, 0), |slice|)` elements; in
      particular nothing at all when `n <= 0`. */
  lemma TakeSlice<T(!new)>(slice: seq<T>, zero: T, n: int)
    ensures var m := if n <= 0 then 0 else if n < |slice| then n else |slice|;
            ToSlice(Take(FromSlice(slice, zero), n, zero)) == slice[..m]
    ensures n <= 0 ==> ToSlice(Take(FromSlice(slice, zero), n, zero)) == []
  {
    TakeToSlice(FromSlice(slice, zero), n, zero);
    SliceRoundTrip(slice, zero);
  }

  /** Whatever the upstream, finite or infinite, `Take(it, n)` collects at
      most `max(n, 0)` elements. */
  lemma TakeAtMost<S(!new), T>(it: Iter<S, T>, n: int, zero: T)
    ensures |ToSlice(Take(it, n, zero))| <= if n <= 0 then 0 else n
  {
    var t := Take(it, n, zero);
    RankedBound(t.next, TakeLeft, t.state, ToSlice(t));
  }

  /** A `Take` over an infinite source collects exactly `n` elements: the
      first `n` upstream pulls, in order. */
  lemma TakeOfUnbounded<S(!new), T>(it: Iter<S, T>, n: nat, zero: T)
    requires forall k: nat :: Nth(it.next, it.state, k).more
    ensures var r := ToSlice(Take(it, n, zero));
            |r| == n && forall i :: 0 <= i < n ==> r[i] == Nth(it.next, it.state, i).value
  {
    var r := ToSlice(Take(it, n, zero));
    forall i: nat
      ensures i < n ==> Nth(Take(it, n, zero).next, Countdown(it.state, n), i).more
      ensures i < n ==> Nth(Take(it, n, zero).next, Countdown(it.state, n), i).value == Nth(it.next, it.state, i).value
      ensures i >= n ==> !Nth(Take(it, n, zero).next, Countdown(it.state, n), i).more
    {
      TakeNth(it, n, zero, it.state, i);
    }
    assert !Nth(Take(it, n, zero).next, Countdown(it.state, n), |r|).more;
    assert !Nth(Take(it, n, zero).next, Countdown(it.state, n), n).more;
  }

  // --------------------------------------------------------------- terminals

  /** `Reduce` over a slice is the left fold of the slice, element first. */
  lemma ReduceSlice<T(!new), R>(slice: seq<T>, zero: T, acc: R, f: (T, R) -> R)
    ensures Reduce(FromSlice(slice, zero), acc, f) == Fold(f, acc, slice)
  {
    SliceRoundTrip(slice, zero);
  }

  /** `Reduce` of an iterator that yields nothing returns the seed unchanged. */
  lemma ReduceEmpty<S, T, R>(it: Iter<S, T>, acc: R, f: (T, R) -> R)
    requires !it.next(it.state).more
    ensures (YieldsNil(it.next, it.state); YieldsEnds(it.next, it.state, []);
             Reduce(it, acc, f) == acc)
  {
  }

  /** Summing `[3, 4, 5]` with `acc + x` gives 12. */
  lemma ReduceSum()
    ensures Reduce(FromSlice([3, 4, 5], 0), 0, (x: int, acc: int) => acc + x) == 12
  {
    ReduceSlice([3, 4, 5], 0, 0, (x: int, acc: int) => acc + x);
    assert [3, 4, 5][1..] == [4, 5];
    assert [4, 5][1..] == [5];
  }

  // ------------------------------------------------- counting upstream pulls

  /** A wrapper that counts how often its iterator is pulled. */
  datatype Counted<S> = Counted(inner: S, pulls: nat)

  /** One pull of the counting wrapper: the wrapped pull, with the count up by one. */
  function CountedNext<S, T>(next: S -> Step<T, S>, c: Counted<S>): (r: Step<T, Counted<S>>)
    ensures r.rest.pulls == c.pulls + 1
    ensures r.value == next(c.inner).value && r.more == next(c.inner).more
    ensures r.rest.inner == next(c.inner).rest
  {
    var st := next(c.inner);
    Step(st.value, st.more, Counted(st.rest, c.pulls + 1))
  }

  /** Wraps an iterator in a fresh pull counter. */
  function Counting<S, T>(it: Iter<S, T>): Iter<Counted<S>, T>
  {
    Iter(Counted(it.state, 0), c => CountedNext(it.next, c))
  }

  /** After `k` pulls the counter has gone up by exactly `k`. */
  lemma {:induction false} CountingRun<S, T>(it: Iter<S, T>, c: Counted<S>, k: nat)
    ensures Run(Counting(it).next, c, k).pulls == c.pulls + k
    decreases k
  {
    if k > 0 {
      CountingRun(it, Counting(it).next(c).rest, k - 1);
    }
  }

  /** `Take` never over-pulls: after `k` pulls of `Take(it, n)` its upstream
      has been pulled exactly `min(k, max(n, 0))` times. */
  lemma TakeNeverOverPulls<S(!new), T>(it: Iter<S, T>, n: int, zero: T, k: nat)
    ensures var t := Take(Counting(it), n, zero);
            var pulls := Run(t.next, t.state, k).upstream.pulls;
            pulls == if k < TakeLeft(Countdown(it.state, n)) then k else TakeLeft(Countdown(it.state, n))
  {
    var t := Take(Counting(it), n, zero);
    TakeRun(Counting(it), n, zero, Counted(it.state, 0), k);
    var m := if k < TakeLeft(Countdown(it.state, n)) then k else TakeLeft(Countdown(it.state, n));
    CountingRun(it, Counted(it.state, 0), m);
  }
}
