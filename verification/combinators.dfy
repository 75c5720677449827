/** The lazy combinators of iters/iters.go: `Map`, `Filter` and `Take`. Each
    wraps the upstream pull function and does no work until it is pulled. */
module Combinators {
  import opened Protocol
  import opened Seqs

  /** One pull of `Map`: exactly one upstream pull, whose state it passes on;
      `f` is applied to a real element only, and a failed upstream pull gives
      the zero value of the result type. */
  function MapNext<S, T, R>(next: S -> Step<T, S>, f: T -> R, zero: R, s: S): (r: Step<R, S>)
    ensures r.more == next(s).more && r.rest == next(s).rest
    ensures r.more ==> r.value == f(next(s).value)
    ensures !r.more ==> r.value == zero
  {
    var st := next(s);
    if !st.more then Step(zero, false, st.rest)
    else Step(f(st.value), true, st.rest)
  }

  /** `Map(it, f)`, with the zero value of the result type made explicit. It
      starts where `it` stands, and each of its pulls succeeds, and leaves
      the state, exactly as one upstream pull does. */
  function Map<S(!new), T, R>(it: Iter<S, T>, f: T -> R, zero: R): (r: Iter<S, R>)
    ensures r.state == it.state
    ensures forall s :: r.next(s).more == it.next(s).more && r.next(s).rest == it.next(s).rest
    ensures forall s :: r.next(s).value == if it.next(s).more then f(it.next(s).value) else zero
  {
    Iter(it.state, s => MapNext(it.next, f, zero, s))
  }

  /** The outcomes at which the `Filter` loop stops: a failed upstream pull,
      or an element satisfying `p`. */
  function Stops<T, S>(p: T -> bool): Step<T, S> -> bool
  {
    (st: Step<T, S>) => !st.more || p(st.value)
  }

  /** From every state the `Filter` loop returns: some upstream pull fails or
      delivers an element satisfying `p`. A pull function is total, so the
      one `Filter` builds needs this of every state of the upstream. */
  ghost predicate Settles<S(!new), T>(next: S -> Step<T, S>, p: T -> bool)
  {
    forall t :: Reaches(next, t, Stops(p))
  }

  /** One pull of `Filter`: pulls upstream until an element satisfies `p`
      (returned with `true`) or the upstream fails (its result returned as
      is). It returns the first upstream pull at which the loop stops; every
      upstream element before it was rejected by `p`. */
  function FilterNext<S, T>(next: S -> Step<T, S>, p: T -> bool, s: S): (r: Step<T, S>)
    requires Reaches(next, s, Stops(p))
    ensures r == Nth(next, s, Distance(next, s, Stops(p)))
    ensures forall j :: 0 <= j < Distance(next, s, Stops(p)) ==>
              Nth(next, s, j).more && !p(Nth(next, s, j).value)
    ensures r.more ==> p(r.value)
    decreases Distance(next, s, Stops(p))
  {
    var st := next(s);
    assert Nth(next, s, 0) == st;
    if !st.more then st
    else if p(st.value) then st
    else
      DistanceStep(next, s, Stops(p));
      NthShift(next, s, Distance(next, s, Stops(p)) - 1);
      FilterNext(next, p, st.rest)
  }

  /** `Filter(it, p)`: it starts where `it` stands, and each pull is the
      first upstream pull that fails or delivers an element satisfying `p`. */
  function Filter<S(!new), T>(it: Iter<S, T>, p: T -> bool): (r: Iter<S, T>)
    requires Settles(it.next, p)
    ensures r.state == it.state
    ensures forall s :: r.next(s) == Nth(it.next, s, Distance(it.next, s, Stops(p)))
    ensures forall s :: r.next(s).more ==> p(r.next(s).value)
  {
    Iter(it.state, s => FilterNext(it.next, p, s))
  }

  /** The state of `Take`: the upstream state and the countdown `n` that the
      closure decrements. */
  datatype Countdown<S> = Countdown(upstream: S, n: int)

  /** One pull of `Take`: with the countdown at or below zero it returns the
      zero value and does not touch the upstream; otherwise it decrements the
      countdown and returns one upstream pull as it is. */
  function TakeNext<S, T>(next: S -> Step<T, S>, zero: T, c: Countdown<S>): (r: Step<T, Countdown<S>>)
    ensures c.n <= 0 ==> r == Step(zero, false, c)
    ensures c.n > 0 ==> r.rest.n == c.n - 1 && r.rest.upstream == next(c.upstream).rest
    ensures c.n > 0 ==> r.value == next(c.upstream).value && r.more == next(c.upstream).more
  {
    if c.n <= 0 then Step(zero, false, c)
    else
      var st := next(c.upstream);
      Step(st.value, st.more, Countdown(st.rest, c.n - 1))
  }

  /** `Take(it, n)`, with the zero value of the element type made explicit.
      It is finite over any upstream, finite or not: at most `n` pulls succeed. */
  function Take<S(!new), T>(it: Iter<S, T>, n: int, zero: T): (r: Iter<Countdown<S>, T>)
    ensures r.state == Countdown(it.state, n)
    ensures Ends(r.next, r.state)
    ensures Ranked(r.next, TakeLeft)
  {
    var r := Iter(Countdown(it.state, n), c => TakeNext(it.next, zero, c));
    RankedEnds(r.next, TakeLeft, r.state);
    r
  }

  /** How many more pulls a `Take` iterator may still answer with an element. */
  function TakeLeft<S>(c: Countdown<S>): nat
  {
    if c.n <= 0 then 0 else c.n
  }

  // ---------------------------------------------------------------- Map laws

  /** Each pull of `Map` is exactly one upstream pull: after `k` pulls it
      stands where the upstream stands after `k` pulls. */
  lemma {:induction false} MapPullsOnce<S(!new), T, R>(it: Iter<S, T>, f: T -> R, zero: R, s: S, k: nat)
    ensures Run(Map(it, f, zero).next, s, k) == Run(it.next, s, k)
    decreases k
  {
    if k > 0 {
      MapPullsOnce(it, f, zero, it.next(s).rest, k - 1);
    }
  }

  /** `f` is never consulted on a failed upstream pull: any two functions
      give the same `Map` pull there. */
  lemma MapSkipsFunctionAtEnd<S(!new), T, R>(it: Iter<S, T>, f: T -> R, g: T -> R, zero: R, s: S)
    requires !it.next(s).more
    ensures Map(it, f, zero).next(s) == Map(it, g, zero).next(s)
    ensures Map(it, f, zero).next(s) == Step(zero, false, it.next(s).rest)
  {
  }

  /** Over an upstream that yields `xs`, `Map` yields `f` of each element of
      `xs`, in the same order and nothing more. */
  lemma {:induction false} MapYields<S(!new), T, R>(it: Iter<S, T>, f: T -> R, zero: R, s: S, xs: seq<T>)
    requires Yields(it.next, s, xs)
    ensures Yields(Map(it, f, zero).next, s, Apply(f, xs))
  {
    var m := Map(it, f, zero).next;
    forall i | 0 <= i <= |xs|
      ensures Nth(m, s, i).more == Nth(it.next, s, i).more
      ensures Nth(m, s, i).more ==> Nth(m, s, i).value == f(Nth(it.next, s, i).value)
    {
      MapPullsOnce(it, f, zero, s, i);
    }
  }

  /** `Map` of an iterator that ends ends, at the same pull. */
  lemma MapEnds<S(!new), T, R>(it: Iter<S, T>, f: T -> R, zero: R, s: S)
    requires Ends(it.next, s)
    ensures Ends(Map(it, f, zero).next, s)
  {
    var k: nat :| Fails(Nth(it.next, s, k));
    MapPullsOnce(it, f, zero, s, k);
    assert Fails(Nth(Map(it, f, zero).next, s, k));
  }

  /** `Map` keeps the `Next` contract whenever its upstream keeps it. */
  lemma MapStable<S(!new), T, R>(it: Iter<S, T>, f: T -> R, zeroIn: T, zero: R)
    requires Stable(it.next, zeroIn)
    ensures Stable(Map(it, f, zero).next, zero)
  {
  }

  /** `Map` of a finite iterator is finite, with the same rank. */
  lemma MapRanked<S(!new), T, R>(it: Iter<S, T>, f: T -> R, zero: R, rank: S -> nat)
    requires Ranked(it.next, rank)
    ensures Ranked(Map(it, f, zero).next, rank)
  {
  }

  // ------------------------------------------------------------- Filter laws

  /** Over an upstream that yields `xs`, `Filter` yields the elements of `xs`
      satisfying `p`, in their original order. */
  lemma {:induction false} FilterYields<S(!new), T>(it: Iter<S, T>, p: T -> bool, s: S, xs: seq<T>)
    requires Settles(it.next, p)
    requires Yields(it.next, s, xs)
    ensures Yields(Filter(it, p).next, s, Keep(p, xs))
    decreases |xs|
  {
    var fnext := Filter(it, p).next;
    if xs == [] {
      YieldsNil(it.next, s);
      YieldsNil(fnext, s);
    } else {
      var x, ys := xs[0], xs[1..];
      assert xs == [x] + ys;
      YieldsCons(it.next, s, x, ys);
      var s1 := it.next(s).rest;
      FilterYields(it, p, s1, ys);
      if p(x) {
        YieldsCons(fnext, s, x, Keep(p, ys));
      } else {
        forall k: nat
          ensures Nth(fnext, s, k) == Nth(fnext, s1, k)
        {
          SameFirstPull(fnext, s, s1, k);
        }
      }
    }
  }

  /** `Filter` keeps the `Next` contract whenever its upstream keeps it: a
      failed `Filter` pull is a failed upstream pull, so it returns the zero
      value and the upstream fails again from where it was left. */
  lemma FilterStable<S(!new), T>(it: Iter<S, T>, p: T -> bool, zero: T)
    requires Settles(it.next, p)
    requires Stable(it.next, zero)
    ensures Stable(Filter(it, p).next, zero)
  {
    forall t
      ensures !FilterNext(it.next, p, t).more ==>
                FilterNext(it.next, p, t).value == zero
                && !FilterNext(it.next, p, FilterNext(it.next, p, t).rest).more
    {
      var u := Run(it.next, t, Distance(it.next, t, Stops(p)));
      if !it.next(u).more {
        var v := it.next(u).rest;
        assert FilterNext(it.next, p, v) == it.next(v);
      }
    }
  }

  /** A successful `Filter` pull lowers the upstream's rank by at least one. */
  lemma {:induction false} FilterLowersRank<S(!new), T>(next: S -> Step<T, S>, p: T -> bool, rank: S -> nat, s: S)
    requires Ranked(next, rank)
    requires Reaches(next, s, Stops(p))
    ensures FilterNext(next, p, s).more ==> rank(FilterNext(next, p, s).rest) < rank(s)
    decreases rank(s)
  {
    var st := next(s);
    assert Nth(next, s, 0) == st;
    if st.more && !p(st.value) {
      DistanceStep(next, s, Stops(p));
      FilterLowersRank(next, p, rank, st.rest);
    }
  }

  /** Over a finite upstream the `Filter` loop ends from every state, whatever
      `p` is, and `Filter` is finite with the same rank. */
  lemma FilterRanked<S(!new), T>(it: Iter<S, T>, p: T -> bool, rank: S -> nat)
    requires Ranked(it.next, rank)
    ensures Settles(it.next, p)
    ensures Ranked(Filter(it, p).next, rank)
  {
    forall t
      ensures Reaches(it.next, t, Stops(p))
    {
      RankedEnds(it.next, rank, t);
      var k: nat :| Fails(Nth(it.next, t, k));
      assert Stops(p)(Nth(it.next, t, k));
    }
    forall t
      ensures FilterNext(it.next, p, t).more ==> rank(FilterNext(it.next, p, t).rest) < rank(t)
    {
      FilterLowersRank(it.next, p, rank, t);
    }
  }

  // --------------------------------------------------------------- Take laws

  /** `Take` pulls upstream exactly `min(k, max(n, 0))` times in its first `k`
      pulls: it never pulls once the countdown is spent, and never at all
      when `n <= 0`. */
  lemma {:induction false} TakeRun<S(!new), T>(it: Iter<S, T>, n: int, zero: T, s: S, k: nat)
    ensures var m := if k < TakeLeft(Countdown(s, n)) then k else TakeLeft(Countdown(s, n));
            Run(Take(it, n, zero).next, Countdown(s, n), k) == Countdown(Run(it.next, s, m), n - m)
    decreases k
  {
    if k > 0 && n > 0 {
      TakeRun(it, n - 1, zero, it.next(s).rest, k - 1);
    } else if k > 0 {
      TakeRun(it, n, zero, s, k - 1);
    }
  }

  /** Pull `k` of `Take(it, n)` is upstream pull `k` while `k < n`; from then
      on every pull fails with the zero value. No finiteness is needed: this
      holds over an infinite upstream too. */
  lemma TakeNth<S(!new), T>(it: Iter<S, T>, n: int, zero: T, s: S, k: nat)
    ensures k < TakeLeft(Countdown(s, n)) ==>
              Nth(Take(it, n, zero).next, Countdown(s, n), k).more == Nth(it.next, s, k).more
              && Nth(Take(it, n, zero).next, Countdown(s, n), k).value == Nth(it.next, s, k).value
    ensures k >= TakeLeft(Countdown(s, n)) ==>
              Nth(Take(it, n, zero).next, Countdown(s, n), k) == Step(zero, false, Countdown(Run(it.next, s, TakeLeft(Countdown(s, n))), n - TakeLeft(Countdown(s, n))))
  {
    TakeRun(it, n, zero, s, k);
  }

  /** Over an upstream that yields `xs`, `Take(it, n)` yields the prefix of
      `xs` of length `min(max(n, 0), |xs|)`. */
  lemma {:induction false} TakeYields<S(!new), T>(it: Iter<S, T>, n: int, zero: T, s: S, xs: seq<T>)
    requires Yields(it.next, s, xs)
    ensures var m := if TakeLeft(Countdown(s, n)) < |xs| then TakeLeft(Countdown(s, n)) else |xs|;
            Yields(Take(it, n, zero).next, Countdown(s, n), xs[..m])
    decreases |xs|
  {
    var tnext := Take(it, n, zero).next;
    if n <= 0 || xs == [] {
      YieldsNil(it.next, s);
      YieldsNil(tnext, Countdown(s, n));
    } else {
      var x, ys := xs[0], xs[1..];
      assert xs == [x] + ys;
      YieldsCons(it.next, s, x, ys);
      var s1 := it.next(s).rest;
      TakeYields(it, n - 1, zero, s1, ys);
      var m := if n - 1 < |ys| then n - 1 else |ys|;
      assert xs[..m + 1] == [x] + ys[..m];
      YieldsCons(tnext, Countdown(s, n), x, ys[..m]);
    }
  }

  /** `Take` keeps the `Next` contract whenever its upstream keeps it. */
  lemma TakeStable<S(!new), T>(it: Iter<S, T>, n: int, zero: T)
    requires Stable(it.next, zero)
    ensures Stable(Take(it, n, zero).next, zero)
  {
  }
}
