/** The pull protocol of `Iter` (iters/iters.go): an iterator is a private
    state together with a pull function that returns the next value, whether
    that value is real, and the state left behind. Every source and combinator
    of the library is one such pull function; `FromFunc` wraps an arbitrary one. */
module Protocol {

  /** The outcome of one call of `Next`: `(value, more)` as in Go, plus the
      iterator state after the call. */
  datatype Step<T, S> = Step(value: T, more: bool, rest: S)

  /** An iterator value: where it stands, and how it pulls. */
  datatype Iter<!S, T> = Iter(state: S, next: S -> Step<T, S>)
  {
    /** One call of `Next`: the pulled value, whether it is real, and the
        iterator that the next call continues from. */
    function Next(): (r: (T, bool, Iter<S, T>))
      ensures r.2.next == next
      ensures r.2.state == Run(next, state, 1)
      ensures (r.0, r.1) == (Nth(next, state, 0).value, Nth(next, state, 0).more)
    {
      var st := next(state);
      (st.value, st.more, Iter(st.rest, next))
    }
  }

  /** `FromFunc`: the given pull function, started in `init`, is the iterator;
      each call of `Next` is exactly one call of it, and the iterator it
      leaves is `f` started where that call left off. */
  function FromFunc<S, T>(f: S -> Step<T, S>, init: S): (it: Iter<S, T>)
    ensures it.Next() == (f(init).value, f(init).more, Iter(f(init).rest, f))
  {
    Iter(init, f)
  }

  /** The state reached from `s` after `k` pulls. */
  function Run<S, T>(next: S -> Step<T, S>, s: S, k: nat): S
    decreases k
  {
    if k == 0 then s else Run(next, next(s).rest, k - 1)
  }

  /** The outcome of pull number `k` (counting from 0) made from `s`. */
  function Nth<S, T>(next: S -> Step<T, S>, s: S, k: nat): Step<T, S>
  {
    next(Run(next, s, k))
  }

  /** A run of `k + 1` pulls is a run of `k` pulls followed by one more. */
  lemma {:induction false} RunLast<S, T>(next: S -> Step<T, S>, s: S, k: nat)
    ensures Run(next, s, k + 1) == next(Run(next, s, k)).rest
    decreases k
  {
    if k > 0 {
      RunLast(next, next(s).rest, k - 1);
    }
  }

  /** Two states whose first pulls agree agree on every later pull: the pull
      function, not the state, decides what comes next. */
  lemma {:induction false} SameFirstPull<S, T>(next: S -> Step<T, S>, s: S, s': S, k: nat)
    requires next(s) == next(s')
    ensures Nth(next, s, k) == Nth(next, s', k)
  {
    if k > 0 {
      assert Run(next, s, k) == Run(next, next(s).rest, k - 1);
      assert Run(next, s', k) == Run(next, next(s').rest, k - 1);
    }
  }

  /** The `Next` contract: a failed pull returns the zero value, and the pull
      after a failed pull fails too. It is stated for every state of the pull
      function, so it holds wherever a run of pulls may lead. */
  ghost predicate Stable<S(!new), T>(next: S -> Step<T, S>, zero: T)
  {
    forall t :: !next(t).more ==> next(t).value == zero && !next(next(t).rest).more
  }

  /** The `Next` contract along the run from `s`: every failed pull returns
      the zero value, and the pull after it fails too. Unlike `Stable` it
      says nothing about states that no run from `s` reaches. */
  ghost predicate StableFrom<S, T>(next: S -> Step<T, S>, zero: T, s: S)
  {
    forall k: nat :: !Nth(next, s, k).more ==>
      Nth(next, s, k).value == zero && !next(Nth(next, s, k).rest).more
  }

  /** The contract in every state gives the contract along every run. */
  lemma StableEverywhere<S(!new), T>(next: S -> Step<T, S>, zero: T, s: S)
    requires Stable(next, zero)
    ensures StableFrom(next, zero, s)
  {
  }

  /** Exhaustion is permanent: once pull `i` fails, every later pull fails
      with the zero value. */
  lemma {:induction false} StableForever<S, T>(next: S -> Step<T, S>, zero: T, s: S, i: nat, j: nat)
    requires StableFrom(next, zero, s)
    requires i <= j
    requires !Nth(next, s, i).more
    ensures !Nth(next, s, j).more && Nth(next, s, j).value == zero
    decreases j - i
  {
    if i < j {
      RunLast(next, s, i);
      StableForever(next, zero, s, i + 1, j);
    }
  }

  /** `s` yields exactly `xs`: pulls `0 .. |xs| - 1` succeed with the elements
      of `xs` in order, and pull `|xs|` is the first to fail. */
  ghost predicate Yields<S, T>(next: S -> Step<T, S>, s: S, xs: seq<T>)
  {
    && (forall i :: 0 <= i < |xs| ==> Nth(next, s, i).more && Nth(next, s, i).value == xs[i])
    && !Nth(next, s, |xs|).more
  }

  /** What an iterator yields is determined by where it stands. */
  lemma YieldsUnique<S, T>(next: S -> Step<T, S>, s: S, xs: seq<T>, ys: seq<T>)
    requires Yields(next, s, xs) && Yields(next, s, ys)
    ensures xs == ys
  {
    assert !Nth(next, s, |xs|).more && !Nth(next, s, |ys|).more;
  }

  /** Nothing is yielded exactly when the first pull fails. */
  lemma YieldsNil<S, T>(next: S -> Step<T, S>, s: S)
    ensures Yields(next, s, []) <==> !next(s).more
  {
  }

  /** `s` yields `[x] + xs` exactly when its first pull delivers `x` and the
      state it leaves yields `xs`. */
  lemma {:induction false} YieldsCons<S, T>(next: S -> Step<T, S>, s: S, x: T, xs: seq<T>)
    ensures Yields(next, s, [x] + xs)
        <==> next(s).more && next(s).value == x && Yields(next, next(s).rest, xs)
  {
    var s1 := next(s).rest;
    forall i: nat
      ensures Nth(next, s, i + 1) == Nth(next, s1, i)
    {
      assert Run(next, s, i + 1) == Run(next, s1, i);
    }
    if Yields(next, s, [x] + xs) {
      assert Nth(next, s, 0).more && Nth(next, s, 0).value == x;
      forall i | 0 <= i < |xs|
        ensures Nth(next, s1, i).more && Nth(next, s1, i).value == xs[i]
      {
        assert ([x] + xs)[i + 1] == xs[i];
      }
      assert Nth(next, s, |xs| + 1) == Nth(next, s1, |xs|);
    }
    if next(s).more && next(s).value == x && Yields(next, s1, xs) {
      forall i | 0 <= i < |[x] + xs|
        ensures Nth(next, s, i).more && Nth(next, s, i).value == ([x] + xs)[i]
      {
        if i > 0 {
          assert Nth(next, s, i) == Nth(next, s1, i - 1);
        }
      }
      assert Nth(next, s, |xs| + 1) == Nth(next, s1, |xs|);
    }
  }

  /** Pull `j + 1` from `s` is pull `j` from the state the first pull leaves. */
  lemma NthShift<S, T>(next: S -> Step<T, S>, s: S, j: nat)
    ensures Nth(next, s, j + 1) == Nth(next, next(s).rest, j)
  {
    assert Run(next, s, j + 1) == Run(next, next(s).rest, j);
  }

  /** Some pull from `s` has an outcome that `stop` accepts. */
  ghost predicate Reaches<S, T>(next: S -> Step<T, S>, s: S, stop: Step<T, S> -> bool)
  {
    exists k: nat :: stop(Nth(next, s, k))
  }

  /** A failed pull. */
  predicate Fails<T, S>(st: Step<T, S>)
  {
    !st.more
  }

  /** Some pull from `s` fails: exactly the iterators on which a loop that
      pulls until the first failure returns. */
  ghost predicate Ends<S, T>(next: S -> Step<T, S>, s: S)
  {
    Reaches(next, s, Fails)
  }

  /** If some pull is accepted by `stop`, a first such pull exists. */
  lemma {:induction false} LeastStop<S, T>(next: S -> Step<T, S>, s: S, stop: Step<T, S> -> bool, k: nat)
    requires stop(Nth(next, s, k))
    ensures exists d: nat :: d <= k && stop(Nth(next, s, d))
                             && forall j :: 0 <= j < d ==> !stop(Nth(next, s, j))
    decreases k
  {
    if exists j :: 0 <= j < k && stop(Nth(next, s, j)) {
      var j :| 0 <= j < k && stop(Nth(next, s, j));
      LeastStop(next, s, stop, j);
    } else {
      assert forall j :: 0 <= j < k ==> !stop(Nth(next, s, j));
    }
  }

  /** The number of pulls from `s` before the first one `stop` accepts. */
  ghost function Distance<S, T>(next: S -> Step<T, S>, s: S, stop: Step<T, S> -> bool): (d: nat)
    requires Reaches(next, s, stop)
    ensures stop(Nth(next, s, d))
    ensures forall j :: 0 <= j < d ==> !stop(Nth(next, s, j))
  {
    var k: nat :| stop(Nth(next, s, k));
    LeastStop(next, s, stop, k);
    var d: nat :| d <= k && stop(Nth(next, s, d)) && forall j :: 0 <= j < d ==> !stop(Nth(next, s, j));
    d
  }

  /** A pull that `stop` rejects brings the first accepted pull one closer. */
  lemma {:induction false} DistanceStep<S, T>(next: S -> Step<T, S>, s: S, stop: Step<T, S> -> bool)
    requires Reaches(next, s, stop)
    requires !stop(next(s))
    ensures Reaches(next, next(s).rest, stop)
    ensures Distance(next, next(s).rest, stop) == Distance(next, s, stop) - 1
  {
    var d := Distance(next, s, stop);
    var s1 := next(s).rest;
    assert Nth(next, s, 0) == next(s);
    forall j: nat
      ensures Nth(next, s, j + 1) == Nth(next, s1, j)
    {
      NthShift(next, s, j);
    }
    assert stop(Nth(next, s1, d - 1));
    var e := Distance(next, s1, stop);
    assert stop(Nth(next, s, e + 1));
  }

  /** An iterator that yields a finite sequence ends. */
  lemma YieldsEnds<S, T>(next: S -> Step<T, S>, s: S, xs: seq<T>)
    requires Yields(next, s, xs)
    ensures Ends(next, s)
  {
    assert Fails(Nth(next, s, |xs|));
  }

  /** A finite iterator: a rank that every successful pull strictly lowers.
      It is a convenient way to show that an iterator ends from every state;
      an infinite iterator has no such rank. */
  ghost predicate Ranked<S(!new), T>(next: S -> Step<T, S>, rank: S -> nat)
  {
    forall t :: next(t).more ==> rank(next(t).rest) < rank(t)
  }

  /** A ranked iterator fails within `rank(s)` successful pulls. */
  lemma {:induction false} RankedBound<S(!new), T>(next: S -> Step<T, S>, rank: S -> nat, s: S, xs: seq<T>)
    requires Ranked(next, rank)
    requires Yields(next, s, xs)
    ensures |xs| <= rank(s)
    decreases |xs|
  {
    if xs != [] {
      assert xs == [xs[0]] + xs[1..];
      YieldsCons(next, s, xs[0], xs[1..]);
      RankedBound(next, rank, next(s).rest, xs[1..]);
    }
  }

  /** A ranked iterator ends, from every state. */
  lemma {:induction false} RankedEnds<S(!new), T>(next: S -> Step<T, S>, rank: S -> nat, s: S)
    requires Ranked(next, rank)
    ensures Ends(next, s)
    decreases rank(s)
  {
    if next(s).more {
      RankedEnds(next, rank, next(s).rest);
      var k: nat :| Fails(Nth(next, next(s).rest, k));
      NthShift(next, s, k);
      assert Fails(Nth(next, s, k + 1));
    } else {
      assert Fails(Nth(next, s, 0));
    }
  }
}
