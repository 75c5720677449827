# Lazy pull iterators of `iters` — a Dafny model

This project models the lazy iterator engine of the Go package `iters`:
the `Iter` pull contract, the slice source `FromSlice`, the function source
`FromFunc`, the combinators `Map`, `Filter` and `Take`, and the terminal
operations `ToSlice` and `Reduce`.

An iterator is an immutable value `Iter(state, next)`. `next` is a pure pull
function. It takes the current state and returns a `Step(value, more, rest)`.
`(value, more)` is the pair that Go's `Next()` returns, and `rest` is the state
that the next call continues from. In Go, each source and combinator is a
closure passed to `FromFunc` that captures some private mutable state:

- `FromSlice` captures a cursor, modelled as `Cursor(slice, next)`.
- `Take` captures a countdown, modelled as `Countdown(upstream, n)`.
- `Map` and `Filter` capture only the upstream iterator, so their state is the upstream state.

Go's zero value of a type parameter is passed explicitly as `zero`.
`FromFunc(f, init)` builds `Iter(init, f)`, so the Go wrapper type `iFunc` is
the `Iter` datatype itself, and its `Next` method is `Iter.Next`. The laws
about pulls hold for every iterator, including those built by `FromFunc`.

What is proved, in the library's own terms:

- **The `Next` contract.** `Stable(next, zero)` says that, in every state, a
  failed pull returns the zero value and the pull after it fails as well.
  `StableFrom(next, zero, s)` says the same only along the run from `s`.
  `StableForever` needs only the latter, and lifts it to every later pull.
  Every source and combinator keeps the every-state contract whenever its
  upstream does.
- **Finite iterators.** `Yields(next, s, xs)` says that pulls from `s` deliver
  `xs` in order and pull `|xs|` is the first to fail. `ToSlice` returns exactly
  that `xs`.
- **Laws against eager references.**
  - `Map` is `Seqs.Apply`: elementwise, with the same length.
  - `Filter` is `Seqs.Keep`: a subsequence in the original order.
  - `Take` is the prefix of length `min(max(n, 0), L)`.
  - `Reduce` is `Seqs.Fold`: a left fold, element first.
- **Pull counting.** `Map` makes exactly one upstream pull per pull. `Take` makes
  exactly `min(k, max(n, 0))` upstream pulls in its first `k` pulls, so it never
  over-pulls. This is shown directly, and also through a pull-counting wrapper.
- **Termination.** `Ends(next, s)` says that some pull from `s` fails.
  `ToSlice` and `Reduce` require exactly this, since the Go loops return
  precisely when a pull fails. `Distance` counts the pulls before the first
  failure and serves as their termination measure. A ghost rank that every
  successful pull lowers (`Ranked`) is a convenient way to show that an
  iterator ends from every state. `FromSlice` and `Take` have such a rank;
  `Take` has one over any upstream, infinite or not.
- **A `FromFunc` example.** `Down` is the pull function of a closure that
  counts an `int` down to 0. From a start `t >= 0`, `ToSlice` collects
  `[t, ..., 1]` and summing with `Reduce` gives `t(t + 1)/2`. This holds even
  though the countdown never ends from a negative state.
- **Behaviour the code fixes that a reading of the doc comments leaves open.**
  - `Take` decrements its countdown on every pull made while `n > 0`
    (iters/iters.go:119-124). This includes a pull where the upstream fails.
  - When the upstream is exhausted, `Filter` returns the upstream's own failed
    result, which is `(val, false)` (iters/iters.go:36-38). That value is the
    zero value only if the upstream keeps the contract.

## Model

| member | source | states |
|---|---|---|
| `Protocol.FromFunc` | iters/iters.go:58-63 | `FromFunc(f, init)` is an iterator whose `Next` calls `f` once: it returns `f`'s value and flag, and continues from the state `f` left |
| `Protocol.Iter.Next` | iters/iters.go:65-71 | `Next` is one call of the pull function: its value and flag are pull 0 from the current state, and the iterator it leaves stands after one pull |
| `Protocol.StableEverywhere` | iters/iters.go:13-18 | The `Next` contract in every state implies it along the run from any state |
| `Protocol.StableForever` | iters/iters.go:13-18 | Under the `Next` contract along the run from `s`, once a pull fails, every later pull also fails and returns the zero value; states no run from `s` reaches play no part |
| `Protocol.YieldsUnique` | iters/iters.go:9-28 | An iterator's state fixes the sequence it yields: two sequences that both describe its pulls are equal |
| `Protocol.RankedBound` | iters/iters.go:128-137 | An iterator whose rank every successful pull lowers succeeds at most `rank` times before its first failure |
| `Protocol.Distance` | iters/iters.go:140-146 | The number of pulls before the first pull with a given outcome: that pull has it, and no earlier pull has it |
| `Protocol.DistanceStep` | iters/iters.go:140-146 | A pull without the awaited outcome leaves a state whose first awaited pull is one pull closer; this is why the pulling loops end |
| `Protocol.RankedEnds` | iters/iters.go:128-137 | An iterator with a rank that every successful pull lowers ends from every state: some pull fails |
| `Sources.SliceNext` | iters/iters.go:76-83 | A slice pull succeeds exactly while the cursor is inside the slice, returns the element under the cursor and moves the cursor by one; past the end it returns the zero value and keeps the cursor |
| `Sources.FromSlice` | iters/iters.go:74-84 | A slice iterator starts at cursor 0, ends, is finite from every state, and keeps the `Next` contract |
| `Sources.SliceYields` | iters/iters.go:74-84 | A slice iterator with cursor `k` yields `slice[k..]`, in order, then fails |
| `Combinators.MapNext` | iters/iters.go:88-96 | A `Map` pull makes one upstream pull and keeps its success flag and state; it applies `f` to a real element and returns the zero value on failure |
| `Combinators.Map` | iters/iters.go:87-97 | `Map` starts where its upstream stands; each pull succeeds and leaves the state exactly as one upstream pull does, giving `f` of a real element and the zero value otherwise |
| `Combinators.MapPullsOnce` | iters/iters.go:87-97 | After `k` pulls, `Map` stands exactly where the upstream stands after `k` pulls, so each pull is one upstream pull |
| `Combinators.MapSkipsFunctionAtEnd` | iters/iters.go:89-93 | On a failed upstream pull, `f` is never consulted: any two functions give the same result, `(zero, false)` |
| `Combinators.MapYields` | iters/iters.go:87-97 | Over an upstream yielding `xs`, `Map` yields `f` of each element of `xs` in order, with the same length |
| `Combinators.MapStable` | iters/iters.go:87-97 | `Map` keeps the `Next` contract whenever its upstream does |
| `Combinators.MapEnds` | iters/iters.go:87-97 | `Map` of an iterator that ends ends too |
| `Combinators.MapRanked` | iters/iters.go:87-97 | `Map` of a ranked iterator is ranked by the same rank |
| `Combinators.FilterNext` | iters/iters.go:33-43 | From any state where some upstream pull fails or matches, a `Filter` pull returns the first such upstream pull; every upstream element before it was rejected, and an element returned with `true` satisfies the predicate |
| `Combinators.Filter` | iters/iters.go:32-44 | `Filter` starts where its upstream stands; each pull is the first upstream pull that fails or satisfies the predicate, so every element it delivers satisfies it |
| `Combinators.FilterYields` | iters/iters.go:32-44 | Over an upstream yielding `xs`, `Filter` yields exactly the elements of `xs` satisfying the predicate, in their original order |
| `Combinators.FilterStable` | iters/iters.go:32-44 | `Filter` keeps the `Next` contract whenever its upstream does: a failed `Filter` pull returns the zero value, and so does the next one |
| `Combinators.FilterRanked` | iters/iters.go:34-42 | Over a ranked upstream, the `Filter` loop ends from every state for every predicate, and `Filter` is ranked by the same rank |
| `Combinators.TakeNext` | iters/iters.go:118-125 | With the countdown at or below 0, a `Take` pull returns `(zero, false)` and changes nothing, upstream included; otherwise it decrements the countdown and passes one upstream pull through unchanged |
| `Combinators.Take` | iters/iters.go:117-126 | `Take(it, n)` starts with countdown `n`, ends, and is finite from every state over any upstream, even an infinite one |
| `Combinators.TakeRun` | iters/iters.go:110-126 | In its first `k` pulls, `Take` pulls upstream exactly `min(k, max(n, 0))` times, and never when `n <= 0` |
| `Combinators.TakeNth` | iters/iters.go:110-126 | While `k < n`, pull `k` of `Take` is upstream pull `k`; every later pull fails with the zero value and leaves the upstream alone |
| `Combinators.TakeYields` | iters/iters.go:115-126 | Over an upstream yielding `xs`, `Take(it, n)` yields `xs[..min(max(n, 0), len xs)]` |
| `Combinators.TakeStable` | iters/iters.go:117-126 | `Take` keeps the `Next` contract whenever its upstream does |
| `Terminals.ToSlice` | iters/iters.go:138-147 | For any iterator that ends, `ToSlice` returns the values of the successful pulls before the first failure, in arrival order; its length is the number of those pulls |
| `Terminals.Reduce` | iters/iters.go:100-108 | For any iterator that ends, `Reduce` is the left fold `acc := f(x, acc)` (element first) over what `ToSlice` would collect |
| `Seqs.FoldSnoc` | iters/iters.go:100-108 | The fold that `Reduce` computes runs left to right: the last element is combined outermost |
| `Laws.ToSliceIsYield` | iters/iters.go:138-147 | `ToSlice` of an iterator that yields a finite sequence equals that sequence |
| `Laws.SliceRoundTrip` | iters/iters_test.go:28-34 | `ToSlice(FromSlice(s)) == s` for every slice, the empty one included |
| `Laws.DownYields` | iters/iters.go:58-71 | The countdown pull function over `int`, started at `t >= 0`, yields `t, t - 1, ..., 1` and then fails |
| `Laws.DownRun` | iters/iters.go:58-71 | After `k` pulls from `t >= 0`, the countdown stands at `t - k`, or at 0 once it has run out |
| `Laws.DownStable` | iters/iters.go:13-18 | The countdown keeps the `Next` contract along its run from any `t >= 0`: a failed pull returns 0 and the next pull fails too |
| `Laws.CountdownToSlice` | iters/iters.go:138-147 | `ToSlice(FromFunc(Down, t))` is `[t, ..., 1]`, although `Down` never ends from negative states |
| `Laws.DownSum` | iters/iters.go:100-108 | Folding `acc + x` over `t, ..., 1` adds `t(t + 1)/2` to the seed |
| `Laws.CountdownSum` | iters/iters.go:100-108 | `Reduce` with `acc + x` from 0 over `FromFunc(Down, t)` gives `t(t + 1)/2` |
| `Laws.MapToSlice` | iters/iters.go:87-97 | `ToSlice(Map(it, f))` is the elementwise image under `f` of `ToSlice(it)` |
| `Laws.MapSlice` | iters/iters_test.go:36-41 | `Map` over a slice collects to `f` of each element, in order, with the same length |
| `Laws.FilterEnds` | iters/iters.go:32-44 | Where the `Filter` loop returns from every state, `Filter` of an iterator that ends ends too |
| `Laws.FilterToSlice` | iters/iters.go:32-44 | `ToSlice(Filter(it, p))` is the subsequence of `ToSlice(it)` whose elements satisfy `p` |
| `Laws.FilterSlice` | iters/iters.go:32-44 | `Filter` over a slice collects to the elements of the slice satisfying `p`, in order |
| `Laws.TakeToSlice` | iters/iters.go:117-126 | `ToSlice(Take(it, n))` is the prefix of length `min(max(n, 0), L)` of `ToSlice(it)` |
| `Laws.TakeSlice` | iters/iters_test.go:43-51 | `Take` over a slice collects to `s[..min(max(n, 0), len s)]`, which is empty for `n <= 0` |
| `Laws.TakeAtMost` | iters/iters.go:128-132 | Over any upstream, finite or infinite, `Take(it, n)` collects at most `max(n, 0)` elements |
| `Laws.TakeOfUnbounded` | iters/iters.go:110-116 | Over an upstream that never fails, `Take(it, n)` collects exactly its first `n` pulls, in order |
| `Laws.ReduceSlice` | iters/iters.go:100-108 | `Reduce` over a slice is the left fold of the slice, element first |
| `Laws.ReduceEmpty` | iters/iters.go:101-105 | `Reduce` of an iterator whose first pull fails returns the seed unchanged |
| `Laws.ReduceSum` | iters/iters.go:100-108 | Summing `[3, 4, 5]` with `(x, acc) => acc + x` from 0 gives 12 |
| `Laws.TakeNeverOverPulls` | iters/iters.go:110-113 | After `k` pulls of `Take(it, n)`, the counted upstream has been pulled exactly `min(k, max(n, 0))` times: never more than `max(n, 0)`, and never more than `Take` itself |

## Left out

- `FromChannel` (iters/iters.go:46-56) is not modelled. Its pull is a blocking channel receive between goroutines. Any finite sequence it would deliver can be modelled as a slice source.
- implementation/channel_test.go is not part of this model. It tests a channel type whose implementation is not available, and seven of its eight tests start a producer goroutine.
- `FromFunc` with a general effectful Go closure: a closure is modelled only as a pure pull function over an explicit state.
- The hang of `ToSlice` and `Reduce` on an iterator from which no pull ever fails is not modelled. Both operations require `Ends` instead, which holds exactly when the Go loops return.
- Combinators.Filter: the model builds a compiled pull function that must return a value in every state, so it requires the `Filter` loop to return from every state of the upstream's state type (`Settles`), not only from the states a run can reach. For example, with `Down` over `int` started at 3 and the predicate `x => false`, Go's `Filter` answers `(0, false)` after three pulls. The model cannot build that `Filter`, because from a negative state the loop never returns. `FilterNext` itself requires only that the loop returns from the state it is pulled in.
- Go's zero value of a type parameter is an explicit `zero` argument. The nil/non-nil distinction of slices is not represented: a nil slice is the empty sequence, and `ToSlice`'s empty result is the empty sequence.
- The `constraints.Integer` genericity of `Take`'s count: it is an unbounded `int`. The count is decremented only while positive, so no width ever matters.
- Aliasing: `FromSlice` captures the caller's slice, which the caller could mutate during iteration. The model's slice is an immutable value.
- Shared iterators: in Go, `Next` advances the iterator in place, and everyone holding it sees the change. For example, after `ToSlice(Take(it, 1))` over `FromSlice([1, 2, 3])`, a later `ToSlice(it)` gives `[2, 3]`. In the model an iterator is a value and its state is threaded explicitly, so `ToSlice(it)` still gives `[1, 2, 3]`. The partly consumed upstream is reachable only as the `upstream` field of `Take`'s final state (`TakeRun`). Sharing one iterator between holders is not modelled.
- Thread safety and concurrent pulls are not modelled; the model is single-threaded.
- Combinators.MapStable, Combinators.FilterStable, Combinators.TakeStable: these assume the `Next` contract for every state of the upstream pull function, not only for the states a run can reach. This is a sufficient condition and is stronger than what the source asks of custom iterators.
- State types of `Map`, `Filter` and `Take`, and element types of `FromSlice`, are restricted to types without references (`!new`), because their contracts quantify over all states.
