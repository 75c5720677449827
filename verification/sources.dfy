/** `FromSlice` (iters/iters.go): an iterator over a slice, whose private
    state is the slice and a cursor that starts at 0. A nil slice is the
    empty sequence here. */
module Sources {
  import opened Protocol

  /** The state captured by the `FromSlice` closure: the slice and the index
      of the next element to return. */
  datatype Cursor<T> = Cursor(slice: seq<T>, next: nat)

  /** One pull of a slice iterator: past the end it returns the zero value
      and leaves the cursor where it is; otherwise it returns the element
      under the cursor and advances the cursor by one. */
  function SliceNext<T>(zero: T, c: Cursor<T>): (r: Step<T, Cursor<T>>)
    ensures r.more <==> c.next < |c.slice|
    ensures r.rest.slice == c.slice
    ensures r.more ==> r.value == c.slice[c.next] && r.rest.next == c.next + 1
    ensures !r.more ==> r.value == zero && r.rest == c
  {
    if c.next >= |c.slice| then Step(zero, false, c)
    else Step(c.slice[c.next], true, Cursor(c.slice, c.next + 1))
  }

  /** How many elements a slice iterator still has to give. */
  function Left<T>(c: Cursor<T>): nat
  {
    if c.next >= |c.slice| then 0 else |c.slice| - c.next
  }

  /** `FromSlice(slice)`, with the zero value of the element type made
      explicit. The iterator ends from its start and is finite from every
      state, since every successful pull uses up one element. It keeps the
      `Next` contract: past the end every pull returns the zero value and
      changes nothing. */
  function FromSlice<T(!new)>(slice: seq<T>, zero: T): (it: Iter<Cursor<T>, T>)
    ensures it.state == Cursor(slice, 0)
    ensures Ends(it.next, it.state)
    ensures Ranked(it.next, Left)
    ensures Stable(it.next, zero)
  {
    var it := Iter(Cursor(slice, 0), c => SliceNext(zero, c));
    RankedEnds(it.next, Left, it.state);
    it
  }

  /** A slice iterator whose cursor is at `k` yields the rest of the slice,
      `slice[k..]`, in order. */
  lemma {:induction false} SliceYields<T>(zero: T, slice: seq<T>, k: nat)
    requires k <= |slice|
    ensures Yields((c: Cursor<T>) => SliceNext(zero, c), Cursor(slice, k), slice[k..])
    decreases |slice| - k
  {
    var next := (c: Cursor<T>) => SliceNext(zero, c);
    if k == |slice| {
      YieldsNil(next, Cursor(slice, k));
    } else {
      SliceYields(zero, slice, k + 1);
      assert slice[k..] == [slice[k]] + slice[k + 1..];
      YieldsCons(next, Cursor(slice, k), slice[k], slice[k + 1..]);
    }
  }
}
