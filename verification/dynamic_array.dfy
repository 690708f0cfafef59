/** The growable array.

    Its logical contents are the first `length` elements of a backing store;
    beyond them the store holds nothing, so the model keeps just those
    elements (`items`, with `length == |items|`). A separate `capacity`
    counter starts at 2 and doubles whenever an insert would exceed it.
    `get` and `set` are bounds-checked against the length, not the capacity,
    and are silently ignored out of range. */
module DynamicArrays {
  import opened Wrappers
  import Traversal

  datatype DynamicArray<T> = DynamicArray(items: seq<T>, capacity: nat)

  /** Capacities the growth policy can reach: 2, doubled any number of times. */
  predicate Reachable(c: nat)
    decreases c
  {
    c == 2 || (c > 2 && c % 2 == 0 && Reachable(c / 2))
  }

  /** The invariant: the contents fit the capacity, and the capacity is one
      the policy can reach. */
  predicate Valid<T>(a: DynamicArray<T>)
  {
    |a.items| <= a.capacity && Reachable(a.capacity)
  }

  /** Doubling a reachable capacity gives a reachable capacity, and no
      reachable capacity is below 2. */
  lemma ReachableDoubles(c: nat)
    requires Reachable(c)
    ensures c >= 2 && Reachable(2 * c)
  {
    assert (2 * c) / 2 == c;
  }

  function Length<T>(a: DynamicArray<T>): nat
  {
    |a.items|
  }

  /** `new DynamicArray()`: empty, with capacity 2. */
  function New<T>(): (r: DynamicArray<T>)
    ensures Valid(r) && Length(r) == 0 && r.capacity == 2
  {
    DynamicArray([], 2)
  }

  /** `guardCapacity`: makes room for one more element by doubling the
      capacity, and only when the next insert would exceed it. */
  function GuardCapacity<T>(a: DynamicArray<T>): (r: DynamicArray<T>)
    requires Valid(a)
    ensures Valid(r) && r.items == a.items
    ensures Length(a) + 1 <= r.capacity
    ensures r.capacity == if Length(a) + 1 > a.capacity then 2 * a.capacity else a.capacity
  {
    ReachableDoubles(a.capacity);
    if |a.items| + 1 <= a.capacity then a else a.(capacity := a.capacity * 2)
  }

  /** `get(index)`: the element at `index` for `0 <= index < length`, else
      nothing. */
  function Get<T>(a: DynamicArray<T>, index: int): (r: Option<T>)
    ensures 0 <= index < Length(a) ==> r == Some(a.items[index])
    ensures r == None <==> !(0 <= index < Length(a))
  {
    if index < 0 || index >= |a.items| then None else Some(a.items[index])
  }

  /** In range, `get` reads the element itself. */
  lemma GetReadsItems<T>(a: DynamicArray<T>)
    ensures forall i :: 0 <= i < Length(a) ==> Get(a, i) == Some(a.items[i])
  {
  }

  /** `set(index, value)`: replaces the element at an in-range index, and
      is a no-op otherwise; the length and capacity never change. */
  function Set<T>(a: DynamicArray<T>, index: int, value: T): (r: DynamicArray<T>)
    ensures Length(r) == Length(a) && r.capacity == a.capacity
    ensures forall i :: Get(r, i) == if i == index && 0 <= index < Length(a) then Some(value) else Get(a, i)
    ensures !(0 <= index < Length(a)) ==> r == a
  {
    if index < 0 || index >= |a.items| then a else a.(items := a.items[index := value])
  }

  /** `push(value)`: appends `value`, growing the capacity first if full. */
  function Push<T>(a: DynamicArray<T>, value: T): (r: DynamicArray<T>)
    requires Valid(a)
    ensures Valid(r) && r.capacity == GuardCapacity(a).capacity
    ensures r.items == a.items + [value]
  {
    var grown := GuardCapacity(a);
    grown.(items := grown.items + [value])
  }

  /** Built by pushes alone, an array's capacity is the least reachable one
      that holds its contents: 2, or less than twice the length. */
  predicate Tight<T>(a: DynamicArray<T>)
  {
    a.capacity == 2 || a.capacity < 2 * |a.items|
  }

  /** `fromArray(values)`: pushes the values in order onto a new array. */
  function FromArray<T>(values: seq<T>): (r: DynamicArray<T>)
    ensures Valid(r) && Tight(r)
    ensures r.items == values
    decreases |values|
  {
    if |values| == 0 then New()
    else
      var prefix := FromArray(values[..|values| - 1]);
      assert values == values[..|values| - 1] + [values[|values| - 1]];
      Push(prefix, values[|values| - 1])
  }

  /** `unshift(value)`: grows the capacity if full, moves every element one
      index right, starting from the back, and writes `value` at index 0. */
  method Unshift<T>(a: DynamicArray<T>, value: T) returns (r: DynamicArray<T>)
    requires Valid(a)
    ensures Valid(r) && r.capacity == GuardCapacity(a).capacity
    ensures r.items == [value] + a.items
  {
    var grown := GuardCapacity(a);
    var n := |a.items|;
    // Writing index n extends the store by one; that slot is overwritten
    // by the loop, or by the final store when the array was empty.
    var data := a.items + [value];
    var i := n;
    while i > 0
      invariant 0 <= i <= n
      invariant |data| == n + 1
      invariant forall k :: 0 <= k < i ==> data[k] == a.items[k]
      invariant forall k :: i < k <= n ==> data[k] == a.items[k - 1]
    {
      data := data[i := data[i - 1]];
      i := i - 1;
    }
    data := data[0 := value];
    r := DynamicArray(data, grown.capacity);
  }

  /** `pop()`: removes and returns the last element; on an empty array it
      returns nothing and the array stays empty. */
  function Pop<T>(a: DynamicArray<T>): (r: (Option<T>, DynamicArray<T>))
    requires Valid(a)
    ensures Length(a) == 0 ==> r == (None, a)
    ensures Length(a) > 0 ==> && r.0 == Some(a.items[Length(a) - 1])
                              && r.1.items + [a.items[Length(a) - 1]] == a.items
    ensures Valid(r.1) && r.1.capacity == a.capacity
  {
    if |a.items| <= 0 then (None, a)
    else
      var n := |a.items| - 1;
      (Some(a.items[n]), a.(items := a.items[..n]))
  }

  /** `shift()`: removes and returns the first element, moving every other
      element one index left; on an empty array it returns nothing and the
      array stays empty. */
  method Shift<T>(a: DynamicArray<T>) returns (value: Option<T>, r: DynamicArray<T>)
    requires Valid(a)
    ensures Length(a) == 0 ==> value == None && r == a
    ensures Length(a) > 0 ==> value == Some(a.items[0]) && [a.items[0]] + r.items == a.items
    ensures Valid(r) && r.capacity == a.capacity
  {
    if |a.items| <= 0 {
      return None, a;
    }
    var n := |a.items| - 1;
    var first := a.items[0];
    var data := a.items;
    var i := 0;
    while i < n
      invariant 0 <= i <= n
      invariant |data| == n + 1
      invariant forall k :: 0 <= k < i ==> data[k] == a.items[k + 1]
      invariant forall k :: i <= k <= n ==> data[k] == a.items[k]
    {
      data := data[i := data[i + 1]];
      i := i + 1;
    }
    // The stale copy left in the last slot is spliced away.
    value, r := Some(first), DynamicArray(data[..n], a.capacity);
  }

  /** Pushing then popping gives back the pushed value and the original
      contents; the capacity may have grown. */
  lemma PushThenPop<T>(a: DynamicArray<T>, value: T)
    requires Valid(a)
    ensures Pop(Push(a, value)).0 == Some(value)
    ensures Pop(Push(a, value)).1.items == a.items
  {
    assert (a.items + [value])[..|a.items|] == a.items;
  }

  /** Unshifting then shifting gives back the unshifted value and the
      original contents. */
  method UnshiftThenShift<T>(a: DynamicArray<T>, value: T) returns (first: Option<T>, r: DynamicArray<T>)
    requires Valid(a)
    ensures first == Some(value) && r.items == a.items
    ensures Valid(r) && r.capacity == GuardCapacity(a).capacity
  {
    var grown := Unshift(a, value);
    first, r := Shift(grown);
    assert [value] + r.items == [value] + a.items;
    assert r.items == ([value] + r.items)[1..];
  }

  /** `has(value)`: whether some element in `[0, length)` equals `value`. */
  function Has<T(==)>(a: DynamicArray<T>, value: T): (r: bool)
    ensures r <==> exists i :: 0 <= i < Length(a) && Get(a, i) == Some(value)
  {
    GetReadsItems(a);
    Traversal.Has(a.items, value)
  }

  /** The loop of `fill`: `set(i, value)` for i from `from` up to `stop`. */
  function FillFrom<T>(a: DynamicArray<T>, value: T, from: int, stop: int): (r: DynamicArray<T>)
    requires stop <= Length(a)
    ensures Length(r) == Length(a) && r.capacity == a.capacity
    ensures forall i :: Get(r, i) == if 0 <= i && from <= i < stop then Some(value) else Get(a, i)
    decreases stop - from
  {
    if stop <= from then a else FillFrom(Set(a, from, value), value, from + 1, stop)
  }

  /** `fill(value, start, end)`: goes through `set` for every index in
      `[start, min(end, length))`, so the elements in that range become
      `value`, indices outside `[0, length)` are ignored, and the length and
      capacity stay as they were. The defaults `start = 0` and
      `end = length` are passed explicitly. */
  function Fill<T>(a: DynamicArray<T>, value: T, start: int, end: int): (r: DynamicArray<T>)
    ensures Length(r) == Length(a) && r.capacity == a.capacity
    ensures forall i :: 0 <= i < Length(a) ==> r.items[i] == if start <= i < end then value else a.items[i]
  {
    var r := FillFrom(a, value, start, Traversal.Min(end, |a.items|));
    assert forall i :: 0 <= i < Length(a) ==> Get(r, i) == Some(r.items[i]) && Get(a, i) == Some(a.items[i]);
    r
  }

  /** `findIndex(predicate)`: the first index whose element satisfies the
      predicate, or -1. */
  function FindIndex<T>(a: DynamicArray<T>, p: (T, nat) -> bool): (r: int)
    ensures -1 <= r < Length(a)
    ensures r == -1 <==> forall i :: 0 <= i < Length(a) ==> !p(a.items[i], i)
    ensures 0 <= r ==> p(a.items[r], r) && forall i :: 0 <= i < r ==> !p(a.items[i], i)
  {
    Traversal.FindIndex(a.items, p)
  }

  /** `find(predicate)`: the element at the index `findIndex` reports, or
      nothing when no element matches. */
  function Find<T>(a: DynamicArray<T>, p: (T, nat) -> bool): (r: Option<T>)
    ensures r == if FindIndex(a, p) == -1 then None else Some(a.items[FindIndex(a, p)])
  {
    Traversal.Find(a.items, p)
  }

  /** `some(predicate)`: whether some element satisfies the predicate. */
  function Any<T>(a: DynamicArray<T>, p: (T, nat) -> bool): (r: bool)
    ensures r <==> exists i :: 0 <= i < Length(a) && p(a.items[i], i)
  {
    Traversal.Any(a.items, p)
  }

  /** `every(predicate)`: whether every element satisfies the predicate. */
  function All<T>(a: DynamicArray<T>, p: (T, nat) -> bool): (r: bool)
    ensures r <==> forall i :: 0 <= i < Length(a) ==> p(a.items[i], i)
  {
    Traversal.All(a.items, p)
  }

  /** `map(transformer)`: a new array, built by pushes, whose element i is the
      transformer applied to element i and index i. */
  function Map<T, U>(a: DynamicArray<T>, f: (T, nat) -> U): (r: DynamicArray<U>)
    ensures Valid(r) && Length(r) == Length(a)
    ensures forall i :: 0 <= i < Length(a) ==> r.items[i] == f(a.items[i], i)
  {
    FromArray(Traversal.Map(a.items, f))
  }

  /** `filter(predicate)`: a new array, built by pushes, of the matching
      elements in their original order. */
  function Filter<T>(a: DynamicArray<T>, p: (T, nat) -> bool): (r: DynamicArray<T>)
    ensures Valid(r) && Length(r) == |Traversal.Matches(a.items, p)| <= Length(a)
    ensures forall j :: 0 <= j < Length(r) ==> r.items[j] == a.items[Traversal.Matches(a.items, p)[j]]
  {
    FromArray(Traversal.Filter(a.items, p))
  }

  /** `reduce(reducer, initValue)`: the left fold of the elements from
      `initValue`. */
  function Reduce<T, U>(a: DynamicArray<T>, f: (U, T, nat) -> U, init: U): (r: U)
    ensures Length(a) == 0 ==> r == init
    ensures Length(a) > 0 ==>
              r == f(Reduce(a.(items := a.items[..Length(a) - 1]), f, init), a.items[Length(a) - 1], Length(a) - 1)
    decreases |a.items|
  {
    Traversal.Reduce(a.items, f, init)
  }
}
