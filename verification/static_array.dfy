/** The fixed-length static array.

    A static array is a store of exactly `length` slots fixed at
    construction. A slot that was never written reads as absent (`None`), as
    does every index outside `[0, length)`. Writes through `set` are
    bounds-checked and silently ignored out of range. Both copies of the
    class in the repository (the one the ring buffer uses and the older one
    the test file exercises) behave identically once the callbacks' snapshot
    argument is set aside, so one module models both. */
module StaticArrays {
  import opened Wrappers
  import Traversal

  /** The slots of the array; `|slots|` is the fixed length. */
  datatype StaticArray<T> = StaticArray(slots: seq<Option<T>>)

  function Length<T>(a: StaticArray<T>): nat
  {
    |a.slots|
  }

  /** `get(index)`: the stored value, or absent for an unset slot or an index
      outside `[0, length)`. */
  function Get<T>(a: StaticArray<T>, index: int): (r: Option<T>)
    ensures 0 <= index < Length(a) ==> r == a.slots[index]
    ensures !(0 <= index < Length(a)) ==> r == None
  {
    if 0 <= index < |a.slots| then a.slots[index] else None
  }

  /** In range, `get` reads the slot itself. */
  lemma GetReadsSlots<T>(a: StaticArray<T>)
    ensures forall i :: 0 <= i < Length(a) ==> Get(a, i) == a.slots[i]
  {
  }

  /** `new StaticArray(length)`: `length` slots, none of them set. */
  function New<T>(length: nat): (a: StaticArray<T>)
    ensures Length(a) == length
    ensures forall i :: Get(a, i) == None
  {
    StaticArray(seq(length, _ => None))
  }

  /** `set(index, value)`: writes slot `index` when it is in range and
      changes nothing otherwise; no other slot is touched. */
  function Set<T>(a: StaticArray<T>, index: int, value: T): (r: StaticArray<T>)
    ensures Length(r) == Length(a)
    ensures forall i :: Get(r, i) == if i == index && 0 <= index < Length(a) then Some(value) else Get(a, i)
    ensures !(0 <= index < Length(a)) ==> r == a
  {
    if 0 <= index && index < |a.slots| then StaticArray(a.slots[index := Some(value)]) else a
  }

  /** The loop of `fromArray`: `set(i, values[i])` for i from `from` on. */
  function SetFrom<T>(a: StaticArray<T>, values: seq<T>, from: nat): (r: StaticArray<T>)
    requires Length(a) == |values| && from <= |values|
    ensures Length(r) == Length(a)
    ensures forall i :: from <= i < |values| ==> Get(r, i) == Some(values[i])
    ensures forall i :: !(from <= i < |values|) ==> Get(r, i) == Get(a, i)
    decreases |values| - from
  {
    if from == |values| then a else SetFrom(Set(a, from, values[from]), values, from + 1)
  }

  /** `fromArray(values)`: an array of length |values| whose slot i holds
      values[i]. */
  function FromArray<T>(values: seq<T>): (r: StaticArray<T>)
    ensures Length(r) == |values|
    ensures forall i :: 0 <= i < |values| ==> Get(r, i) == Some(values[i])
  {
    SetFrom(New(|values|), values, 0)
  }

  /** `toArray()`: a copy of the slots, unset ones reading as absent. */
  function ToArray<T>(a: StaticArray<T>): (r: seq<Option<T>>)
    ensures |r| == Length(a)
    ensures forall i :: 0 <= i < |r| ==> r[i] == Get(a, i)
  {
    a.slots
  }

  /** Reading back a freshly built array gives every input value, in order. */
  lemma FromArrayToArray<T>(values: seq<T>)
    ensures ToArray(FromArray(values)) == seq(|values|, i requires 0 <= i < |values| => Some(values[i]))
  {
  }

  /** `has(value)`: whether some slot in `[0, length)` holds `value`. */
  function Has<T(==)>(a: StaticArray<T>, value: T): (r: bool)
    ensures r <==> exists i :: 0 <= i < Length(a) && Get(a, i) == Some(value)
  {
    GetReadsSlots(a);
    Traversal.Has(a.slots, Some(value))
  }

  /** The loop of `fill`: writes `value` into slots `from` up to `stop`. */
  function FillFrom<T>(a: StaticArray<T>, value: T, from: nat, stop: int): (r: StaticArray<T>)
    requires stop <= Length(a)
    ensures Length(r) == Length(a)
    ensures forall i :: Get(r, i) == if from <= i < stop then Some(value) else Get(a, i)
    decreases stop - from
  {
    if stop <= from then a else FillFrom(Set(a, from, value), value, from + 1, stop)
  }

  /** `fill(value, start, end)`: sets exactly the slots in
      `[start, min(end, length))`; an `end` past the length is clamped and
      every other slot keeps its content. The defaults `start = 0` and
      `end = length` are passed explicitly. */
  function Fill<T>(a: StaticArray<T>, value: T, start: nat, end: int): (r: StaticArray<T>)
    ensures Length(r) == Length(a)
    ensures forall i :: Get(r, i) == if start <= i < end && i < Length(a) then Some(value) else Get(a, i)
  {
    FillFrom(a, value, start, Traversal.Min(end, Length(a)))
  }

  /** Filling the same range twice is the same as filling it once. */
  lemma FillIdempotent<T>(a: StaticArray<T>, value: T, start: nat, end: int)
    ensures Fill(Fill(a, value, start, end), value, start, end) == Fill(a, value, start, end)
  {
    var once := Fill(a, value, start, end);
    var twice := Fill(once, value, start, end);
    assert forall i :: 0 <= i < Length(a) ==> twice.slots[i] == Get(twice, i) == Get(once, i) == once.slots[i];
  }

  /** `findIndex(predicate)`: the first position in `[0, length)` whose slot
      (absent when unset) satisfies the predicate, or -1. */
  function FindIndex<T>(a: StaticArray<T>, p: (Option<T>, nat) -> bool): (r: int)
    ensures -1 <= r < Length(a)
    ensures r == -1 <==> forall i :: 0 <= i < Length(a) ==> !p(Get(a, i), i)
    ensures 0 <= r ==> p(Get(a, r), r) && forall i :: 0 <= i < r ==> !p(Get(a, i), i)
  {
    GetReadsSlots(a);
    Traversal.FindIndex(a.slots, p)
  }

  /** `find(predicate)`: the content of the slot `findIndex` reports, or
      absent when no slot matches. */
  function Find<T>(a: StaticArray<T>, p: (Option<T>, nat) -> bool): (r: Option<T>)
    ensures r == if FindIndex(a, p) == -1 then None else Get(a, FindIndex(a, p))
  {
    match Traversal.Find(a.slots, p)
    case None => None
    case Some(slot) => slot
  }

  /** `some(predicate)`: whether some slot in `[0, length)` satisfies it. */
  function Any<T>(a: StaticArray<T>, p: (Option<T>, nat) -> bool): (r: bool)
    ensures r <==> exists i :: 0 <= i < Length(a) && p(Get(a, i), i)
  {
    GetReadsSlots(a);
    Traversal.Any(a.slots, p)
  }

  /** `every(predicate)`: whether every slot in `[0, length)` satisfies it. */
  function All<T>(a: StaticArray<T>, p: (Option<T>, nat) -> bool): (r: bool)
    ensures r <==> forall i :: 0 <= i < Length(a) ==> p(Get(a, i), i)
  {
    GetReadsSlots(a);
    Traversal.All(a.slots, p)
  }

  /** `map(transformer)`: a new array of the same length whose slot i is set
      to the transformer applied to slot i and index i. */
  function Map<T, U>(a: StaticArray<T>, f: (Option<T>, nat) -> U): (r: StaticArray<U>)
    ensures Length(r) == Length(a)
    ensures forall i :: 0 <= i < Length(a) ==> Get(r, i) == Some(f(Get(a, i), i))
  {
    GetReadsSlots(a);
    FromArray(Traversal.Map(a.slots, f))
  }

  /** `filter(predicate)`: a new array as long as the number of matching
      slots, holding the matching slots' contents in their original order. */
  function Filter<T>(a: StaticArray<T>, p: (Option<T>, nat) -> bool): (r: StaticArray<T>)
    ensures Length(r) == |Traversal.Matches(a.slots, p)| <= Length(a)
    ensures forall j :: 0 <= j < Length(r) ==> Get(r, j) == Get(a, Traversal.Matches(a.slots, p)[j])
    ensures forall i :: 0 <= i < Length(a) && p(Get(a, i), i) ==> i in Traversal.Matches(a.slots, p)
  {
    GetReadsSlots(a);
    StaticArray(Traversal.Filter(a.slots, p))
  }

  /** `reduce(reducer, initValue)`: the left fold of the slots from
      `initValue`. */
  function Reduce<T, U>(a: StaticArray<T>, f: (U, Option<T>, nat) -> U, init: U): (r: U)
    decreases |a.slots|
    ensures Length(a) == 0 ==> r == init
    ensures Length(a) > 0 ==>
              r == f(Reduce(StaticArray(a.slots[..Length(a) - 1]), f, init), Get(a, Length(a) - 1), Length(a) - 1)
  {
    Traversal.Reduce(a.slots, f, init)
  }
}
