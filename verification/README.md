# Sequential containers: a Dafny model

This project models the core of a small TypeScript container library. It
covers a fixed-capacity ring buffer, a fixed-length static array (both
copies of the class), a growable dynamic array and a doubly linked list.
Every container is an immutable Dafny datatype. Every mutating method
becomes a function, or a method with loops, that returns the new state. An
operation that throws returns a `Result`. An operation that returns
`T | undefined` returns an `Option`.

Each container has an abstract view as a sequence, and the contracts are
stated against that view:

- Ring buffer: `RingBuffers.ToArray`, the `length` logical elements read from
  `head`, wrapping modulo `capacity`.
- Static array: the slots themselves, as `seq<Option<T>>`. An unset slot
  reads as `None`.
- Dynamic array: the first `length` elements (`items`).
- Linked list: `LinkedLists.Values`, the values met along the `next` chain
  from `head`. The chain's node positions are found by a ghost `Order`.

Files and modules:

| file | module | models |
|---|---|---|
| wrappers.dfy | `Wrappers` | `Option` (for `undefined`) and `Result` (for a thrown error) |
| traversal.dfy | `Traversal` | the linear scans shared by the array classes: `findIndex`, `find`, `some`, `every`, `has`, `map`, `filter`, `reduce` |
| static_array.dfy | `StaticArrays` | `lib/static-array/static-array.ts` and `lib/static-array.ts` |
| ring_buffer.dfy | `RingBuffers` | `lib/ring-buffer/ring-buffer.ts` |
| dynamic_array.dfy | `DynamicArrays` | `lib/dynamic-array/dynamic-array.ts` |
| linked_list.dfy | `LinkedLists` | `lib/linked-list/linked-list.ts` |

The two static-array copies behave the same once the callbacks' third
argument is dropped. The newer copy passes a `toArray()` snapshot and the
older copy passes `this`. The newer copy also adds `toArray`. So
`StaticArrays` models both classes. Its rows below cite the newer copy, and
the `Traversal` rows cite the older copy, whose loops are the same:

| operation | lib/static-array/static-array.ts | lib/static-array.ts |
|---|---|---|
| constructor | 7-10 | 5-8 |
| fromArray | 12-18 | 10-16 |
| get / set | 24-32 | 18-26 |
| has | 34-39 | 28-33 |
| fill | 41-45 | 35-39 |
| find / findIndex / some / every | 47-72 | 41-66 |
| map / filter / reduce | 80-104 | 74-101 |

`some` and `every` are named `Any` and `All`, because `Some` is the
`Option` constructor. Optional parameters with defaults (`fill`'s `start`
and `end`, `insert`'s `index`) are passed explicitly. The ring buffer's
optional `fromArray` capacity is a `nat` in which 0 means "omitted": the
source uses `capacity || values.length`, and that expression treats 0 and
a missing value alike.

## Model

| member | source | states |
|---|---|---|
| Traversal.FindIndexFrom | lib/static-array.ts:47-52 | the scan from a start position returns -1 exactly when no later position matches, and otherwise the first matching position |
| Traversal.FindIndex | lib/static-array.ts:47-52 | `findIndex` returns -1 iff no element satisfies the predicate; otherwise it returns a matching index with no match before it |
| Traversal.Find | lib/static-array.ts:41-45 | `find` returns nothing iff no element matches; otherwise it returns the element at the first matching position |
| Traversal.AnyFrom | lib/static-array.ts:54-59 | the scan of `some` from a start position is true iff some later position matches |
| Traversal.Any | lib/static-array.ts:54-59 | `some` is true iff some element satisfies the predicate |
| Traversal.AllFrom | lib/static-array.ts:61-66 | the scan of `every` from a start position is true iff every later position matches |
| Traversal.All | lib/static-array.ts:61-66 | `every` is true iff all elements satisfy the predicate (true of an empty array) |
| Traversal.AnyAllFindIndexAgree | lib/static-array.ts:47-66 | `every p` is the negation of `some (not p)`, and `some p` holds iff `findIndex p` finds a position |
| Traversal.HasFrom | lib/static-array.ts:28-33 | the equality scan from a start position is true iff a later position holds the value |
| Traversal.Has | lib/static-array.ts:28-33 | `has(v)` is true iff `v` occurs among the elements |
| Traversal.MapFrom | lib/static-array.ts:74-80 | from a start position, the transformed elements keep their order, and each is the transformer applied to element and index |
| Traversal.Map | lib/static-array.ts:74-80 | the result of `map` has the input's length, and position i is the transformer applied to element i and index i |
| Traversal.MatchesFrom | lib/static-array.ts:82-90 | the matching positions from a start on are strictly ascending and in range, each satisfies the predicate, and none is missed |
| Traversal.Matches | lib/static-array.ts:82-90 | exactly the matching positions, ascending, each once |
| Traversal.FilterFrom | lib/static-array.ts:84-88 | the elements the filter loop pushes from a start on are the elements at the matching positions, in order |
| Traversal.Filter | lib/static-array.ts:82-90 | the result of `filter` is as long as the number of matches, which is at most the input's length, and holds the matching elements in their original order |
| Traversal.MatchesLength | lib/static-array.ts:82-90 | there are never more matches than positions scanned |
| Traversal.Reduce | lib/static-array.ts:92-101 | the accumulator loop of `reduce` equals the reference left fold `FoldLeft` from `initValue` |
| Traversal.ReduceIsFoldLeft | lib/static-array.ts:96-99 | after the first k elements the accumulator is the fold of that prefix, so the whole loop computes the fold |
| StaticArrays.Get | lib/static-array/static-array.ts:24-26 | `get(i)` returns the slot's content (absent when never set) for `0 <= i < length`, and absent for every index outside that range |
| StaticArrays.GetReadsSlots | lib/static-array/static-array.ts:24-26 | an in-range `get` reads the slot itself |
| StaticArrays.New | lib/static-array/static-array.ts:7-10 | the length is the one given, and every index reads as unset |
| StaticArrays.Set | lib/static-array/static-array.ts:28-32 | the length is unchanged; an in-range index gets the value and no other slot changes; an out-of-range index (negative or at least the length) leaves the array unchanged |
| StaticArrays.SetFrom | lib/static-array/static-array.ts:14-16 | the `fromArray` loop from position `from` sets each later slot to its value and leaves the earlier ones alone |
| StaticArrays.FromArray | lib/static-array/static-array.ts:12-18 | the length is the number of values, and `get(i)` returns `values[i]` |
| StaticArrays.ToArray | lib/static-array/static-array.ts:20-22 | `toArray` has the array's length, and position i is what `get(i)` returns |
| StaticArrays.FromArrayToArray | lib/static-array/static-array.ts:12-22 | reading back a freshly built array gives every input value in order |
| StaticArrays.Has | lib/static-array/static-array.ts:34-39 | `has(v)` iff some index in `[0, length)` reads `v` |
| StaticArrays.FillFrom | lib/static-array/static-array.ts:42-44 | the fill loop sets exactly the slots in `[from, stop)` and leaves all others unchanged |
| StaticArrays.Fill | lib/static-array/static-array.ts:41-45 | `fill` sets exactly the slots in `[start, min(end, length))`; an `end` past the length is clamped; every other slot and the length are unchanged |
| StaticArrays.FillIdempotent | lib/static-array/static-array.ts:41-45 | filling the same range twice equals filling it once |
| StaticArrays.FindIndex | lib/static-array/static-array.ts:53-58 | the first position whose slot (unset reads as absent) satisfies the predicate, or -1 iff there is none |
| StaticArrays.Find | lib/static-array/static-array.ts:47-51 | absent when `findIndex` gives -1, otherwise the content of the slot at that position |
| StaticArrays.Any | lib/static-array/static-array.ts:60-65 | `some` iff some slot in `[0, length)` satisfies the predicate |
| StaticArrays.All | lib/static-array/static-array.ts:67-72 | `every` iff all slots in `[0, length)` satisfy the predicate |
| StaticArrays.Map | lib/static-array/static-array.ts:80-86 | same length, and slot i holds the transformer applied to slot i and index i |
| StaticArrays.Filter | lib/static-array/static-array.ts:88-96 | the length is the number of matching slots; slot j holds the content of the j-th match; every match is included |
| StaticArrays.Reduce | lib/static-array/static-array.ts:98-104 | `initValue` on an empty array; otherwise the reducer applied to the reduction of all but the last slot, the last slot and its index |
| RingBuffers.Length | lib/ring-buffer/ring-buffer.ts:26-32 | the derived length is at most the capacity; it is 0 iff the cursors meet with the flag clear; it is the capacity iff the flag is set (or the capacity is 0) |
| RingBuffers.ToArray | lib/ring-buffer/ring-buffer.ts:34-41 | `toArray` has `length` elements, and element i is the slot at `(head + i) % capacity` |
| RingBuffers.NextIndex | lib/ring-buffer/ring-buffer.ts:76-78 | the next cursor stays below the capacity and wraps from `capacity - 1` to 0 |
| RingBuffers.PrevIndex | lib/ring-buffer/ring-buffer.ts:80-82 | the previous cursor stays below the capacity and is the one whose next is the given cursor |
| RingBuffers.CursorStepsInverse | lib/ring-buffer/ring-buffer.ts:76-82 | stepping a cursor forward and back, in either order, returns it to where it was |
| RingBuffers.TailSlot | lib/ring-buffer/ring-buffer.ts:26-32 | the tail cursor is the slot `length` positions after the head |
| RingBuffers.LengthFromOffset | lib/ring-buffer/ring-buffer.ts:26-32 | a tail `n` positions after the head, with the flag set iff `n` is the capacity, gives a derived length of `n` |
| RingBuffers.IncrementTail | lib/ring-buffer/ring-buffer.ts:84-87 | advancing the tail (setting the flag when it meets the head) keeps the cursor invariant and adds one to the length |
| RingBuffers.DecrementTail | lib/ring-buffer/ring-buffer.ts:89-92 | retreating the tail (clearing the flag) keeps the invariant, removes one from the length, and lands on the last element's slot |
| RingBuffers.IncrementHead | lib/ring-buffer/ring-buffer.ts:94-97 | advancing the head (clearing the flag) keeps the invariant, removes one from the length, and moves every logical position down by one |
| RingBuffers.DecrementHead | lib/ring-buffer/ring-buffer.ts:99-102 | retreating the head (setting the flag when it meets the tail) keeps the invariant, adds one to the length, and moves every old logical position up by one |
| RingBuffers.GuardCapacity | lib/ring-buffer/ring-buffer.ts:104-108 | raises a `RangeError` with the overflow message iff the buffer is at capacity |
| RingBuffers.New | lib/ring-buffer/ring-buffer.ts:10-16 | a new buffer satisfies the invariant, has the given capacity and is empty |
| RingBuffers.PushedView | lib/ring-buffer/ring-buffer.ts:43-47 | below capacity, writing at the tail and advancing it keeps the invariant (every logical slot set) and appends the value to the contents |
| RingBuffers.Push | lib/ring-buffer/ring-buffer.ts:43-47 | fails with the overflow `RangeError` iff the buffer is full; otherwise the contents become `old + [value]` with the capacity kept |
| RingBuffers.UnshiftedView | lib/ring-buffer/ring-buffer.ts:49-53 | below capacity, retreating the head and writing there keeps the invariant and prepends the value to the contents |
| RingBuffers.Unshift | lib/ring-buffer/ring-buffer.ts:49-53 | fails with the overflow `RangeError` iff the buffer is full; otherwise the contents become `[value] + old` |
| RingBuffers.Pop | lib/ring-buffer/ring-buffer.ts:55-59 | empty: nothing, buffer unchanged; otherwise returns the last element and the contents lose it |
| RingBuffers.Shift | lib/ring-buffer/ring-buffer.ts:61-66 | empty: nothing, buffer unchanged; otherwise returns the first element and the contents lose it |
| RingBuffers.Flush | lib/ring-buffer/ring-buffer.ts:68-74 | returns the old contents front to back and leaves an empty, valid buffer of the same capacity |
| RingBuffers.PushAll | lib/ring-buffer/ring-buffer.ts:20-22 | pushing a sequence succeeds iff it fits, appending it in order; otherwise the overflow error propagates |
| RingBuffers.FromArray | lib/ring-buffer/ring-buffer.ts:18-24 | the capacity is the one given, or `values.length` when it is omitted or 0; succeeds iff the values fit, and then the contents are `values` |
| RingBuffers.FlushIsToArray | lib/ring-buffer/ring-buffer.ts:34-74 | `flush` returns what `toArray` shows and leaves a buffer whose `toArray` is empty |
| RingBuffers.PushThenPop | lib/ring-buffer/ring-buffer.ts:43-59 | below capacity, a push followed by a pop returns the pushed value and restores the contents |
| RingBuffers.UnshiftThenShift | lib/ring-buffer/ring-buffer.ts:49-66 | below capacity, an unshift followed by a shift returns the value and restores the contents |
| DynamicArrays.ReachableDoubles | lib/dynamic-array/dynamic-array.ts:14-17 | doubling a reachable capacity gives a reachable capacity, and no reachable capacity is below 2 |
| DynamicArrays.New | lib/dynamic-array/dynamic-array.ts:8-12 | empty, capacity 2, invariant holds |
| DynamicArrays.GuardCapacity | lib/dynamic-array/dynamic-array.ts:14-22 | the capacity doubles exactly when `length + 1` exceeds it, and afterwards there is room for one more element; the contents are unchanged |
| DynamicArrays.Get | lib/dynamic-array/dynamic-array.ts:36-39 | bounds-checked against the length, not the capacity: `get(i)` returns element i exactly when `0 <= i < length`, and nothing otherwise |
| DynamicArrays.GetReadsItems | lib/dynamic-array/dynamic-array.ts:36-39 | an in-range `get` returns the element |
| DynamicArrays.Set | lib/dynamic-array/dynamic-array.ts:41-44 | bounds-checked against the length, not the capacity: an in-range index changes only that element; out of range the array is unchanged |
| DynamicArrays.Push | lib/dynamic-array/dynamic-array.ts:46-50 | contents become `old + [value]`, the capacity is the guarded one, and the invariant holds |
| DynamicArrays.FromArray | lib/dynamic-array/dynamic-array.ts:24-30 | contents are `values`, and the capacity is the least the doubling policy reaches (2, or under twice the length) |
| DynamicArrays.Unshift | lib/dynamic-array/dynamic-array.ts:52-59 | after the guard and the back-to-front shifting loop, contents are `[value] + old` |
| DynamicArrays.Pop | lib/dynamic-array/dynamic-array.ts:61-67 | empty: nothing, array unchanged; otherwise the last element is returned and dropped, capacity kept |
| DynamicArrays.Shift | lib/dynamic-array/dynamic-array.ts:69-78 | empty: nothing, array unchanged; otherwise the first element is returned and the front-to-back loop leaves the rest, in order |
| DynamicArrays.PushThenPop | lib/dynamic-array/dynamic-array.ts:46-67 | a push followed by a pop returns the pushed value and the original contents |
| DynamicArrays.UnshiftThenShift | lib/dynamic-array/dynamic-array.ts:52-78 | an unshift followed by a shift returns the value and the original contents |
| DynamicArrays.Has | lib/dynamic-array/dynamic-array.ts:80-85 | `has(v)` iff some index in `[0, length)` holds `v` |
| DynamicArrays.FillFrom | lib/dynamic-array/dynamic-array.ts:88-90 | the loop of `set` calls over `[from, stop)` changes exactly the in-range indices of that interval |
| DynamicArrays.Fill | lib/dynamic-array/dynamic-array.ts:87-91 | elements with index in `[start, end)` become `value` and all others keep theirs; length and capacity unchanged, negative positions ignored |
| DynamicArrays.FindIndex | lib/dynamic-array/dynamic-array.ts:100-105 | the first matching index, or -1 iff none matches |
| DynamicArrays.Find | lib/dynamic-array/dynamic-array.ts:93-98 | nothing when `findIndex` gives -1, otherwise the element at that index |
| DynamicArrays.Any | lib/dynamic-array/dynamic-array.ts:107-112 | `some` iff some element matches |
| DynamicArrays.All | lib/dynamic-array/dynamic-array.ts:114-119 | `every` iff all elements match |
| DynamicArrays.Map | lib/dynamic-array/dynamic-array.ts:127-133 | a valid array of the same length whose element i is the transformer of element i and index i |
| DynamicArrays.Filter | lib/dynamic-array/dynamic-array.ts:135-143 | a valid array of the matching elements in their original order, as many as there are matches |
| DynamicArrays.Reduce | lib/dynamic-array/dynamic-array.ts:145-151 | `initValue` on an empty array; otherwise the reducer applied to the reduction of the prefix, the last element and its index |
| LinkedLists.ChainUnique | lib/linked-list/linked-list.ts:24-32 | the chain of `next` links from a start node is unique, so the list's contents are well defined |
| LinkedLists.ChainRest | lib/linked-list/linked-list.ts:27-30 | after its first node, a chain continues from that node's `next` |
| LinkedLists.OrderIs | lib/linked-list/linked-list.ts:24-32 | any chain of a list is its chain |
| LinkedLists.LengthAgrees | lib/linked-list/linked-list.ts:12-109 | `length` counts the nodes on the chain, and `head` is absent iff `tail` is absent iff `length` is 0 |
| LinkedLists.Empty | lib/linked-list/linked-list.ts:12-14 | a new list is valid and empty |
| LinkedLists.Collect | lib/linked-list/linked-list.ts:25-31 | the `toArray` walk collects the values along the chain, in order |
| LinkedLists.ToArray | lib/linked-list/linked-list.ts:24-32 | `toArray` returns the contents head first, `length` of them |
| LinkedLists.NodeAt | lib/linked-list/linked-list.ts:37-42 | walking `index` links from the head reaches the index-th node of the chain |
| LinkedLists.Get | lib/linked-list/linked-list.ts:34-45 | the index-th value for `0 <= index < length`, otherwise nothing (also on an empty list) |
| LinkedLists.Set | lib/linked-list/linked-list.ts:47-58 | in range, replaces only the index-th value; out of range, the list is unchanged |
| LinkedLists.GetAfterSet | lib/linked-list/linked-list.ts:34-58 | after `set(i, v)`, `get(i)` is `v` and every other index reads as before |
| LinkedLists.Prepend | lib/linked-list/linked-list.ts:60-73 | contents become `[value] + old` and `length` grows by one, also on an empty list |
| LinkedLists.PrependChain | lib/linked-list/linked-list.ts:70-72 | linking a new head in front of the old head extends the chain at the front |
| LinkedLists.Append | lib/linked-list/linked-list.ts:75-88 | contents become `old + [value]` and `length` grows by one, also on an empty list |
| LinkedLists.AppendChain | lib/linked-list/linked-list.ts:85-87 | linking a new node after the old tail extends the chain at the back |
| LinkedLists.Insert | lib/linked-list/linked-list.ts:90-109 | for `0 <= index <= length` the value ends up at position `index` with the rest in order and `length` one larger; any other index changes nothing |
| LinkedLists.SpliceIndex | lib/linked-list/linked-list.ts:104-108 | the positions of a sequence with one element spliced in at `index` |
| LinkedLists.InsertChain | lib/linked-list/linked-list.ts:97-108 | splicing a node in after the `(index-1)`-th node yields the chain with the new node at position `index` and the matching values |
| LinkedLists.InsertLinks | lib/linked-list/linked-list.ts:104-108 | the splice keeps every other link and leaves a distinct, correctly terminated chain |
| LinkedLists.InsertValues | lib/linked-list/linked-list.ts:104-108 | the values along the spliced chain are the old values with the new value at `index` |
| LinkedLists.FromArray | lib/linked-list/linked-list.ts:16-22 | appending the values in order to an empty list gives a valid list with contents `values` |
| LinkedLists.FromArrayToArray | lib/linked-list/linked-list.ts:16-32 | `toArray(fromArray(values))` is `values` |

## Left out

- `forEach` (all classes): its only effect is through the callback, and callbacks here are pure functions, so it has no observable result.
- The third callback argument (a `toArray()` snapshot or the container itself) is not passed. A pure callback that inspected it could only see the unchanged container.
- Non-integer indices, a negative `start` for the static array's `fill`, and a negative capacity are left out. JavaScript would treat them as property writes or raise on allocation. The static array's `fill` therefore takes a `nat` start, and capacities are `nat`.
- DynamicArrays.GuardCapacity: the source allocates and fills a larger backing array and then discards it, so it is never observable. Only the capacity counter is modelled.
- The exact output of the dynamic array's `toArray` is not modelled. It spreads the backing array, so it returns the contents followed by whatever remains of the never-written holes of the initial two-slot allocation: zero to two `undefined` entries, because each `splice` in `pop`/`shift` also shortens the backing array. It never shows a stale value: `pop` and `shift` splice the leftover copy away, and `push`/`unshift` write only at index `length`, which becomes part of the contents.
- `has` compares with `===`, and the model compares with Dafny's `==` on `T`. The two differ for `NaN`: `fromArray([NaN]).has(NaN)` is false in the source, and the model, having no `NaN`, cannot express it.
- `undefined` as a stored value or argument is not modelled. The element type `T` has no `undefined`. In the source, `set(i, undefined)` or `push(undefined)` leaves a slot that reads exactly like a never-set one, and `new StaticArray(3).has(undefined)` is true because a hole reads as `undefined`. In the model, a written value is always `Some(v)`, distinct from an unset `None`, and `has` looks only for written values.
- JavaScript's array-length limit is not modelled: `new Array(n)` throws a `RangeError` for `n >= 2^32`, so the static array and ring buffer constructors fail there. `StaticArrays.New` and `RingBuffers.New` accept any `nat`.
- LinkedLists: `prev` links are written where the source writes them, but their consistency is not claimed. The middle splice in `insert` never updates the following node's `prev`.
- A thrown `RangeError` is an `Err` that carries no buffer. The caller keeps its old state, which matches the source, because the guard runs before any mutation.
- The stack, the queue, the shared callback types and the utilities are not part of this model.
