/** The fixed-capacity, double-ended ring buffer.

    The buffer keeps its elements in a static array of `capacity` slots. Two
    cursors taken modulo `capacity` mark the logical front (`head`, the first
    element) and back (`tail`, the slot after the last element). An explicit
    `isFull` flag tells a full buffer from an empty one when the cursors
    meet, so all `capacity` slots are usable. The length is derived from
    this state and never stored. Inserting into a full buffer fails with a
    `RangeError`; removing from an empty one yields nothing.

    The abstraction function is `ToArray`: the `Length` logical elements read
    from `head` onwards, wrapping modulo `capacity`. Every operation below is
    stated as the sequence edit it performs on that view. */
module RingBuffers {
  import opened Wrappers
  import StaticArrays

  datatype Error = RangeError(message: string)

  const OverflowMessage: string := "Buffer Overflow: Attempted to add into RingBuffer at capacity"

  datatype RingBuffer<T> = RingBuffer(
    data: StaticArrays.StaticArray<T>,
    head: nat,
    tail: nat,
    isFull: bool,
    capacity: nat)

  // ---------------------------------------------------------------------------
  // State invariant and the derived length
  // ---------------------------------------------------------------------------

  /** The cursor invariant. A zero-capacity buffer (what `fromArray([])`
      builds) keeps both cursors at 0 and is never full; otherwise both
      cursors lie in `[0, capacity)`. The flag is only ever set when the
      cursors meet. */
  predicate WellFormed<T>(b: RingBuffer<T>)
  {
    && StaticArrays.Length(b.data) == b.capacity
    && (b.capacity == 0 ==> b.head == 0 && b.tail == 0 && !b.isFull)
    && (b.capacity > 0 ==> b.head < b.capacity && b.tail < b.capacity)
    && (b.isFull ==> b.head == b.tail)
  }

  /** The `length` getter. It is 0 exactly when the cursors meet and the
      flag is clear, and it equals the capacity exactly when the flag is set
      (or the capacity is 0): the flag is what tells full from empty. */
  function Length<T>(b: RingBuffer<T>): (n: nat)
    requires WellFormed(b)
    ensures n <= b.capacity
    ensures n == 0 <==> b.head == b.tail && !b.isFull
    ensures n == b.capacity <==> b.isFull || b.capacity == 0
  {
    if b.head == b.tail then (if b.isFull then b.capacity else 0)
    else if b.head <= b.tail then b.tail - b.head
    else (b.capacity - b.head) + b.tail
  }

  /** The physical slot of logical position `i`: `(head + i) % capacity`. */
  function Slot<T>(b: RingBuffer<T>, i: nat): nat
    requires WellFormed(b) && b.capacity > 0
  {
    (b.head + i) % b.capacity
  }

  /** Well-formed, and every logical position holds a value. */
  predicate Valid<T>(b: RingBuffer<T>)
  {
    && WellFormed(b)
    && forall i :: 0 <= i < Length(b) ==> StaticArrays.Get(b.data, Slot(b, i)) != None
  }

  /** `toArray()`: the logical elements front to back. Being a function of
      the state it leaves the cursors and the flag as they were. */
  function ToArray<T>(b: RingBuffer<T>): (r: seq<T>)
    requires Valid(b)
    ensures |r| == Length(b)
    ensures forall i :: 0 <= i < |r| ==> StaticArrays.Get(b.data, Slot(b, i)) == Some(r[i])
  {
    seq(Length(b), i requires 0 <= i < Length(b) => StaticArrays.Get(b.data, Slot(b, i)).value)
  }

  // ---------------------------------------------------------------------------
  // Cursor arithmetic
  // ---------------------------------------------------------------------------

  /** Reducing a value below twice the modulus subtracts it at most once. */
  lemma ModWrap(x: int, n: int)
    requires 0 < n && 0 <= x < 2 * n
    ensures x % n == if x < n then x else x - n
  {
  }

  /** `getNextIndex`: one step forward, wrapping from the last slot to 0. */
  function NextIndex(i: nat, capacity: nat): (r: nat)
    requires i < capacity
    ensures r < capacity
    ensures r == if i == capacity - 1 then 0 else i + 1
  {
    ModWrap(i + 1, capacity);
    (i + 1) % capacity
  }

  /** `getPrevIndex`: one step back, wrapping from 0 to the last slot. */
  function PrevIndex(i: nat, capacity: nat): (r: nat)
    requires i < capacity
    ensures r < capacity
    ensures NextIndex(r, capacity) == i
  {
    if i == 0 then capacity - 1 else i - 1
  }

  /** The two cursor steps undo each other. */
  lemma CursorStepsInverse(i: nat, capacity: nat)
    requires i < capacity
    ensures PrevIndex(NextIndex(i, capacity), capacity) == i
    ensures NextIndex(PrevIndex(i, capacity), capacity) == i
  {
  }

  /** Stepping forward from `n` positions past `h` lands `n + 1` past it. */
  lemma NextOfOffset(h: nat, n: nat, capacity: nat)
    requires h < capacity && n < capacity
    ensures NextIndex((h + n) % capacity, capacity) == (h + n + 1) % capacity
  {
    ModWrap(h + n, capacity);
    ModWrap(h + n + 1, capacity);
  }

  /** Stepping back from `n` positions past `h` lands `n - 1` past it. */
  lemma PrevOfOffset(h: nat, n: nat, capacity: nat)
    requires h < capacity && 0 < n <= capacity
    ensures PrevIndex((h + n) % capacity, capacity) == (h + n - 1) % capacity
  {
    ModWrap(h + n, capacity);
    ModWrap(h + n - 1, capacity);
  }

  /** Positions counted from one step further back are one further out. */
  lemma OffsetFromPrev(h: nat, n: nat, capacity: nat)
    requires h < capacity && n < capacity
    ensures (PrevIndex(h, capacity) + n + 1) % capacity == (h + n) % capacity
  {
    ModWrap(h + n, capacity);
    ModWrap(PrevIndex(h, capacity) + n + 1, capacity);
  }

  /** Positions counted from one step further on are one further in. */
  lemma OffsetFromNext(h: nat, n: nat, capacity: nat)
    requires h < capacity && n < capacity
    ensures (NextIndex(h, capacity) + n) % capacity == (h + n + 1) % capacity
  {
    ModWrap(h + n + 1, capacity);
    ModWrap(NextIndex(h, capacity) + n, capacity);
  }

  /** Offsets up to a full turn come back to the start only at 0 and at a
      full turn. */
  lemma OffsetReturns(h: nat, n: nat, capacity: nat)
    requires h < capacity && n <= capacity
    ensures (h + n) % capacity == h <==> n == 0 || n == capacity
  {
    ModWrap(h + n, capacity);
  }

  /** Distinct offsets below a full turn reach distinct slots. */
  lemma OffsetInjective(h: nat, i: nat, j: nat, capacity: nat)
    requires h < capacity && i < capacity && j < capacity && i != j
    ensures (h + i) % capacity != (h + j) % capacity
  {
    ModWrap(h + i, capacity);
    ModWrap(h + j, capacity);
  }

  /** The tail cursor sits `Length` logical positions after the head. */
  lemma TailSlot<T>(b: RingBuffer<T>)
    requires WellFormed(b) && b.capacity > 0
    ensures b.tail == Slot(b, Length(b))
  {
    ModWrap(b.head + Length(b), b.capacity);
  }

  /** The derived length is `n` whenever the tail sits `n` positions after
      the head and the flag is set exactly when `n` is the capacity. */
  lemma LengthFromOffset<T>(b: RingBuffer<T>, n: nat)
    requires WellFormed(b) && b.capacity > 0 && n <= b.capacity
    requires b.tail == (b.head + n) % b.capacity
    requires b.isFull <==> n == b.capacity
    ensures Length(b) == n
  {
    ModWrap(b.head + n, b.capacity);
  }

  /** `incrementTail`: the back grows by one slot; the flag is set when the
      tail catches up with the head. */
  function IncrementTail<T>(b: RingBuffer<T>): (r: RingBuffer<T>)
    requires WellFormed(b) && b.capacity > 0 && Length(b) < b.capacity
    ensures WellFormed(r) && r.head == b.head && r.data == b.data && r.capacity == b.capacity
    ensures Length(r) == Length(b) + 1
  {
    var tail := NextIndex(b.tail, b.capacity);
    var r := b.(tail := tail, isFull := tail == b.head);
    TailSlot(b);
    NextOfOffset(b.head, Length(b), b.capacity);
    OffsetReturns(b.head, Length(b) + 1, b.capacity);
    LengthFromOffset(r, Length(b) + 1);
    r
  }

  /** `decrementTail`: the back shrinks by one slot; the buffer is no longer
      full. The tail then points at the old last element. */
  function DecrementTail<T>(b: RingBuffer<T>): (r: RingBuffer<T>)
    requires WellFormed(b) && Length(b) > 0
    ensures WellFormed(r) && r.head == b.head && r.data == b.data && r.capacity == b.capacity
    ensures Length(r) == Length(b) - 1
    ensures r.tail == Slot(b, Length(b) - 1)
  {
    var r := b.(tail := PrevIndex(b.tail, b.capacity), isFull := false);
    TailSlot(b);
    PrevOfOffset(b.head, Length(b), b.capacity);
    LengthFromOffset(r, Length(b) - 1);
    r
  }

  /** `incrementHead`: the front shrinks by one slot; the buffer is no longer
      full, and every remaining element keeps its slot. */
  function IncrementHead<T>(b: RingBuffer<T>): (r: RingBuffer<T>)
    requires WellFormed(b) && Length(b) > 0
    ensures WellFormed(r) && r.data == b.data && r.capacity == b.capacity
    ensures Length(r) == Length(b) - 1
    ensures forall i :: 0 <= i < Length(r) ==> Slot(r, i) == Slot(b, i + 1)
  {
    var r := b.(head := NextIndex(b.head, b.capacity), isFull := false);
    TailSlot(b);
    OffsetFromNext(b.head, Length(b) - 1, b.capacity);
    LengthFromOffset(r, Length(b) - 1);
    forall i | 0 <= i < Length(r)
      ensures Slot(r, i) == Slot(b, i + 1)
    {
      OffsetFromNext(b.head, i, b.capacity);
    }
    r
  }

  /** `decrementHead`: the front grows by one slot; the flag is set when the
      head catches up with the tail, and every old element keeps its slot. */
  function DecrementHead<T>(b: RingBuffer<T>): (r: RingBuffer<T>)
    requires WellFormed(b) && b.capacity > 0 && Length(b) < b.capacity
    ensures WellFormed(r) && r.data == b.data && r.capacity == b.capacity
    ensures Length(r) == Length(b) + 1
    ensures r.head == Slot(r, 0)
    ensures forall i :: 1 <= i <= Length(b) ==> Slot(r, i) == Slot(b, i - 1)
  {
    var head := PrevIndex(b.head, b.capacity);
    var r := b.(head := head, isFull := head == b.tail);
    TailSlot(b);
    OffsetFromPrev(b.head, Length(b), b.capacity);
    OffsetReturns(head, Length(b) + 1, b.capacity);
    LengthFromOffset(r, Length(b) + 1);
    ModWrap(head, b.capacity);
    forall i | 1 <= i <= Length(b)
      ensures Slot(r, i) == Slot(b, i - 1)
    {
      OffsetFromPrev(b.head, i - 1, b.capacity);
    }
    r
  }

  /** `guardCapacity`: fails with the overflow error exactly when one more
      element would exceed the capacity, i.e. when the buffer is full. */
  function GuardCapacity<T>(b: RingBuffer<T>): (r: Option<Error>)
    requires WellFormed(b)
    ensures r != None <==> Length(b) == b.capacity
    ensures r != None ==> r.value == RangeError(OverflowMessage)
  {
    if Length(b) + 1 > b.capacity then Some(RangeError(OverflowMessage)) else None
  }

  // ---------------------------------------------------------------------------
  // Public operations
  // ---------------------------------------------------------------------------

  /** `new RingBuffer(capacity)`: an empty buffer whose cursors start a third
      of the way into the storage. */
  function New<T>(capacity: nat): (r: RingBuffer<T>)
    ensures Valid(r) && r.capacity == capacity
    ensures ToArray(r) == []
  {
    RingBuffer(StaticArrays.New(capacity), capacity / 3, capacity / 3, false, capacity)
  }

  /** The buffer `push` leaves behind when there is room. */
  function Pushed<T>(b: RingBuffer<T>, value: T): RingBuffer<T>
    requires WellFormed(b) && b.capacity > 0 && Length(b) < b.capacity
  {
    IncrementTail(b.(data := StaticArrays.Set(b.data, b.tail, value)))
  }

  /** Writing at the tail and stepping it appends to the logical view. */
  lemma PushedView<T>(b: RingBuffer<T>, value: T)
    requires Valid(b) && b.capacity > 0 && Length(b) < b.capacity
    ensures Valid(Pushed(b, value)) && Pushed(b, value).capacity == b.capacity
    ensures ToArray(Pushed(b, value)) == ToArray(b) + [value]
  {
    var r := Pushed(b, value);
    TailSlot(b);
    forall i | 0 <= i < Length(b)
      ensures StaticArrays.Get(r.data, Slot(r, i)) == StaticArrays.Get(b.data, Slot(b, i))
    {
      OffsetInjective(b.head, i, Length(b), b.capacity);
    }
    assert StaticArrays.Get(r.data, Slot(r, Length(b))) == Some(value);
    assert Valid(r);
    assert forall i :: 0 <= i < Length(r) ==> ToArray(r)[i] == (ToArray(b) + [value])[i];
  }

  /** `push(value)`: below capacity, appends `value` at the back; at
      capacity, fails with the overflow error before any state changes. */
  function Push<T>(b: RingBuffer<T>, value: T): (r: Result<RingBuffer<T>, Error>)
    requires Valid(b)
    ensures r.Err? <==> Length(b) == b.capacity
    ensures r.Err? ==> r.error == RangeError(OverflowMessage)
    ensures r.Ok? ==> Valid(r.value) && r.value.capacity == b.capacity
                      && ToArray(r.value) == ToArray(b) + [value]
  {
    match GuardCapacity(b)
    case Some(e) => Err(e)
    case None =>
      PushedView(b, value);
      Ok(Pushed(b, value))
  }

  /** The buffer `unshift` leaves behind when there is room. */
  function Unshifted<T>(b: RingBuffer<T>, value: T): RingBuffer<T>
    requires WellFormed(b) && b.capacity > 0 && Length(b) < b.capacity
  {
    var moved := DecrementHead(b);
    moved.(data := StaticArrays.Set(moved.data, moved.head, value))
  }

  /** Stepping the head back and writing there prepends to the logical view. */
  lemma UnshiftedView<T>(b: RingBuffer<T>, value: T)
    requires Valid(b) && b.capacity > 0 && Length(b) < b.capacity
    ensures Valid(Unshifted(b, value)) && Unshifted(b, value).capacity == b.capacity
    ensures ToArray(Unshifted(b, value)) == [value] + ToArray(b)
  {
    var moved := DecrementHead(b);
    var r := Unshifted(b, value);
    assert r.head == moved.head && r.tail == moved.tail && r.isFull == moved.isFull;
    assert Length(r) == Length(b) + 1;
    forall i | 1 <= i <= Length(b)
      ensures StaticArrays.Get(r.data, Slot(r, i)) == StaticArrays.Get(b.data, Slot(b, i - 1))
    {
      assert Slot(r, i) == Slot(moved, i) == Slot(b, i - 1);
      OffsetInjective(moved.head, i, 0, b.capacity);
      assert Slot(moved, i) != moved.head;
    }
    assert StaticArrays.Get(r.data, Slot(r, 0)) == Some(value);
    assert Valid(r);
    var view := ToArray(r);
    assert forall i :: 1 <= i < Length(r) ==> view[i] == ToArray(b)[i - 1];
    assert view == [value] + ToArray(b);
  }

  /** `unshift(value)`: below capacity, puts `value` at the front; at
      capacity, fails with the overflow error before any state changes. */
  function Unshift<T>(b: RingBuffer<T>, value: T): (r: Result<RingBuffer<T>, Error>)
    requires Valid(b)
    ensures r.Err? <==> Length(b) == b.capacity
    ensures r.Err? ==> r.error == RangeError(OverflowMessage)
    ensures r.Ok? ==> Valid(r.value) && r.value.capacity == b.capacity
                      && ToArray(r.value) == [value] + ToArray(b)
  {
    match GuardCapacity(b)
    case Some(e) => Err(e)
    case None =>
      UnshiftedView(b, value);
      Ok(Unshifted(b, value))
  }

  /** `pop()`: on a non-empty buffer, removes and returns the last element;
      on an empty one, returns nothing and leaves the buffer as it was. */
  function Pop<T>(b: RingBuffer<T>): (r: (Option<T>, RingBuffer<T>))
    requires Valid(b)
    ensures Length(b) == 0 ==> r == (None, b)
    ensures Length(b) > 0 ==>
              && Valid(r.1) && r.1.capacity == b.capacity
              && r.0 == Some(ToArray(b)[Length(b) - 1])
              && ToArray(r.1) == ToArray(b)[..Length(b) - 1]
  {
    if Length(b) == 0 then (None, b)
    else
      var r := DecrementTail(b);
      assert forall i :: 0 <= i < Length(r) ==> Slot(r, i) == Slot(b, i);
      assert Valid(r);
      assert forall i :: 0 <= i < Length(r) ==> ToArray(r)[i] == ToArray(b)[i];
      (StaticArrays.Get(r.data, r.tail), r)
  }

  /** `shift()`: on a non-empty buffer, removes and returns the first
      element; on an empty one, returns nothing and leaves the buffer as it
      was. */
  function Shift<T>(b: RingBuffer<T>): (r: (Option<T>, RingBuffer<T>))
    requires Valid(b)
    ensures Length(b) == 0 ==> r == (None, b)
    ensures Length(b) > 0 ==>
              && Valid(r.1) && r.1.capacity == b.capacity
              && r.0 == Some(ToArray(b)[0])
              && ToArray(r.1) == ToArray(b)[1..]
  {
    if Length(b) == 0 then (None, b)
    else
      var value := StaticArrays.Get(b.data, b.head);
      assert b.head == Slot(b, 0) by { ModWrap(b.head, b.capacity); }
      var r := IncrementHead(b);
      assert Valid(r);
      assert forall i :: 0 <= i < Length(r) ==> ToArray(r)[i] == ToArray(b)[i + 1];
      (value, r)
  }

  /** `flush()`: shifts until the buffer is empty and returns the removed
      elements front to back, which are exactly the old contents. */
  function Flush<T>(b: RingBuffer<T>): (r: (seq<T>, RingBuffer<T>))
    requires Valid(b)
    ensures r.0 == ToArray(b)
    ensures Valid(r.1) && Length(r.1) == 0 && r.1.capacity == b.capacity
    decreases Length(b)
  {
    if Length(b) == 0 then ([], b)
    else
      var (value, rest) := Shift(b);
      var (values, emptied) := Flush(rest);
      ([value.value] + values, emptied)
  }

  /** The loop of `fromArray`: pushes `values` in order, stopping at the
      first overflow. */
  function PushAll<T>(b: RingBuffer<T>, values: seq<T>): (r: Result<RingBuffer<T>, Error>)
    requires Valid(b)
    ensures r.Ok? <==> Length(b) + |values| <= b.capacity
    ensures r.Err? ==> r.error == RangeError(OverflowMessage)
    ensures r.Ok? ==> Valid(r.value) && r.value.capacity == b.capacity
                      && ToArray(r.value) == ToArray(b) + values
    decreases |values|
  {
    if |values| == 0 then Ok(b)
    else
      match Push(b, values[0])
      case Err(e) => Err(e)
      case Ok(next) =>
        var r := PushAll(next, values[1..]);
        assert ToArray(b) + values == ToArray(b) + [values[0]] + values[1..];
        r
  }

  /** `fromArray(values, capacity)`: the capacity is the one given, or
      |values| when it is omitted or 0. When the values fit, the buffer holds
      them in order; otherwise the overflow error of the first push that
      does not fit propagates. */
  function FromArray<T>(values: seq<T>, capacity: nat): (r: Result<RingBuffer<T>, Error>)
    ensures var cap := if capacity == 0 then |values| else capacity;
            && (r.Ok? <==> |values| <= cap)
            && (r.Err? ==> r.error == RangeError(OverflowMessage))
            && (r.Ok? ==> Valid(r.value) && r.value.capacity == cap && ToArray(r.value) == values)
  {
    PushAll(New(if capacity == 0 then |values| else capacity), values)
  }

  // ---------------------------------------------------------------------------
  // Properties relating several operations
  // ---------------------------------------------------------------------------

  /** `flush` returns what `toArray` shows, and leaves an empty buffer. */
  lemma FlushIsToArray<T>(b: RingBuffer<T>)
    requires Valid(b)
    ensures Flush(b).0 == ToArray(b) && ToArray(Flush(b).1) == []
  {
  }

  /** A `pop` right after a successful `push` returns the pushed value and
      restores the old contents. */
  lemma PushThenPop<T>(b: RingBuffer<T>, value: T)
    requires Valid(b) && Length(b) < b.capacity
    ensures Push(b, value).Ok?
    ensures Pop(Push(b, value).value).0 == Some(value)
    ensures ToArray(Pop(Push(b, value).value).1) == ToArray(b)
  {
    assert (ToArray(b) + [value])[..Length(b)] == ToArray(b);
  }

  /** A `shift` right after a successful `unshift` returns the value put in
      front and restores the old contents. */
  lemma UnshiftThenShift<T>(b: RingBuffer<T>, value: T)
    requires Valid(b) && Length(b) < b.capacity
    ensures Unshift(b, value).Ok?
    ensures Shift(Unshift(b, value).value).0 == Some(value)
    ensures ToArray(Shift(Unshift(b, value).value).1) == ToArray(b)
  {
    assert ([value] + ToArray(b))[1..] == ToArray(b);
  }
}
