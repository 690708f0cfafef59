/** The doubly linked list.

    Nodes live in an arena (`nodes`) and refer to each other by position, so
    `head`, `tail` and the `prev`/`next` links are arena positions. A new node
    is always added at the end of the arena; no operation here removes one.
    The list the source means is the chain of `next` links from `head`: the
    `Values` of a valid list are the values met along that chain. `prev` links
    are written exactly where the source writes them but are never read. */
module LinkedLists {
  import opened Wrappers

  datatype Node<T> = Node(value: T, prev: Option<nat>, next: Option<nat>)

  datatype LinkedList<T> = LinkedList(nodes: seq<Node<T>>, head: Option<nat>, tail: Option<nat>, length: nat)

  /** Every position of `order` names a node of the arena. */
  ghost predicate InArena<T>(nodes: seq<Node<T>>, order: seq<nat>)
  {
    forall k :: 0 <= k < |order| ==> order[k] < |nodes|
  }

  /** Following `next` links from `start` visits exactly the positions of
      `order`, in that order, and then stops. */
  ghost predicate IsChain<T>(nodes: seq<Node<T>>, start: Option<nat>, order: seq<nat>)
  {
    && InArena(nodes, order)
    && (|order| == 0 ==> start == None)
    && (|order| > 0 ==> start == Some(order[0]) && nodes[order[|order| - 1]].next == None)
    && (forall k :: 0 <= k < |order| - 1 ==> nodes[order[k]].next == Some(order[k + 1]))
  }

  ghost predicate Distinct(order: seq<nat>)
  {
    forall j, k :: 0 <= j < k < |order| ==> order[j] != order[k]
  }

  /** `order` is the chain of `l`: acyclic, as long as the length counter, and
      ending at `tail`. */
  ghost predicate ChainOf<T>(l: LinkedList<T>, order: seq<nat>)
  {
    && IsChain(l.nodes, l.head, order)
    && Distinct(order)
    && |order| == l.length
    && l.tail == (if |order| == 0 then None else Some(order[|order| - 1]))
  }

  /** The representation invariant: the list has a chain. */
  ghost predicate Valid<T>(l: LinkedList<T>)
  {
    exists order :: ChainOf(l, order)
  }

  /** A chain is determined by its arena and its start. */
  lemma {:induction false} ChainUnique<T>(nodes: seq<Node<T>>, start: Option<nat>, o1: seq<nat>, o2: seq<nat>)
    requires IsChain(nodes, start, o1) && IsChain(nodes, start, o2)
    ensures o1 == o2
    decreases |o1|
  {
    if |o1| > 0 && |o2| > 0 {
      assert o1[0] == o2[0];
      ChainRest(nodes, start, o1);
      ChainRest(nodes, start, o2);
      ChainUnique(nodes, nodes[o1[0]].next, o1[1..], o2[1..]);
      assert o1 == [o1[0]] + o1[1..] && o2 == [o2[0]] + o2[1..];
    }
  }

  /** After its first node, a chain continues from that node's `next`. */
  lemma ChainRest<T>(nodes: seq<Node<T>>, start: Option<nat>, order: seq<nat>)
    requires IsChain(nodes, start, order) && |order| > 0
    ensures IsChain(nodes, nodes[order[0]].next, order[1..])
  {
  }

  /** The chain of a valid list. */
  ghost function Order<T>(l: LinkedList<T>): (o: seq<nat>)
    requires Valid(l)
    ensures ChainOf(l, o)
  {
    var o :| ChainOf(l, o); o
  }

  /** Any chain of `l` is its chain. */
  lemma OrderIs<T>(l: LinkedList<T>, o: seq<nat>)
    requires ChainOf(l, o)
    ensures Valid(l) && Order(l) == o
  {
    ChainUnique(l.nodes, l.head, Order(l), o);
  }

  /** The values met along `order`. */
  ghost function ValuesOf<T>(nodes: seq<Node<T>>, order: seq<nat>): (vs: seq<T>)
    requires InArena(nodes, order)
  {
    seq(|order|, k requires 0 <= k < |order| => nodes[order[k]].value)
  }

  /** The contents of a valid list, head first. */
  ghost function Values<T>(l: LinkedList<T>): seq<T>
    requires Valid(l)
  {
    ValuesOf(l.nodes, Order(l))
  }

  /** The length counter counts the contents, and `head`, `tail` and the
      counter agree on emptiness. */
  lemma LengthAgrees<T>(l: LinkedList<T>)
    requires Valid(l)
    ensures l.length == |Values(l)|
    ensures l.head == None <==> l.length == 0
    ensures l.tail == None <==> l.length == 0
  {
  }

  /** `new LinkedList()`: no nodes, length 0. */
  function Empty<T>(): (r: LinkedList<T>)
    ensures Valid(r) && Values(r) == []
  {
    var r := LinkedList([], None, None, 0);
    assert ChainOf(r, []);
    OrderIs(r, []);
    r
  }

  /** The loop of `toArray`: collects values along `next` links from `cur`
      until the chain stops. */
  function Collect<T>(nodes: seq<Node<T>>, cur: Option<nat>, ghost order: seq<nat>): (r: seq<T>)
    requires IsChain(nodes, cur, order)
    ensures r == ValuesOf(nodes, order)
    decreases |order|
  {
    match cur
    case None => []
    case Some(i) =>
      ChainRest(nodes, cur, order);
      [nodes[i].value] + Collect(nodes, nodes[i].next, order[1..])
  }

  /** `toArray()`: the values from head to the end of the chain. */
  function ToArray<T>(l: LinkedList<T>): (r: seq<T>)
    requires Valid(l)
    ensures r == Values(l) && |r| == l.length
  {
    Collect(l.nodes, l.head, Order(l))
  }

  /** The walk of `get`/`set`: the node reached by following `steps` links
      from `start`. */
  function NodeAt<T>(nodes: seq<Node<T>>, start: nat, steps: nat, ghost order: seq<nat>): (r: nat)
    requires IsChain(nodes, Some(start), order) && steps < |order|
    ensures r == order[steps]
    decreases steps
  {
    if steps == 0 then start
    else
      ChainRest(nodes, Some(start), order);
      NodeAt(nodes, nodes[start].next.value, steps - 1, order[1..])
  }

  /** `get(index)`: the value at position `index` of the list, or nothing
      when the list is empty or `index` is outside `[0, length)`. */
  function Get<T>(l: LinkedList<T>, index: int): (r: Option<T>)
    requires Valid(l)
    ensures r == if 0 <= index < |Values(l)| then Some(Values(l)[index]) else None
  {
    if l.head.None? || index < 0 || index >= l.length then None
    else Some(l.nodes[NodeAt(l.nodes, l.head.value, index, Order(l))].value)
  }

  /** `set(index, value)`: replaces the value at position `index`, and is a
      no-op when the list is empty or `index` is outside `[0, length)`. */
  function Set<T>(l: LinkedList<T>, index: int, value: T): (r: LinkedList<T>)
    requires Valid(l)
    ensures Valid(r) && r.length == l.length
    ensures Values(r) == if 0 <= index < l.length then Values(l)[index := value] else Values(l)
    ensures !(0 <= index < l.length) ==> r == l
  {
    if l.head.None? || index < 0 || index >= l.length then l
    else
      var o := Order(l);
      var at := NodeAt(l.nodes, l.head.value, index, o);
      var r := l.(nodes := l.nodes[at := l.nodes[at].(value := value)]);
      assert ChainOf(r, o);
      OrderIs(r, o);
      r
  }

  /** `prepend(value)`: a new node becomes the head (and also the tail of an
      empty list); the old head's `prev` points back to it. */
  function Prepend<T>(l: LinkedList<T>, value: T): (r: LinkedList<T>)
    requires Valid(l)
    ensures Valid(r) && r.length == l.length + 1
    ensures Values(r) == [value] + Values(l)
  {
    var o := Order(l);
    var n := |l.nodes|;
    if l.head.None? then
      var r := LinkedList(l.nodes + [Node(value, None, None)], Some(n), Some(n), l.length + 1);
      assert ChainOf(r, [n]);
      OrderIs(r, [n]);
      r
    else
      var h := l.head.value;
      var r := l.(nodes := l.nodes[h := l.nodes[h].(prev := Some(n))] + [Node(value, None, Some(h))],
                  head := Some(n), length := l.length + 1);
      PrependChain(l, o, value, r);
      OrderIs(r, [n] + o);
      r
  }

  lemma PrependChain<T>(l: LinkedList<T>, o: seq<nat>, value: T, r: LinkedList<T>)
    requires ChainOf(l, o) && l.head.Some?
    requires r == l.(nodes := l.nodes[l.head.value := l.nodes[l.head.value].(prev := Some(|l.nodes|))]
                                + [Node(value, None, Some(l.head.value))],
                     head := Some(|l.nodes|), length := l.length + 1)
    ensures ChainOf(r, [|l.nodes|] + o)
    ensures ValuesOf(r.nodes, [|l.nodes|] + o) == [value] + ValuesOf(l.nodes, o)
  {
  }

  /** `append(value)`: a new node becomes the tail (and also the head of an
      empty list); the old tail's `next` points to it. */
  function Append<T>(l: LinkedList<T>, value: T): (r: LinkedList<T>)
    requires Valid(l)
    ensures Valid(r) && r.length == l.length + 1
    ensures Values(r) == Values(l) + [value]
  {
    var o := Order(l);
    var n := |l.nodes|;
    if l.tail.None? then
      var r := LinkedList(l.nodes + [Node(value, None, None)], Some(n), Some(n), l.length + 1);
      assert ChainOf(r, [n]);
      OrderIs(r, [n]);
      r
    else
      var t := l.tail.value;
      var r := l.(nodes := l.nodes[t := l.nodes[t].(next := Some(n))] + [Node(value, Some(t), None)],
                  tail := Some(n), length := l.length + 1);
      AppendChain(l, o, value, r);
      OrderIs(r, o + [n]);
      r
  }

  lemma AppendChain<T>(l: LinkedList<T>, o: seq<nat>, value: T, r: LinkedList<T>)
    requires ChainOf(l, o) && l.tail.Some?
    requires r == l.(nodes := l.nodes[l.tail.value := l.nodes[l.tail.value].(next := Some(|l.nodes|))]
                                + [Node(value, Some(l.tail.value), None)],
                     tail := Some(|l.nodes|), length := l.length + 1)
    ensures ChainOf(r, o + [|l.nodes|])
    ensures ValuesOf(r.nodes, o + [|l.nodes|]) == ValuesOf(l.nodes, o) + [value]
  {
  }

  /** `insert(index, value)`: index 0 prepends, index `length` appends, an
      index outside `[0, length]` changes nothing, and any other index
      splices a new node in after the node at `index - 1`. The default
      `index = length` is passed explicitly. */
  function Insert<T>(l: LinkedList<T>, index: int, value: T): (r: LinkedList<T>)
    requires Valid(l)
    ensures Valid(r)
    ensures 0 <= index <= l.length ==>
              && r.length == l.length + 1
              && Values(r) == Values(l)[..index] + [value] + Values(l)[index..]
    ensures !(0 <= index <= l.length) ==> r == l
  {
    if index == 0 then
      assert Values(l)[..0] == [] && Values(l)[0..] == Values(l);
      Prepend(l, value)
    else if index == l.length then
      LengthAgrees(l);
      assert Values(l)[..index] == Values(l) && Values(l)[index..] == [];
      Append(l, value)
    else if index < 0 || index > l.length then l
    else
      var o := Order(l);
      var p := NodeAt(l.nodes, l.head.value, index - 1, o);
      var n := |l.nodes|;
      var r := l.(nodes := l.nodes[p := l.nodes[p].(next := Some(n))] + [Node(value, Some(p), l.nodes[p].next)],
                  length := l.length + 1);
      InsertChain(l, o, index, value, r);
      OrderIs(r, o[..index] + [n] + o[index..]);
      r
  }

  /** Positions in `o[..index] + [x] + o[index..]`. */
  lemma SpliceIndex<X>(o: seq<X>, index: nat, x: X)
    requires index <= |o|
    ensures |o[..index] + [x] + o[index..]| == |o| + 1
    ensures forall k :: 0 <= k < index ==> (o[..index] + [x] + o[index..])[k] == o[k]
    ensures (o[..index] + [x] + o[index..])[index] == x
    ensures forall k :: index < k <= |o| ==> (o[..index] + [x] + o[index..])[k] == o[k - 1]
  {
  }

  lemma InsertChain<T>(l: LinkedList<T>, o: seq<nat>, index: nat, value: T, r: LinkedList<T>)
    requires ChainOf(l, o) && 0 < index < l.length
    requires r == l.(nodes := l.nodes[o[index - 1] := l.nodes[o[index - 1]].(next := Some(|l.nodes|))]
                                + [Node(value, Some(o[index - 1]), l.nodes[o[index - 1]].next)],
                     length := l.length + 1)
    ensures ChainOf(r, o[..index] + [|l.nodes|] + o[index..])
    ensures ValuesOf(r.nodes, o[..index] + [|l.nodes|] + o[index..])
            == ValuesOf(l.nodes, o)[..index] + [value] + ValuesOf(l.nodes, o)[index..]
  {
    var n := |l.nodes|;
    var o' := o[..index] + [n] + o[index..];
    SpliceIndex(o, index, n);
    InsertLinks(l, o, index, value, r, o');
    InsertValues(l, o, index, value, r, o');
  }

  lemma InsertLinks<T>(l: LinkedList<T>, o: seq<nat>, index: nat, value: T, r: LinkedList<T>, o': seq<nat>)
    requires ChainOf(l, o) && 0 < index < l.length
    requires r == l.(nodes := l.nodes[o[index - 1] := l.nodes[o[index - 1]].(next := Some(|l.nodes|))]
                                + [Node(value, Some(o[index - 1]), l.nodes[o[index - 1]].next)],
                     length := l.length + 1)
    requires |o'| == |o| + 1 && o'[index] == |l.nodes|
    requires forall k :: 0 <= k < index ==> o'[k] == o[k]
    requires forall k :: index < k < |o'| ==> o'[k] == o[k - 1]
    ensures ChainOf(r, o')
  {
  }

  lemma InsertValues<T>(l: LinkedList<T>, o: seq<nat>, index: nat, value: T, r: LinkedList<T>, o': seq<nat>)
    requires ChainOf(l, o) && 0 < index < l.length
    requires r.nodes == l.nodes[o[index - 1] := l.nodes[o[index - 1]].(next := Some(|l.nodes|))]
                        + [Node(value, Some(o[index - 1]), l.nodes[o[index - 1]].next)]
    requires |o'| == |o| + 1 && o'[index] == |l.nodes|
    requires forall k :: 0 <= k < index ==> o'[k] == o[k]
    requires forall k :: index < k < |o'| ==> o'[k] == o[k - 1]
    requires InArena(r.nodes, o')
    ensures ValuesOf(r.nodes, o') == ValuesOf(l.nodes, o)[..index] + [value] + ValuesOf(l.nodes, o)[index..]
  {
  }

  /** `fromArray(values)`: appends the values in order onto an empty list. */
  function FromArray<T>(values: seq<T>): (r: LinkedList<T>)
    ensures Valid(r) && r.length == |values|
    ensures Values(r) == values
    decreases |values|
  {
    if |values| == 0 then Empty()
    else
      var prefix := FromArray(values[..|values| - 1]);
      assert values == values[..|values| - 1] + [values[|values| - 1]];
      Append(prefix, values[|values| - 1])
  }

  /** Reading back a list built from `values` gives `values`. */
  lemma FromArrayToArray<T>(values: seq<T>)
    ensures ToArray(FromArray(values)) == values
  {
  }

  /** Reading a position after writing it gives the written value; every
      other position reads as before. */
  lemma GetAfterSet<T>(l: LinkedList<T>, index: int, value: T, other: int)
    requires Valid(l) && 0 <= index < l.length && other != index
    ensures Get(Set(l, index, value), index) == Some(value)
    ensures Get(Set(l, index, value), other) == Get(l, other)
  {
  }
}
