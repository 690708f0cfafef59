/** The linear traversal combinators that the array containers share.

    Every combinator visits positions 0, 1, 2, ... of a sequence in order and
    hands its callback the element and the element's index. The callbacks are
    pure functions; the third callback argument of the source (a snapshot of
    the whole container) is not modelled. */
module Traversal {
  import opened Wrappers

  /** `Math.min` on integers, used to clamp the end of a `fill`. */
  function Min(x: int, y: int): (r: int)
    ensures r <= x && r <= y && (r == x || r == y)
  {
    if x <= y then x else y
  }

  // ---------------------------------------------------------------------------
  // findIndex / find / some / every
  // ---------------------------------------------------------------------------

  /** The scan of `findIndex` from position `from` on. */
  function FindIndexFrom<X>(s: seq<X>, p: (X, nat) -> bool, from: nat): (r: int)
    requires from <= |s|
    ensures r == -1 || from <= r < |s|
    ensures r == -1 <==> forall i :: from <= i < |s| ==> !p(s[i], i)
    ensures r != -1 ==> p(s[r], r) && forall i :: from <= i < r ==> !p(s[i], i)
    decreases |s| - from
  {
    if from == |s| then -1
    else if p(s[from], from) then from
    else FindIndexFrom(s, p, from + 1)
  }

  /** Index of the first element satisfying `p`, or -1 when there is none. */
  function FindIndex<X>(s: seq<X>, p: (X, nat) -> bool): (r: int)
    ensures -1 <= r < |s|
    ensures r == -1 <==> forall i :: 0 <= i < |s| ==> !p(s[i], i)
    ensures 0 <= r ==> p(s[r], r) && forall i :: 0 <= i < r ==> !p(s[i], i)
  {
    FindIndexFrom(s, p, 0)
  }

  /** The first element satisfying `p`, or nothing. */
  function Find<X>(s: seq<X>, p: (X, nat) -> bool): (r: Option<X>)
    ensures r == None <==> forall i :: 0 <= i < |s| ==> !p(s[i], i)
    ensures r != None ==>
              exists i :: 0 <= i < |s| && s[i] == r.value && p(s[i], i)
                          && forall j :: 0 <= j < i ==> !p(s[j], j)
  {
    var k := FindIndex(s, p);
    if k < 0 then None else Some(s[k])
  }

  /** The scan of `some` from position `from` on. */
  function AnyFrom<X>(s: seq<X>, p: (X, nat) -> bool, from: nat): (r: bool)
    requires from <= |s|
    ensures r <==> exists i :: from <= i < |s| && p(s[i], i)
    decreases |s| - from
  {
    if from == |s| then false
    else if p(s[from], from) then true
    else AnyFrom(s, p, from + 1)
  }

  /** `some`: whether any element satisfies `p`. */
  function Any<X>(s: seq<X>, p: (X, nat) -> bool): (r: bool)
    ensures r <==> exists i :: 0 <= i < |s| && p(s[i], i)
  {
    AnyFrom(s, p, 0)
  }

  /** The scan of `every` from position `from` on. */
  function AllFrom<X>(s: seq<X>, p: (X, nat) -> bool, from: nat): (r: bool)
    requires from <= |s|
    ensures r <==> forall i :: from <= i < |s| ==> p(s[i], i)
    decreases |s| - from
  {
    if from == |s| then true
    else if !p(s[from], from) then false
    else AllFrom(s, p, from + 1)
  }

  /** `every`: whether all elements satisfy `p` (true of the empty sequence). */
  function All<X>(s: seq<X>, p: (X, nat) -> bool): (r: bool)
    ensures r <==> forall i :: 0 <= i < |s| ==> p(s[i], i)
  {
    AllFrom(s, p, 0)
  }

  /** `every p` fails exactly when `some (not p)` succeeds, and `some p`
      succeeds exactly when `findIndex p` finds a position. */
  lemma AnyAllFindIndexAgree<X>(s: seq<X>, p: (X, nat) -> bool)
    ensures All(s, p) == !Any(s, (x, i) => !p(x, i))
    ensures Any(s, p) <==> FindIndex(s, p) != -1
  {
  }

  // ---------------------------------------------------------------------------
  // has
  // ---------------------------------------------------------------------------

  /** The equality scan of `has` from position `from` on. */
  function HasFrom<X(==)>(s: seq<X>, v: X, from: nat): (r: bool)
    requires from <= |s|
    ensures r <==> exists i :: from <= i < |s| && s[i] == v
    decreases |s| - from
  {
    if from == |s| then false
    else if s[from] == v then true
    else HasFrom(s, v, from + 1)
  }

  /** `has`: whether some position holds `v`. */
  function Has<X(==)>(s: seq<X>, v: X): (r: bool)
    ensures r <==> v in s
  {
    HasFrom(s, v, 0)
  }

  // ---------------------------------------------------------------------------
  // map
  // ---------------------------------------------------------------------------

  /** The transformed elements from position `from` on. */
  function MapFrom<X, U>(s: seq<X>, f: (X, nat) -> U, from: nat): (r: seq<U>)
    requires from <= |s|
    ensures |r| == |s| - from
    ensures forall i :: 0 <= i < |r| ==> r[i] == f(s[from + i], from + i)
    decreases |s| - from
  {
    if from == |s| then [] else [f(s[from], from)] + MapFrom(s, f, from + 1)
  }

  /** `map`: position i of the result is `f` of element i and index i. */
  function Map<X, U>(s: seq<X>, f: (X, nat) -> U): (r: seq<U>)
    ensures |r| == |s|
    ensures forall i :: 0 <= i < |s| ==> r[i] == f(s[i], i)
  {
    MapFrom(s, f, 0)
  }

  // ---------------------------------------------------------------------------
  // filter
  // ---------------------------------------------------------------------------

  /** The positions at or after `from` whose element satisfies `p`, ascending. */
  function MatchesFrom<X>(s: seq<X>, p: (X, nat) -> bool, from: nat): (r: seq<nat>)
    requires from <= |s|
    ensures forall j :: 0 <= j < |r| ==> from <= r[j] < |s| && p(s[r[j]], r[j])
    ensures forall j, k :: 0 <= j < k < |r| ==> r[j] < r[k]
    ensures forall i :: from <= i < |s| && p(s[i], i) ==> i in r
    decreases |s| - from
  {
    if from == |s| then []
    else if p(s[from], from) then [from] + MatchesFrom(s, p, from + 1)
    else MatchesFrom(s, p, from + 1)
  }

  /** The positions whose element satisfies `p`, in ascending order: exactly
      the matching positions, each once. */
  function Matches<X>(s: seq<X>, p: (X, nat) -> bool): (r: seq<nat>)
    ensures forall j :: 0 <= j < |r| ==> r[j] < |s| && p(s[r[j]], r[j])
    ensures forall j, k :: 0 <= j < k < |r| ==> r[j] < r[k]
    ensures forall i :: 0 <= i < |s| && p(s[i], i) ==> i in r
  {
    MatchesFrom(s, p, 0)
  }

  /** The elements a `filter` loop started at `from` pushes, in order. */
  function FilterFrom<X>(s: seq<X>, p: (X, nat) -> bool, from: nat): (r: seq<X>)
    requires from <= |s|
    ensures |r| == |MatchesFrom(s, p, from)|
    ensures forall j :: 0 <= j < |r| ==> r[j] == s[MatchesFrom(s, p, from)[j]]
    decreases |s| - from
  {
    if from == |s| then []
    else if p(s[from], from) then [s[from]] + FilterFrom(s, p, from + 1)
    else FilterFrom(s, p, from + 1)
  }

  /** `filter`: the matching elements in their original order; the result is
      as long as the number of matching positions. */
  function Filter<X>(s: seq<X>, p: (X, nat) -> bool): (r: seq<X>)
    ensures |r| == |Matches(s, p)| <= |s|
    ensures forall j :: 0 <= j < |r| ==> r[j] == s[Matches(s, p)[j]]
  {
    MatchesLength(s, p, 0);
    FilterFrom(s, p, 0)
  }

  /** Strictly ascending positions below |s| are at most |s| many. */
  lemma {:induction false} MatchesLength<X>(s: seq<X>, p: (X, nat) -> bool, from: nat)
    requires from <= |s|
    ensures |MatchesFrom(s, p, from)| <= |s| - from
    decreases |s| - from
  {
    if from < |s| {
      MatchesLength(s, p, from + 1);
    }
  }

  // ---------------------------------------------------------------------------
  // reduce
  // ---------------------------------------------------------------------------

  /** Reference left fold: the fold of a sequence is the reducer applied to the
      fold of everything but the last element. */
  function FoldLeft<X, U>(s: seq<X>, f: (U, X, nat) -> U, init: U): U
  {
    if |s| == 0 then init
    else f(FoldLeft(s[..|s| - 1], f, init), s[|s| - 1], |s| - 1)
  }

  /** The accumulator loop of `reduce`, continued from position `from`. */
  function ReduceFrom<X, U>(s: seq<X>, f: (U, X, nat) -> U, acc: U, from: nat): U
    requires from <= |s|
    decreases |s| - from
  {
    if from == |s| then acc else ReduceFrom(s, f, f(acc, s[from], from), from + 1)
  }

  /** `reduce`: the accumulator loop started at `init` from position 0. */
  function Reduce<X, U>(s: seq<X>, f: (U, X, nat) -> U, init: U): (r: U)
    ensures r == FoldLeft(s, f, init)
  {
    ReduceIsFoldLeft(s, f, init, |s|);
    assert s[..|s|] == s;
    ReduceFrom(s, f, init, 0)
  }

  /** Once the loop has consumed the first `k` elements its accumulator is
      the left fold of that prefix, so the whole loop computes the fold. */
  lemma {:induction false} ReduceIsFoldLeft<X, U>(s: seq<X>, f: (U, X, nat) -> U, init: U, k: nat)
    requires k <= |s|
    ensures ReduceFrom(s, f, FoldLeft(s[..k], f, init), k) == ReduceFrom(s, f, init, 0)
    decreases k
  {
    if k > 0 {
      ReduceIsFoldLeft(s, f, init, k - 1);
      assert s[..k][..k - 1] == s[..k - 1];
      assert FoldLeft(s[..k], f, init) == f(FoldLeft(s[..k - 1], f, init), s[k - 1], k - 1);
    } else {
      assert s[..0] == [];
    }
  }
}
