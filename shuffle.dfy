/** Shuffle and Random, the enumerable helpers the evolution and speciation
    code draws with (src/Neat.Core/Common/EnumerableExtensions.cs). A
    shuffle is a random permutation; the model takes the draws that choose
    it, so every order stays reachable and nothing else is. */
module Shuffles {
  import opened Wrappers
  import IntArith

  /** The order a list of draws picks: each draw chooses, modulo the number
      of items left, the next item among those not placed yet (a missing
      draw counts as 0). */
  function Shuffled<T>(items: seq<T>, picks: seq<nat>): (r: seq<T>)
    ensures multiset(r) == multiset(items)
    ensures |r| == |items|
    decreases |items|
  {
    if |items| == 0 then []
    else
      var k := (if |picks| > 0 then picks[0] else 0) % |items|;
      var rest := items[..k] + items[k + 1..];
      assert items == items[..k] + [items[k]] + items[k + 1..];
      [items[k]] + Shuffled(rest, if |picks| > 0 then picks[1..] else [])
  }

  lemma Cancel<T>(a: multiset<T>, b: multiset<T>, x: T)
    requires a + multiset{x} == b + multiset{x}
    ensures a == b
  {
    forall y ensures a[y] == b[y] {
      assert (a + multiset{x})[y] == (b + multiset{x})[y];
    }
  }

  /** Every permutation is the shuffle of some draws. */
  lemma {:induction false} EveryOrder<T>(items: seq<T>, order: seq<T>) returns (picks: seq<nat>)
    requires multiset(order) == multiset(items)
    ensures Shuffled(items, picks) == order
    decreases |items|
  {
    if |items| == 0 {
      assert |order| == |multiset(order)| == 0;
      picks := [];
    } else {
      assert |order| == |multiset(order)| == |items|;
      assert order[0] in multiset(items);
      assert order[0] in items;
      var k :| 0 <= k < |items| && items[k] == order[0];
      var rest := items[..k] + items[k + 1..];
      SameRest(items, order, k);
      var tail := EveryOrder(rest, order[1..]);
      picks := [k] + tail;
      ShuffledStep(items, k, tail);
      assert order == [order[0]] + order[1..];
    }
  }

  lemma SameRest<T>(items: seq<T>, order: seq<T>, k: nat)
    requires multiset(order) == multiset(items) && k < |items| && 0 < |order| && items[k] == order[0]
    ensures multiset(order[1..]) == multiset(items[..k] + items[k + 1..])
  {
    Removed(order, 0);
    Removed(items, k);
    assert order[..0] + order[1..] == order[1..];
    Cancel(multiset(order[1..]), multiset(items[..k] + items[k + 1..]), order[0]);
  }

  lemma ShuffledStep<T>(items: seq<T>, k: nat, tail: seq<nat>)
    requires k < |items|
    ensures Shuffled(items, [k] + tail) == [items[k]] + Shuffled(items[..k] + items[k + 1..], tail)
  {
    IntArith.DivModUnique(k, |items|, 0, k);
    assert ([k] + tail)[1..] == tail;
  }

  lemma Removed<T>(items: seq<T>, k: nat)
    requires k < |items|
    ensures multiset(items) == multiset(items[..k] + items[k + 1..]) + multiset{items[k]}
  {
    assert items == items[..k] + [items[k]] + items[k + 1..];
  }

  /** Random: the first item of a shuffle; on an empty list First throws. */
  function RandomItem<T>(items: seq<T>, picks: seq<nat>): (r: Result<T>)
    ensures r.Success? <==> |items| > 0
    ensures r.Success? ==> r.value in items
  {
    if |items| == 0 then Failure(InvalidOperation("Sequence contains no elements"))
    else
      var order := Shuffled(items, picks);
      assert order[0] in multiset(items);
      Success(order[0])
  }

  /** Every item of a non-empty list can come out of Random. */
  lemma RandomReaches<T>(items: seq<T>, i: nat) returns (picks: seq<nat>)
    requires i < |items|
    ensures RandomItem(items, picks) == Success(items[i])
  {
    picks := [i];
    IntArith.DivModUnique(i, |items|, 0, i);
  }
}
