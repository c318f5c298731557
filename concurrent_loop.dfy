/** The round-robin cursor of src/Neat.Core/Common/ConcurrentLoop.cs, modelled
    sequentially: the lock only serialises calls, so one call is one step. */
module ConcurrentLoops {
  import opened Wrappers
  import opened IntArith

  class ConcurrentLoop<T> {
    const values: seq<T>
    var cursor: int

    /** Between calls the cursor stays in 0..count; on an empty collection a
        failed call leaves it at 1 (the post-increment runs before ElementAt throws). */
    ghost predicate Valid()
      reads this
    {
      0 <= cursor && (if |values| > 0 then cursor <= |values| else cursor <= 1)
    }

    constructor (source: seq<T>)
      ensures Valid() && values == source && cursor == 0
    {
      values := source;
      cursor := 0;
    }

    /** GetNext wraps the cursor to 0 when it has run past the end, returns the
        value under it and advances it; ElementAt(0) throws on an empty collection. */
    method GetNext() returns (r: Result<T>)
      requires Valid()
      modifies this
      ensures Valid()
      ensures |values| == 0 ==> r.Failure? && cursor == 1
      ensures |values| > 0 ==> r == Success(values[old(cursor) % |values|])
      ensures |values| > 0 ==> cursor == old(cursor) % |values| + 1
    {
      if cursor >= |values| {
        cursor := 0;
      }
      var at := cursor;
      cursor := cursor + 1;
      if at < |values| {
        r := Success(values[at]);
      } else {
        r := Failure(ArgumentOutOfRange("index"));
      }
    }

    /** GetNext(count) yields `count` values continuing the same cycle from the
        shared cursor; a count of zero or less yields nothing. */
    method GetNextMany(count: int) returns (r: Result<seq<T>>)
      requires Valid()
      modifies this
      ensures Valid()
      ensures count <= 0 ==> r == Success([]) && cursor == old(cursor)
      ensures count > 0 && |values| == 0 ==> r.Failure? && cursor == 1
      ensures count > 0 && |values| > 0 ==> r.Success? && |r.value| == count
      ensures count > 0 && |values| > 0 ==>
        forall i :: 0 <= i < count ==> r.value[i] == values[(old(cursor) + i) % |values|]
      ensures count > 0 && |values| > 0 ==> cursor == (old(cursor) + count - 1) % |values| + 1
    {
      var items: seq<T> := [];
      var i := 0;
      while i < count
        invariant 0 <= i <= (if count < 0 then 0 else count)
        invariant Valid()
        invariant |items| == i
        invariant |values| > 0 ==> forall j :: 0 <= j < i ==> items[j] == values[(old(cursor) + j) % |values|]
        invariant |values| > 0 && i > 0 ==> cursor == (old(cursor) + i - 1) % |values| + 1
        invariant i == 0 ==> cursor == old(cursor)
        invariant |values| == 0 ==> i == 0
      {
        var next := GetNext();
        if next.Failure? {
          return Failure(next.error);
        }
        if |values| > 0 && i > 0 {
          WrapStep(old(cursor) + i - 1, |values|);
        }
        items := items + [next.value];
        i := i + 1;
      }
      r := Success(items);
    }
  }

  /** Advancing a wrapped cursor by one is wrapping the next position. */
  lemma WrapStep(k: int, n: int)
    requires n > 0 && k >= 0
    ensures ((k % n) + 1) % n == (k + 1) % n
  {
    var q, m := k / n, k % n;
    if m + 1 < n {
      DivModUnique(k + 1, n, q, m + 1);
      DivModUnique(m + 1, n, 0, m + 1);
    } else {
      DivModUnique(k + 1, n, q + 1, 0);
      DivModUnique(m + 1, n, 1, 0);
    }
  }

}
