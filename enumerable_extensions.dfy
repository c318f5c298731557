/** Sequence helpers of src/Neat.Core/Common/EnumerableExtensions.cs that the
    compiler, the mutations and the trainer rely on. */
module EnumerableExtensions {
  import opened Wrappers

  /** Position of the first element satisfying `p`, if any: the meaning of
      both FindIndex and TryFindIndex. Functions elsewhere use this one. */
  function FirstMatch<T>(s: seq<T>, p: T -> bool): (r: Option<nat>)
    ensures r.None? <==> forall i :: 0 <= i < |s| ==> !p(s[i])
    ensures r.Some? ==> r.value < |s| && p(s[r.value])
    ensures r.Some? ==> forall j :: 0 <= j < r.value ==> !p(s[j])
  {
    if |s| == 0 then None
    else if p(s[0]) then Some(0)
    else match FirstMatch(s[1..], p)
      case None => None
      case Some(k) => Some(k + 1)
  }

  /** FindIndex: counts positions while scanning and stops at the first match;
      -1 when nothing matches. */
  method FindIndex<T>(source: seq<T>, pred: T -> bool) returns (index: int)
    ensures -1 <= index < |source|
    ensures index == -1 <==> forall i :: 0 <= i < |source| ==> !pred(source[i])
    ensures 0 <= index ==> pred(source[index]) && forall j :: 0 <= j < index ==> !pred(source[j])
    ensures index == (match FirstMatch(source, pred) case None => -1 case Some(k) => k)
  {
    index := 0;
    while index < |source|
      invariant 0 <= index <= |source|
      invariant forall j :: 0 <= j < index ==> !pred(source[j])
    {
      if pred(source[index]) {
        return;
      }
      index := index + 1;
    }
    index := -1;
  }

  /** TryFindIndex: true with the first matching position, or false with null. */
  method TryFindIndex<T>(source: seq<T>, pred: T -> bool) returns (found: bool, index: Option<nat>)
    ensures found <==> index.Some?
    ensures found <==> exists i :: 0 <= i < |source| && pred(source[i])
    ensures found ==> index.value < |source| && pred(source[index.value])
    ensures found ==> forall j :: 0 <= j < index.value ==> !pred(source[j])
    ensures index == FirstMatch(source, pred)
  {
    var i := 0;
    while i < |source|
      invariant 0 <= i <= |source|
      invariant forall j :: 0 <= j < i ==> !pred(source[j])
    {
      if pred(source[i]) {
        found, index := true, Some(i);
        return;
      }
      i := i + 1;
    }
    found, index := false, None;
  }

  /** TrimToEnd keeps the last `maxLength` elements of a longer list; a
      negative length makes List.GetRange throw. */
  function TrimToEnd<T>(source: seq<T>, maxLength: int): (r: Result<seq<T>>)
    ensures r.Failure? <==> maxLength < 0
    ensures r.Success? ==> |r.value| == (if |source| < maxLength then |source| else maxLength)
    ensures r.Success? ==> r.value == source[|source| - |r.value|..]
  {
    if |source| > maxLength then
      if maxLength < 0 then Failure(ArgumentOutOfRange("count"))
      else Success(source[|source| - maxLength..])
    else Success(source)
  }

  /** IfEmpty: the source's elements when there are any, the default's otherwise. */
  function IfEmpty<T>(source: seq<T>, defaultValue: seq<T>): (r: seq<T>)
    ensures |source| > 0 ==> r == source
    ensures |source| == 0 ==> r == defaultValue
    ensures |r| == 0 <==> |source| == 0 && |defaultValue| == 0
  {
    if |source| > 0 then source else defaultValue
  }

  function Sum(s: seq<real>): real
  {
    if |s| == 0 then 0.0 else s[0] + Sum(s[1..])
  }

  lemma {:induction false} SumAppend(a: seq<real>, b: seq<real>)
    ensures Sum(a + b) == Sum(a) + Sum(b)
  {
    if |a| == 0 {
      assert a + b == b;
    } else {
      assert (a + b)[1..] == a[1..] + b;
      SumAppend(a[1..], b);
    }
  }

  /** The non-null values of a sequence of nullable numbers, in order. */
  function Present(s: seq<Option<real>>): (r: seq<real>)
    ensures |r| == 0 <==> forall i :: 0 <= i < |s| ==> s[i].None?
  {
    if |s| == 0 then []
    else if s[0].Some? then [s[0].value] + Present(s[1..])
    else Present(s[1..])
  }

  /** SumOrDefault: null when no value is present, the sum of the present values otherwise. */
  function SumOrDefault(source: seq<Option<real>>): (r: Option<real>)
    ensures r.None? <==> forall i :: 0 <= i < |source| ==> source[i].None?
    ensures r.Some? ==> r.value == Sum(Present(source))
  {
    var list := Present(source);
    if |list| == 0 then None else Some(Sum(list))
  }

  lemma {:induction false} PresentAppend(a: seq<Option<real>>, b: seq<Option<real>>)
    ensures Present(a + b) == Present(a) + Present(b)
  {
    if |a| == 0 {
      assert a + b == b;
    } else {
      assert (a + b)[1..] == a[1..] + b;
      PresentAppend(a[1..], b);
    }
  }

  /** Summing two lists that both hold values is summing each and adding;
      a list without values does not change the other's sum. */
  lemma SumOrDefaultAppend(a: seq<Option<real>>, b: seq<Option<real>>)
    ensures SumOrDefault(a).Some? && SumOrDefault(b).Some? ==>
      SumOrDefault(a + b) == Some(SumOrDefault(a).value + SumOrDefault(b).value)
    ensures SumOrDefault(a).None? ==> SumOrDefault(a + b) == SumOrDefault(b)
    ensures SumOrDefault(b).None? ==> SumOrDefault(a + b) == SumOrDefault(a)
  {
    PresentAppend(a, b);
    SumAppend(Present(a), Present(b));
  }

  /** The indexed Times overload is Enumerable.Range(0, count).Select(builder):
      Range throws for a negative count. */
  function TimesIndexed<T>(count: int, builder: nat -> T): (r: Result<seq<T>>)
    ensures r.Failure? <==> count < 0
    ensures r.Success? ==> |r.value| == count && forall i :: 0 <= i < count ==> r.value[i] == builder(i)
  {
    if count < 0 then Failure(ArgumentOutOfRange("count"))
    else Success(seq(count, i requires 0 <= i < count => builder(i)))
  }

  /** The parameterless Times overload returns nothing for count <= 0 and
      otherwise invokes the factory `count` times; `invocation(k)` is what
      the k-th invocation of the factory returns. */
  function Times<T>(count: int, invocation: nat -> T): (r: seq<T>)
    ensures |r| == (if count <= 0 then 0 else count)
    ensures forall i :: 0 <= i < |r| ==> r[i] == invocation(i)
  {
    if count <= 0 then [] else seq(count, i requires 0 <= i < count => invocation(i))
  }

  /** A ConcurrentBag: an unordered collection. */
  class Bag<T(==)> {
    var contents: multiset<T>

    constructor ()
      ensures contents == multiset{}
    {
      contents := multiset{};
    }

    /** AddRange adds every item and returns the same bag. */
    method AddRange(items: seq<T>) returns (r: Bag<T>)
      modifies this
      ensures r == this
      ensures contents == old(contents) + multiset(items)
    {
      var i := 0;
      while i < |items|
        invariant 0 <= i <= |items|
        invariant contents == old(contents) + multiset(items[..i])
      {
        assert items[..i + 1] == items[..i] + [items[i]];
        contents := contents + multiset{items[i]};
        i := i + 1;
      }
      assert items[..|items|] == items;
      r := this;
    }
  }

  /** A Queue: first in, first out. */
  class Queue<T> {
    var contents: seq<T>

    constructor ()
      ensures contents == []
    {
      contents := [];
    }

    /** EnqueueRange appends every item in order and returns the same queue. */
    method EnqueueRange(items: seq<T>) returns (r: Queue<T>)
      modifies this
      ensures r == this
      ensures contents == old(contents) + items
    {
      var i := 0;
      while i < |items|
        invariant 0 <= i <= |items|
        invariant contents == old(contents) + items[..i]
      {
        assert items[..i + 1] == items[..i] + [items[i]];
        contents := contents + [items[i]];
        i := i + 1;
      }
      assert items[..|items|] == items;
      r := this;
    }
  }
}
