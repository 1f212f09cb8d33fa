/**
 * The .NET `List<T>` operations the C# prototypes use, as a class over a
 * sequence. An index outside the list makes `RemoveAt`, `Insert`, `RemoveRange`
 * and the indexer throw `ArgumentOutOfRangeException`; here each of them is a
 * precondition.
 */
module CsLists {

  class CsList<T> {
    var items: seq<T>

    constructor (items: seq<T>)
      ensures this.items == items
    {
      this.items := items;
    }

    /** `list.Add(x)`. */
    method Add(x: T)
      modifies this
      ensures items == old(items) + [x]
    {
      items := items + [x];
    }

    /** `list.Insert(index, x)`: `index` may be the length of the list. */
    method Insert(index: int, x: T)
      requires 0 <= index <= |items|
      modifies this
      ensures items == old(items[..index]) + [x] + old(items[index..])
    {
      items := items[..index] + [x] + items[index..];
    }

    /** `list.RemoveAt(index)`. */
    method RemoveAt(index: int)
      requires 0 <= index < |items|
      modifies this
      ensures items == RemovedAt(old(items), index)
    {
      items := RemovedAt(items, index);
    }

    /** `list.RemoveRange(index, count)`. */
    method RemoveRange(index: int, count: int)
      requires 0 <= index && 0 <= count && index + count <= |items|
      modifies this
      ensures items == old(items[..index]) + old(items[index + count..])
    {
      items := items[..index] + items[index + count..];
    }
  }

  /** The list after `RemoveAt(i)`: every element after `i` moves down by one. */
  function RemovedAt<T>(s: seq<T>, i: int): (r: seq<T>)
    requires 0 <= i < |s|
    ensures |r| == |s| - 1
    ensures forall j :: 0 <= j < i ==> r[j] == s[j]
    ensures forall j :: i <= j < |r| ==> r[j] == s[j + 1]
  {
    s[..i] + s[i + 1..]
  }

  /**
   * Every `RemoveAt(idx[k])` of a sequence of calls is in range: the k-th call
   * sees a list that is already `k` elements shorter.
   */
  predicate RemovalsFit(n: int, idx: seq<int>)
  {
    forall k :: 0 <= k < |idx| ==> 0 <= idx[k] < n - k
  }

  /** The list after `RemoveAt(idx[0])`, `RemoveAt(idx[1])`, … in this order. */
  function RemovedEach<T>(s: seq<T>, idx: seq<int>): (r: seq<T>)
    requires RemovalsFit(|s|, idx)
    ensures |r| == |s| - |idx|
    decreases |idx|
  {
    if idx == [] then s
    else RemovedAt(RemovedEach(s, idx[..|idx| - 1]), idx[|idx| - 1])
  }

  /** What survives a sequence of removals was in the list. */
  lemma {:induction false} RemovedEachMembers<T>(s: seq<T>, idx: seq<int>, x: T)
    requires RemovalsFit(|s|, idx)
    requires x in RemovedEach(s, idx)
    ensures x in s
    decreases |idx|
  {
    if idx != [] {
      var front := idx[..|idx| - 1];
      var before := RemovedEach(s, front);
      var last := idx[|idx| - 1];
      assert RemovedEach(s, idx) == before[..last] + before[last + 1..];
      assert x in before;
      RemovedEachMembers(s, front, x);
    }
  }

  /**
   * Removals in decreasing index order never shift an index still to come, so
   * removing `hi, hi-1, …, lo` cuts the block `lo..hi` out in one piece.
   */
  lemma {:induction false} RemovedEachDescending<T>(s: seq<T>, lo: int, hi: int)
    requires 0 <= lo <= hi + 1 <= |s|
    ensures RemovalsFit(|s|, Descending(lo, hi))
    ensures RemovedEach(s, Descending(lo, hi)) == s[..lo] + s[hi + 1..]
    decreases hi - lo + 1
  {
    var d := Descending(lo, hi);
    assert RemovalsFit(|s|, d) by {
      forall k | 0 <= k < |d| ensures 0 <= d[k] < |s| - k {
      }
    }
    if lo <= hi {
      var front := Descending(lo + 1, hi);
      assert d[..|d| - 1] == front;
      RemovedEachDescending(s, lo + 1, hi);
      var before := s[..lo + 1] + s[hi + 1..];
      assert RemovedEach(s, d) == RemovedAt(before, lo);
      assert RemovedAt(before, lo) == s[..lo] + s[hi + 1..];
    }
  }

  /** The indices `hi, hi-1, …, lo`. */
  function Descending(lo: int, hi: int): (r: seq<int>)
    ensures |r| == (if lo <= hi then hi - lo + 1 else 0)
    ensures forall k :: 0 <= k < |r| ==> r[k] == hi - k
    decreases hi - lo + 1
  {
    if lo > hi then [] else [hi] + Descending(lo, hi - 1)
  }

  /** The list after inserting `items` as one block before position `at`. */
  function InsertedBlock<T>(s: seq<T>, at: int, items: seq<T>): (r: seq<T>)
    requires items == [] || 0 <= at <= |s|
    ensures |r| == |s| + |items|
  {
    if items == [] then s else s[..at] + items + s[at..]
  }

  /**
   * `foreach (var item in items.Select((value, i) => …)) list.Insert(at + item.i, item.value)`:
   * each insertion lands right after the previous one, so the items end up as
   * one block in their own order.
   */
  method InsertEach<T>(list: CsList<T>, at: int, items: seq<T>)
    requires items == [] || 0 <= at <= |list.items|
    modifies list
    ensures list.items == InsertedBlock(old(list.items), at, items)
  {
    if items == [] {
      return;
    }
    ghost var s := list.items;
    assert s[..at] + items[..0] + s[at..] == s;
    for i := 0 to |items|
      invariant list.items == s[..at] + items[..i] + s[at..]
    {
      assert (s[..at] + items[..i])[..at + i] == s[..at] + items[..i];
      list.Insert(at + i, items[i]);
      assert items[..i + 1] == items[..i] + [items[i]];
    }
    assert items[..|items|] == items;
  }

  /** `foreach (var i in idx) list.RemoveAt(i)`. */
  method RemoveEach<T>(list: CsList<T>, idx: seq<int>)
    requires RemovalsFit(|list.items|, idx)
    modifies list
    ensures list.items == RemovedEach(old(list.items), idx)
  {
    ghost var s := list.items;
    for k := 0 to |idx|
      invariant RemovalsFit(|s|, idx[..k])
      invariant list.items == RemovedEach(s, idx[..k])
    {
      assert idx[..k + 1][..k] == idx[..k];
      list.RemoveAt(idx[k]);
    }
    assert idx[..|idx|] == idx;
  }
}
