/**
 * Python list operations the pipeline relies on: slicing with normalised
 * bounds (`s[i:j]`, where a negative bound counts from the end and every bound
 * is clamped to the list), slice assignment of an empty slice (`s[i:i] = items`)
 * and the index filter `[x for j, x in enumerate(s) if not drop(j)]`.
 */
module PyList {

  /** The position a Python slice bound `i` denotes in a list of length `n`. */
  function SliceIndex(i: int, n: nat): (r: nat)
    ensures r <= n
  {
    if i < 0 then (if n + i < 0 then 0 else n + i)
    else if i > n then n
    else i
  }

  /** Python's `s[i:j]`. */
  function Slice<T>(s: seq<T>, i: int, j: int): (r: seq<T>)
    ensures 0 <= i <= j <= |s| ==> r == s[i..j]
    ensures |r| <= |s|
  {
    var a, b := SliceIndex(i, |s|), SliceIndex(j, |s|);
    if a <= b then s[a..b] else []
  }

  /** The list after Python's `s[i:i] = items`: `items` inserted before position `i` (normalised). */
  function InsertAt<T>(s: seq<T>, i: int, items: seq<T>): (r: seq<T>)
    ensures |r| == |s| + |items|
    ensures var k := SliceIndex(i, |s|);
      && (forall j :: 0 <= j < k ==> r[j] == s[j])
      && (forall j :: 0 <= j < |items| ==> r[k + j] == items[j])
      && (forall j :: k <= j < |s| ==> r[j + |items|] == s[j])
  {
    var k := SliceIndex(i, |s|);
    s[..k] + items + s[k..]
  }

  /** `[x for j, x in enumerate(s) if not drop(j)]`. */
  function DropIndices<T>(s: seq<T>, drop: int -> bool): (r: seq<T>)
    ensures |r| <= |s|
    decreases |s|
  {
    if s == [] then []
    else DropIndices(s[..|s| - 1], drop) + (if drop(|s| - 1) then [] else [s[|s| - 1]])
  }

  /** Dropping exactly the indices `lo <= j < end` of a range that lies in the list cuts that range out. */
  lemma {:induction false} DropRange<T>(s: seq<T>, lo: int, end: int, drop: int -> bool)
    requires 0 <= lo <= end <= |s|
    requires forall j :: 0 <= j < |s| ==> drop(j) == (lo <= j < end)
    ensures DropIndices(s, drop) == s[..lo] + s[end..]
    decreases |s|
  {
    if |s| == end {
      DropNone(s[..lo], drop);
      DropAllAfter(s, lo, drop);
      assert s[end..] == [];
    } else {
      var front := s[..|s| - 1];
      DropRange(front, lo, end, drop);
      DropKeepsLast(s, front, lo, end);
    }
  }

  /** The step of `DropRange` past the range: the last element is kept. */
  lemma DropKeepsLast<T>(s: seq<T>, front: seq<T>, lo: int, end: int)
    requires 0 <= lo <= end < |s| && front == s[..|s| - 1]
    ensures front[..lo] + front[end..] + [s[|s| - 1]] == s[..lo] + s[end..]
  {
    assert front[..lo] == s[..lo];
    assert front[end..] + [s[|s| - 1]] == s[end..];
  }

  /** Dropping every index from `lo` on leaves the prefix before `lo`. */
  lemma {:induction false} DropAllAfter<T>(s: seq<T>, lo: nat, drop: int -> bool)
    requires lo <= |s|
    requires forall j :: lo <= j < |s| ==> drop(j)
    ensures DropIndices(s, drop) == DropIndices(s[..lo], drop)
    decreases |s|
  {
    if |s| > lo {
      DropAllAfter(s[..|s| - 1], lo, drop);
      assert s[..|s| - 1][..lo] == s[..lo];
    } else {
      assert s[..lo] == s;
    }
  }

  /** Dropping no index changes nothing. */
  lemma {:induction false} DropNone<T>(s: seq<T>, drop: int -> bool)
    requires forall j :: 0 <= j < |s| ==> !drop(j)
    ensures DropIndices(s, drop) == s
    decreases |s|
  {
    if s != [] {
      DropNone(s[..|s| - 1], drop);
    }
  }

  /** Elements before the first dropped index keep their positions. */
  lemma {:induction false} DropKeepsPrefix<T>(s: seq<T>, k: nat, drop: int -> bool)
    requires k <= |s|
    requires forall j :: 0 <= j < k ==> !drop(j)
    ensures |DropIndices(s, drop)| >= k
    ensures DropIndices(s, drop)[..k] == s[..k]
    decreases |s|
  {
    if |s| > k {
      DropKeepsPrefix(s[..|s| - 1], k, drop);
      assert s[..|s| - 1][..k] == s[..k];
    } else {
      DropNone(s, drop);
    }
  }

  /** An element survives exactly when its index is not dropped; what survives is in `s`. */
  lemma {:induction false} DropMembers<T>(s: seq<T>, drop: int -> bool, x: T)
    ensures x in DropIndices(s, drop) <==> exists j :: 0 <= j < |s| && !drop(j) && s[j] == x
    decreases |s|
  {
    if s != [] {
      DropMembers(s[..|s| - 1], drop, x);
      if x in DropIndices(s[..|s| - 1], drop) {
        var j :| 0 <= j < |s| - 1 && !drop(j) && s[..|s| - 1][j] == x;
        assert s[j] == x;
      }
      if exists j :: 0 <= j < |s| && !drop(j) && s[j] == x {
        var j :| 0 <= j < |s| && !drop(j) && s[j] == x;
        if j < |s| - 1 { assert s[..|s| - 1][j] == x; }
      }
    }
  }

  /** Filtering a list is filtering its two halves, the second with its indices shifted by the split point. */
  lemma {:induction false} DropSplit<T>(s: seq<T>, k: nat, drop: int -> bool)
    requires k <= |s|
    ensures DropIndices(s, drop) == DropIndices(s[..k], drop) + DropIndices(s[k..], j => drop(j + k))
    decreases |s|
  {
    if |s| == k {
      assert s[..k] == s;
      assert s[k..] == [];
    } else {
      var front, back, shifted := s[..|s| - 1], s[k..], j => drop(j + k);
      DropSplit(front, k, drop);
      assert front[..k] == s[..k];
      assert back[..|back| - 1] == front[k..] && back[|back| - 1] == s[|s| - 1];
      assert shifted(|back| - 1) == drop(|s| - 1);
    }
  }

  /** Two filters that agree on every index of the list keep the same elements. */
  lemma {:induction false} DropSame<T>(s: seq<T>, d1: int -> bool, d2: int -> bool)
    requires forall j :: 0 <= j < |s| ==> d1(j) == d2(j)
    ensures DropIndices(s, d1) == DropIndices(s, d2)
    decreases |s|
  {
    if s != [] {
      DropSame(s[..|s| - 1], d1, d2);
    }
  }
}
