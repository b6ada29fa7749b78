/**
 * The JavaScript array primitives the viewer is written with, stated on
 * sequences: `filter` with an index-aware callback, `slice` with its
 * clamping of out-of-range and negative bounds, and `indexOf`.
 */
module Seqs {

  /** Every element strictly greater than the one before it. */
  ghost predicate StrictlyIncreasing(xs: seq<int>)
  {
    forall a, b :: 0 <= a < b < |xs| ==> xs[a] < xs[b]
  }

  /**
   * `s.filter((x, i) => keep(x, i))`: the elements for which the callback,
   * given the element and its position in `s`, returns true, in order.
   */
  function Filter<T>(s: seq<T>, keep: (T, int) -> bool): (r: seq<T>)
    ensures |r| <= |s|
  {
    if |s| == 0 then []
    else Filter(s[..|s| - 1], keep) + (if keep(s[|s| - 1], |s| - 1) then [s[|s| - 1]] else [])
  }

  /** The positions of `s` that `Filter(s, keep)` keeps, in ascending order. */
  function Kept<T>(s: seq<T>, keep: (T, int) -> bool): (r: seq<int>)
    ensures StrictlyIncreasing(r)
    ensures forall k :: 0 <= k < |r| ==> 0 <= r[k] < |s|
    ensures forall i :: 0 <= i < |s| ==> (i in r <==> keep(s[i], i))
  {
    if |s| == 0 then []
    else
      var front := Kept(s[..|s| - 1], keep);
      assert forall i :: 0 <= i < |s| - 1 ==> s[..|s| - 1][i] == s[i];
      front + (if keep(s[|s| - 1], |s| - 1) then [|s| - 1] else [])
  }

  /**
   * The filter result is the input read at the kept positions: a
   * subsequence of the input, in the input's order, holding exactly the
   * elements whose callback returned true.
   */
  lemma {:induction false} FilterSelectsKept<T>(s: seq<T>, keep: (T, int) -> bool)
    ensures |Filter(s, keep)| == |Kept(s, keep)|
    ensures forall k :: 0 <= k < |Filter(s, keep)| ==> Filter(s, keep)[k] == s[Kept(s, keep)[k]]
  {
    if |s| > 0 {
      FilterSelectsKept(s[..|s| - 1], keep);
    }
  }

  /** A callback that accepts every element leaves the array as it was. */
  lemma {:induction false} FilterKeepsAll<T>(s: seq<T>, keep: (T, int) -> bool)
    requires forall i :: 0 <= i < |s| ==> keep(s[i], i)
    ensures Filter(s, keep) == s
  {
    if |s| > 0 {
      FilterKeepsAll(s[..|s| - 1], keep);
      assert s[..|s| - 1] + [s[|s| - 1]] == s;
    }
  }

  /** JavaScript's clamping of a `slice` bound: negative counts from the end. */
  function SliceBound(i: int, len: nat): (r: nat)
    ensures r <= len
    ensures 0 <= i <= len ==> r == i
    ensures i > len ==> r == len
    ensures i < 0 ==> r == (if len + i < 0 then 0 else len + i)
  {
    if i < 0 then (if len + i < 0 then 0 else len + i)
    else if i > len then len
    else i
  }

  /** Clamping never widens the gap between two ordered bounds. */
  lemma SliceBoundGap(i: int, j: int, len: nat)
    ensures i <= j ==> SliceBound(j, len) - SliceBound(i, len) <= j - i
  {
  }

  /** `s.slice(start, end)`: never fails, empty when the clamped bounds cross. */
  function Slice<T>(s: seq<T>, start: int, end: int): (r: seq<T>)
    ensures 0 <= start <= end ==>
      r == s[(if start < |s| then start else |s|)..(if end < |s| then end else |s|)]
    ensures |r| <= |s|
    ensures start <= end ==> |r| <= end - start
  {
    var a := SliceBound(start, |s|);
    var b := SliceBound(end, |s|);
    SliceBoundGap(start, end, |s|);
    if a < b then s[a..b] else []
  }

  /** `s.indexOf(x)`: the first position holding `x`, or -1. */
  function IndexOf<T(==)>(s: seq<T>, x: T): (r: int)
    ensures r == -1 <==> x !in s
    ensures r != -1 ==> 0 <= r < |s| && s[r] == x && x !in s[..r]
  {
    if |s| == 0 then -1
    else if s[0] == x then 0
    else
      var i := IndexOf(s[1..], x);
      assert s[1..] == s[1..][..] && (i != -1 ==> s[..i + 1] == [s[0]] + s[1..][..i]);
      if i == -1 then -1 else i + 1
  }
}
