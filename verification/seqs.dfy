/**
 * Splicing one element out of, or into, a sequence: JavaScript's
 * `splice(i, 1)` and `splice(i, 0, x)`, and SQL's removal of one row.
 */
module Seqs {
  /** The sequence without its element at `i`; later elements move down by
      one. */
  function RemoveAt<T>(s: seq<T>, i: nat): (r: seq<T>)
    requires i < |s|
    ensures |r| == |s| - 1
    ensures forall k :: 0 <= k < |r| ==> r[k] == s[if k < i then k else k + 1]
  {
    s[..i] + s[i + 1..]
  }

  /** The sequence with `x` inserted before position `i`; later elements
      move up by one. */
  function InsertAt<T>(s: seq<T>, i: nat, x: T): (r: seq<T>)
    requires i <= |s|
    ensures |r| == |s| + 1
    ensures r[i] == x
    ensures forall k :: 0 <= k < |s| ==> r[if k < i then k else k + 1] == s[k]
  {
    s[..i] + [x] + s[i..]
  }
}
