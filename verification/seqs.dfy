/** Sequence vocabulary shared by the studies: index lists, gathering by
    index, Python slicing and boolean-mask positions. */
module Seqs {

  function Min(a: int, b: int): int { if a <= b then a else b }

  function Max(a: int, b: int): int { if a <= b then b else a }

  /** No element occurs twice. */
  predicate Distinct<T(==)>(s: seq<T>) {
    forall i, j :: 0 <= i < j < |s| ==> s[i] != s[j]
  }

  /** Every index in `ix` addresses a position of a sequence of length `n`. */
  predicate InRange(ix: seq<nat>, n: nat) {
    forall k :: 0 <= k < |ix| ==> ix[k] < n
  }

  predicate StrictlyIncreasing(ix: seq<nat>) {
    forall i, j :: 0 <= i < j < |ix| ==> ix[i] < ix[j]
  }

  /** The indices `0, 1, ..., n-1` in order (`np.arange(n)`). */
  function Range(n: nat): (r: seq<nat>)
    ensures |r| == n
    ensures forall i :: 0 <= i < n ==> r[i] == i
  {
    seq(n, i requires 0 <= i < n => i)
  }

  /** Positional selection `s[ix]` (numpy fancy indexing, pandas `iloc`). */
  function Gather<T>(s: seq<T>, ix: seq<nat>): (r: seq<T>)
    requires InRange(ix, |s|)
    ensures |r| == |ix|
    ensures forall k :: 0 <= k < |ix| ==> r[k] == s[ix[k]]
  {
    seq(|ix|, k requires 0 <= k < |ix| => s[ix[k]])
  }

  /** Python's `s[lo:hi]` for non-negative bounds: a bound past the end is
      clamped to the length and an inverted range is empty, never an error. */
  function Slice<T>(s: seq<T>, lo: nat, hi: nat): (r: seq<T>)
    ensures |r| == Max(0, Min(hi, |s|) - lo)
    ensures forall k :: 0 <= k < |r| ==> lo + k < |s| && r[k] == s[lo + k]
  {
    var start := Min(lo, |s|);
    var stop := Max(start, Min(hi, |s|));
    s[start..stop]
  }

  /** Python's `s[::-1]`. */
  function Reverse<T>(s: seq<T>): (r: seq<T>)
    ensures |r| == |s|
    ensures forall k :: 0 <= k < |s| ==> r[k] == s[|s| - 1 - k]
  {
    seq(|s|, k requires 0 <= k < |s| => s[|s| - 1 - k])
  }

  /** The positions where the mask holds, in increasing order:
      `np.arange(len(m))[m]`, and the row set a pandas boolean mask keeps. */
  function Positions(m: seq<bool>): (r: seq<nat>)
    ensures StrictlyIncreasing(r)
    ensures InRange(r, |m|)
    ensures forall i :: 0 <= i < |m| ==> (m[i] <==> i in r)
  {
    if |m| == 0 then []
    else
      var init := Positions(m[..|m| - 1]);
      if m[|m| - 1] then init + [|m| - 1] else init
  }

  /** A strictly increasing index list has no repeated entry. */
  lemma IncreasingIsDistinct(ix: seq<nat>)
    requires StrictlyIncreasing(ix)
    ensures Distinct(ix)
  {
  }

  /** Gathering through distinct indices from a sequence without repeats
      yields a sequence without repeats. */
  lemma GatherDistinct<T>(s: seq<T>, ix: seq<nat>)
    requires InRange(ix, |s|) && Distinct(s) && Distinct(ix)
    ensures Distinct(Gather(s, ix))
  {
  }
}
