/** `np.argsort` and what can be said about windows of its result.

    numpy's default sort is not stable, so the order it gives to equal keys
    is not specified. `Argsort` below is one concrete ranking (an insertion
    sort); every property of a ranked window is proved from `IsArgsort`
    alone, so it holds for whichever tie order numpy happens to produce. */
module Ranking {
  import opened Seqs

  /** `order` lists indices of `keys` with non-decreasing keys. */
  predicate SortedBy(keys: seq<real>, order: seq<nat>) {
    && InRange(order, |keys|)
    && forall i, j :: 0 <= i < j < |order| ==> keys[order[i]] <= keys[order[j]]
  }

  /** `order` lists every index below `n` exactly once. */
  predicate IsPermutation(order: seq<nat>, n: nat) {
    && |order| == n
    && InRange(order, n)
    && Distinct(order)
    && forall i :: 0 <= i < n ==> i in order
  }

  /** `order` is a possible result of `np.argsort(keys)`. */
  predicate IsArgsort(keys: seq<real>, order: seq<nat>) {
    IsPermutation(order, |keys|) && SortedBy(keys, order)
  }

  /** Inserts index `x` into a ranking, in front of the first index whose
      key is not smaller. */
  function Insert(keys: seq<real>, x: nat, s: seq<nat>): (r: seq<nat>)
    requires x < |keys| && SortedBy(keys, s)
    ensures |r| == |s| + 1
    ensures forall y :: y in r <==> y == x || y in s
    ensures SortedBy(keys, r)
    ensures Distinct(s) && x !in s ==> Distinct(r)
    decreases |s|
  {
    if |s| == 0 || keys[x] <= keys[s[0]] then [x] + s
    else
      var rest := Insert(keys, x, s[1..]);
      assert forall j :: 0 <= j < |rest| ==> keys[s[0]] <= keys[rest[j]] by {
        forall j | 0 <= j < |rest|
          ensures keys[s[0]] <= keys[rest[j]]
        {
          if rest[j] != x {
            assert rest[j] in s[1..];
            var m :| 0 <= m < |s[1..]| && s[1..][m] == rest[j];
            assert s[m + 1] == rest[j];
          }
        }
      }
      assert Distinct(s) ==> s[0] !in s[1..];
      [s[0]] + rest
  }

  /** A ranking of the indices `0 .. k-1`. */
  function ArgsortPrefix(keys: seq<real>, k: nat): (r: seq<nat>)
    requires k <= |keys|
    ensures |r| == k && Distinct(r) && SortedBy(keys, r)
    ensures forall y :: y in r <==> 0 <= y < k
  {
    if k == 0 then [] else Insert(keys, k - 1, ArgsortPrefix(keys, k - 1))
  }

  /** `np.argsort(keys)`: a permutation of the indices of `keys` listing them
      by ascending key. */
  function Argsort(keys: seq<real>): (r: seq<nat>)
    ensures IsArgsort(keys, r)
  {
    ArgsortPrefix(keys, |keys|)
  }

  /** Every index of a permutation sits at some rank. */
  lemma RankOf(order: seq<nat>, n: nat, i: nat) returns (p: nat)
    requires IsPermutation(order, n) && i < n
    ensures p < n && order[p] == i
  {
    assert i in order;
    p :| 0 <= p < |order| && order[p] == i;
  }

  /** The window `order[lo:hi]` of an ascending ranking: keys are ordered
      within it, no key ranked before it exceeds a key in it and no key
      ranked after it falls below one in it. */
  lemma {:induction false} RankedWindow(keys: seq<real>, order: seq<nat>, lo: nat, hi: nat)
    requires IsArgsort(keys, order)
    ensures var w := Slice(order, lo, hi);
      var a := Min(lo, |order|);
      && (forall i, j :: 0 <= i < j < |w| ==> keys[w[i]] <= keys[w[j]])
      && (forall i, j :: 0 <= i < a && 0 <= j < |w| ==> keys[order[i]] <= keys[w[j]])
      && (forall i, j :: 0 <= j < |w| && a + |w| <= i < |order| ==> keys[w[j]] <= keys[order[i]])
  {
  }

  /** Seen without the ranking: an index left out of a window of the
      ranking has a key no larger than every key in the window, or one no
      smaller than every key in it. */
  lemma {:induction false} OutsideWindow(keys: seq<real>, order: seq<nat>, lo: nat, hi: nat, g: nat)
    requires IsArgsort(keys, order)
    requires g < |keys| && g !in Slice(order, lo, hi)
    ensures var w := Slice(order, lo, hi);
      || (forall j :: 0 <= j < |w| ==> keys[g] <= keys[w[j]])
      || (forall j :: 0 <= j < |w| ==> keys[w[j]] <= keys[g])
  {
    var w := Slice(order, lo, hi);
    var p := RankOf(order, |keys|, g);
    assert !(lo <= p < lo + |w|);
  }

  /** `np.argsort(keys)[::-1][:k]`: the indices of the `k` largest keys,
      largest first. Among equal keys the choice is the ranking's. */
  function TopIndices(keys: seq<real>, k: nat): (r: seq<nat>)
    ensures |r| == Min(k, |keys|)
    ensures InRange(r, |keys|) && Distinct(r)
    ensures forall a, b :: 0 <= a < b < |r| ==> keys[r[a]] >= keys[r[b]]
    ensures forall j, b :: 0 <= j < |keys| && j !in r && 0 <= b < |r| ==> keys[j] <= keys[r[b]]
  {
    var order := Argsort(keys);
    var r := Reverse(order)[..Min(k, |keys|)];
    var n := |keys|;
    assert forall a :: 0 <= a < |r| ==> r[a] == order[n - 1 - a];
    forall j, b | 0 <= j < n && j !in r && 0 <= b < |r|
      ensures keys[j] <= keys[r[b]]
    {
      var p := RankOf(order, n, j);
      assert Reverse(order)[n - 1 - p] == j;
      assert n - 1 - p >= |r|;
      assert p < n - 1 - b;
    }
    r
  }
}
