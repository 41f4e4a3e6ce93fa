/** Sequence helpers shared by the two ledgers' history queries. */
module Seqs {

  function Min(a: int, b: int): int
  {
    if a <= b then a else b
  }

  /** The last `limit` elements of `s` (all of `s` when it is shorter), the last one first:
      what `ORDER BY id DESC LIMIT limit` yields over rows kept in insertion order. */
  function Latest<T>(s: seq<T>, limit: nat): (r: seq<T>)
    ensures |r| == Min(limit, |s|)
  {
    if s == [] || limit == 0 then []
    else [s[|s| - 1]] + Latest(s[..|s| - 1], limit - 1)
  }

  /** The k-th element of `Latest(s, limit)` is the k-th element of `s` counted from its end. */
  lemma {:induction false} LatestIsNewestFirst<T>(s: seq<T>, limit: nat, k: nat)
    requires k < Min(limit, |s|)
    ensures Latest(s, limit)[k] == s[|s| - 1 - k]
  {
    if k > 0 {
      LatestIsNewestFirst(s[..|s| - 1], limit - 1, k - 1);
    }
  }

  /** Taking the latest elements of a sequence that grew by one element. */
  lemma LatestAppend<T>(s: seq<T>, x: T, limit: nat)
    requires limit > 0
    ensures Latest(s + [x], limit) == [x] + Latest(s, limit - 1)
  {
    assert (s + [x])[..|s|] == s;
  }
}
