/** Ranking of records by rating, highest first, and the top-k cut the
    itinerary takes: sort_values(by='Rating', ascending=False).head(k).
    The sort the data frame uses is not stable, so nothing below depends on
    the order among records of equal rating. */
module Ranking {
  import opened Places

  function Min(a: nat, b: nat): nat {
    if a <= b then a else b
  }

  /** Ratings never increase from first to last. */
  predicate Descending(s: seq<Record>) {
    forall i, j | 0 <= i < j < |s| :: s[i].rating >= s[j].rating
  }

  function Insert(x: Record, s: seq<Record>): (r: seq<Record>)
    ensures |r| == |s| + 1
    ensures multiset(r) == multiset(s) + multiset{x}
    ensures r[0] == x || (s != [] && r[0] == s[0])
  {
    if s == [] || x.rating >= s[0].rating then
      [x] + s
    else
      assert s == [s[0]] + s[1..];
      [s[0]] + Insert(x, s[1..])
  }

  lemma {:induction false} InsertKeepsDescending(x: Record, s: seq<Record>)
    requires Descending(s)
    ensures Descending(Insert(x, s))
  {
    if s != [] && x.rating < s[0].rating {
      var rest := Insert(x, s[1..]);
      InsertKeepsDescending(x, s[1..]);
      assert forall j | 0 <= j < |rest| :: s[0].rating >= rest[0].rating >= rest[j].rating;
    }
  }

  /** The records reordered by rating, highest first. */
  function SortByRating(s: seq<Record>): (r: seq<Record>)
    ensures multiset(r) == multiset(s)
    ensures |r| == |s|
    ensures Descending(r)
  {
    if s == [] then []
    else
      var sorted := SortByRating(s[1..]);
      InsertKeepsDescending(s[0], sorted);
      assert s == [s[0]] + s[1..];
      Insert(s[0], sorted)
  }

  /** A descending sequence cut after m elements stays descending, keeps part
      of the multiset, and what is cut off is rated no higher than the last
      element kept. */
  lemma PrefixDominates(t: seq<Record>, m: nat)
    requires Descending(t) && 0 < m <= |t|
    ensures Descending(t[..m])
    ensures multiset(t[..m]) <= multiset(t)
    ensures forall q | q in multiset(t) - multiset(t[..m]) :: q.rating <= t[m - 1].rating
  {
    assert t == t[..m] + t[m..];
    assert multiset(t) - multiset(t[..m]) == multiset(t[m..]);
    forall q | q in multiset(t[m..])
      ensures q.rating <= t[m - 1].rating
    {
      var j :| m <= j < |t| && t[j] == q;
    }
  }

  /** The k best-rated records: min(k, |s|) of them, highest first, drawn from
      s, and every record of s left out is rated no higher than the last one
      kept. */
  function TopRated(s: seq<Record>, k: nat): (r: seq<Record>)
    ensures |r| == Min(k, |s|)
    ensures Descending(r)
    ensures multiset(r) <= multiset(s)
    ensures r != [] ==> forall q | q in multiset(s) - multiset(r) :: q.rating <= r[|r| - 1].rating
  {
    var t := SortByRating(s);
    var m := Min(k, |t|);
    if m == 0 then
      []
    else
      PrefixDominates(t, m);
      t[..m]
  }
}
