/** Chronological ordering of a region's time series (the `sort_by` step of
    `convert_time_series_timestamp_to_datetime`). */
module Normalizer {
  import opened Snapshots

  /** Ascending by timestamp. */
  ghost predicate Sorted(s: seq<Snapshot>)
  {
    forall i, j :: 0 <= i < j < |s| ==> s[i].timestamp <= s[j].timestamp
  }

  /** Two snapshots of the series that share a timestamp are the same snapshot. */
  ghost predicate UniqueTimestamps(s: seq<Snapshot>)
  {
    forall x, y :: x in s && y in s && x.timestamp == y.timestamp ==> x == y
  }

  /** Dropping the first snapshot keeps a series sorted and leaves the rest
      of its multiset. */
  lemma Tail(s: seq<Snapshot>)
    requires s != []
    ensures Sorted(s) ==> Sorted(s[1..])
    ensures multiset(s[1..]) == multiset(s) - multiset{s[0]}
  {
    assert s == [s[0]] + s[1..];
  }

  /** Inserts `x` in front of the first later snapshot of a sorted series. */
  function InsertByTimestamp(x: Snapshot, s: seq<Snapshot>): (r: seq<Snapshot>)
    requires Sorted(s)
    ensures Sorted(r)
    ensures multiset(r) == multiset(s) + multiset{x}
    ensures r[0] == x || r[0] == s[0]
  {
    if s == [] || x.timestamp <= s[0].timestamp then
      [x] + s
    else
      Tail(s);
      var head, rest := s[0], InsertByTimestamp(x, s[1..]);
      InsertBehindHead(head, rest);
      [head] + rest
  }

  /** A snapshot no later than the first of a sorted series can lead it. */
  lemma InsertBehindHead(head: Snapshot, rest: seq<Snapshot>)
    requires Sorted(rest)
    requires rest != [] ==> head.timestamp <= rest[0].timestamp
    ensures Sorted([head] + rest)
  {
    var r := [head] + rest;
    forall i, j | 0 <= i < j < |r|
      ensures r[i].timestamp <= r[j].timestamp
    {
      if i == 0 {
        assert r[j] == rest[j - 1];
        if j > 1 {
          assert rest[0].timestamp <= rest[j - 1].timestamp;
        }
      } else {
        assert r[i] == rest[i - 1] && r[j] == rest[j - 1];
      }
    }
  }

  /** `sort_by { |tsdata| tsdata['timestamp'] }`: the series in ascending
      timestamp order. */
  function SortByTimestamp(s: seq<Snapshot>): (r: seq<Snapshot>)
    ensures Sorted(r)
    ensures multiset(r) == multiset(s)
  {
    if s == [] then []
    else
      assert s == [s[0]] + s[1..];
      InsertByTimestamp(s[0], SortByTimestamp(s[1..]))
  }

  /** Two sorted permutations of a series whose timestamps identify its
      snapshots start with the same snapshot. */
  lemma SameFirst(a: seq<Snapshot>, b: seq<Snapshot>)
    requires Sorted(a) && Sorted(b)
    requires multiset(a) == multiset(b)
    requires UniqueTimestamps(a)
    requires a != []
    ensures b != [] && a[0] == b[0]
  {
    assert a[0] in multiset(b);
    assert b[0] in multiset(a);
    var j :| 0 <= j < |b| && b[j] == a[0];
    var k :| 0 <= k < |a| && a[k] == b[0];
    assert a[0].timestamp <= a[k].timestamp;
    assert b[0].timestamp <= b[j].timestamp;
    assert a[0] in a && a[k] in a;
  }

  /** When timestamps identify snapshots, a series has only one ordering that
      is sorted: any two sorted permutations of it are equal. */
  lemma {:induction false} SortedPermutationUnique(a: seq<Snapshot>, b: seq<Snapshot>)
    requires Sorted(a) && Sorted(b)
    requires multiset(a) == multiset(b)
    requires UniqueTimestamps(a)
    ensures a == b
  {
    if a == [] {
      assert |b| == |multiset(b)| == 0;
    } else {
      SameFirst(a, b);
      Tail(a);
      Tail(b);
      assert UniqueTimestamps(a[1..]) by {
        forall x, y | x in a[1..] && y in a[1..] && x.timestamp == y.timestamp
          ensures x == y
        {
          assert x in a && y in a;
        }
      }
      SortedPermutationUnique(a[1..], b[1..]);
    }
  }

  /** Ruby's `sort_by` is not stable, so the model's particular sort is only
      one of its possible outcomes; when timestamps identify snapshots every
      sorted permutation of the input is exactly this one. */
  lemma SortIsDetermined(s: seq<Snapshot>, r: seq<Snapshot>)
    requires UniqueTimestamps(s)
    requires Sorted(r) && multiset(r) == multiset(s)
    ensures r == SortByTimestamp(s)
  {
    var t := SortByTimestamp(s);
    forall x, y | x in t && y in t && x.timestamp == y.timestamp
      ensures x == y
    {
      assert x in multiset(s) && y in multiset(s);
    }
    SortedPermutationUnique(t, r);
  }

  /** Re-sorting an already sorted series whose timestamps are unique leaves it unchanged. */
  lemma SortIdempotent(s: seq<Snapshot>)
    requires Sorted(s) && UniqueTimestamps(s)
    ensures SortByTimestamp(s) == s
  {
    SortIsDetermined(s, s);
  }
}
