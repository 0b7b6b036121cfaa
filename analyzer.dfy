/** The pairwise comparison of adjacent snapshots (`comparative_time_series`). */
module Analyzer {
  import opened Wrappers
  import opened Snapshots

  /** One element of `comparative_time_series`: the hash built for the pair
      (`previous_data`, `current_data`). */
  datatype Record = Record(
    leadSwitched: Option<Candidate>,
    amountDropped: int,
    previous: Snapshot,
    current: Snapshot,
    trumpDrop: real,
    bidenDrop: real)

  /** `candidate_vote_drop_across_timeseries`: the signed change of the
      candidate's implied vote count from `last` to `current` (not clamped). */
  function CandidateVoteDrop(c: Candidate, current: Snapshot, last: Snapshot): (d: real)
    ensures ImpliedTotal(last, c) + d == ImpliedTotal(current, c)
    ensures d < 0.0 <==> ImpliedTotal(current, c) < ImpliedTotal(last, c)
  {
    ImpliedTotal(current, c) - ImpliedTotal(last, c)
  }

  /** The record for one adjacent pair. */
  function CompareAdjacent(previous: Snapshot, current: Snapshot): (r: Record)
    ensures r.previous == previous && r.current == current
    // the drop in total votes is min(0, current - previous)
    ensures r.amountDropped <= 0
    ensures r.amountDropped <= current.votes - previous.votes
    ensures r.amountDropped == 0 || r.amountDropped == current.votes - previous.votes
    ensures r.amountDropped < 0 <==> current.votes < previous.votes
    // a switch is recorded exactly when the leaders differ, naming the new leader
    ensures r.leadSwitched == None <==> Lead(current) == Lead(previous)
    ensures r.leadSwitched != None ==>
              r.leadSwitched.value == Lead(current) && r.leadSwitched.value != Lead(previous)
    ensures ImpliedTotal(previous, Trump) + r.trumpDrop == ImpliedTotal(current, Trump)
    ensures ImpliedTotal(previous, Biden) + r.bidenDrop == ImpliedTotal(current, Biden)
  {
    var currentLead := Lead(current);
    var lastLead := Lead(previous);
    var delta := current.votes - previous.votes;
    var amountDropped := if delta > 0 then 0 else delta;
    Record(
      if currentLead == lastLead then None else Some(currentLead),
      amountDropped,
      previous,
      current,
      CandidateVoteDrop(Trump, current, previous),
      CandidateVoteDrop(Biden, current, previous))
  }

  /** The comparison of a whole series: one record per adjacent pair, in
      order; a series of fewer than two snapshots gives no record. */
  function Compare(s: seq<Snapshot>): (r: seq<Record>)
    ensures |r| == if |s| < 2 then 0 else |s| - 1
    ensures forall i {:trigger r[i]} :: 0 <= i < |r| ==> r[i] == CompareAdjacent(s[i], s[i + 1])
  {
    if |s| < 2 then [] else [CompareAdjacent(s[0], s[1])] + Compare(s[1..])
  }

  /** A sequence with one record per adjacent pair, in order, is the comparison. */
  lemma CompareCharacterized(s: seq<Snapshot>, r: seq<Record>)
    requires |r| == if |s| < 2 then 0 else |s| - 1
    requires forall i {:trigger r[i]} :: 0 <= i < |r| ==> r[i] == CompareAdjacent(s[i], s[i + 1])
    ensures r == Compare(s)
  {
    var c := Compare(s);
    assert |r| == |c|;
    forall i | 0 <= i < |r|
      ensures r[i] == c[i]
    {
      assert r[i] == CompareAdjacent(s[i], s[i + 1]);
      assert c[i] == CompareAdjacent(s[i], s[i + 1]);
    }
  }

  /** Extending a series by one snapshot appends the record of its last pair. */
  lemma CompareSnoc(s: seq<Snapshot>, x: Snapshot)
    requires s != []
    ensures Compare(s + [x]) == Compare(s) + [CompareAdjacent(s[|s| - 1], x)]
  {
    var t := s + [x];
    var r := Compare(s) + [CompareAdjacent(s[|s| - 1], x)];
    forall i | 0 <= i < |r|
      ensures r[i] == CompareAdjacent(t[i], t[i + 1])
    {
      if i < |r| - 1 {
        assert r[i] == Compare(s)[i];
      }
    }
    CompareCharacterized(t, r);
  }

  /** `comparative_time_series`: walks the series with its index, skips the
      first entry, and pushes the record of each entry with its predecessor. */
  method ComparativeTimeSeries(series: seq<Snapshot>) returns (ret: seq<Record>)
    ensures ret == Compare(series)
  {
    ret := [];
    for index := 0 to |series|
      invariant |ret| == if index == 0 then 0 else index - 1
      invariant forall k {:trigger ret[k]} :: 0 <= k < |ret| ==> ret[k] == CompareAdjacent(series[k], series[k + 1])
    {
      if index == 0 {
        continue;
      }
      var hsh := CompareAdjacent(series[index - 1], series[index]);
      ret := ret + [hsh];
    }
    CompareCharacterized(series, ret);
  }
}
