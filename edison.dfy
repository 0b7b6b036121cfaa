/** The `StateEdisonData` object: the series it holds once built, the
    per-candidate totals its constructor stores, and its predicates. */
module Edison {
  import opened Wrappers
  import opened Snapshots
  import Normalizer
  import Analyzer
  import Aggregator

  class StateEdisonData {
    /** `time_series_data`, sorted by timestamp when the object is built. */
    var timeseries: seq<Snapshot>
    /** `@total_vote_count_drop`; `None` stands for Ruby's `nil`. */
    var totalVoteCountDrop: Option<int>
    /** `@biden_total_drop` and `@trump_total_drop`. */
    var bidenTotalDrop: real
    var trumpTotalDrop: real

    /** The stored fields agree with what they cache. */
    ghost predicate Valid()
      reads this
    {
      (totalVoteCountDrop.Some? ==>
         totalVoteCountDrop.value == Aggregator.TotalVoteCountDrop(timeseries)) &&
      bidenTotalDrop == Aggregator.VoteDropTotalForCandidate(timeseries, Biden) &&
      trumpTotalDrop == Aggregator.VoteDropTotalForCandidate(timeseries, Trump)
    }

    /** `initialize`: sorts the series and stores both candidates' totals. The
        call to `total_vote_count_drop` discards its result, so the field for
        the total drop stays `nil`. */
    constructor (raw: seq<Snapshot>)
      ensures Valid()
      ensures timeseries == Normalizer.SortByTimestamp(raw)
      ensures Normalizer.Sorted(timeseries) && multiset(timeseries) == multiset(raw)
      ensures totalVoteCountDrop == None
    {
      var sorted := Normalizer.SortByTimestamp(raw);
      timeseries := sorted;
      totalVoteCountDrop := None;
      bidenTotalDrop := Aggregator.VoteDropTotalForCandidate(sorted, Biden);
      trumpTotalDrop := Aggregator.VoteDropTotalForCandidate(sorted, Trump);
    }

    /** The `total_vote_count_drop` reader: the stored value if there is one,
        otherwise the drop recomputed from the series. Either way it is the
        series' total drop. */
    function TotalVoteCountDrop(): (d: int)
      reads this
      requires Valid()
      ensures d == Aggregator.TotalVoteCountDrop(timeseries)
      ensures d <= 0
    {
      match totalVoteCountDrop
      case Some(stored) => stored
      case None => Aggregator.TotalVoteCountDrop(timeseries)
    }

    /** `did_total_vote_count_drop?` as written: it compares the stored field
        with zero, and `nil < 0` raises. */
    function DidTotalVoteCountDropAsWritten(): (r: Result<bool>)
      reads this
      ensures r.Fail? <==> totalVoteCountDrop == None
      ensures r.Ok? ==> (r.value <==> totalVoteCountDrop.value < 0)
    {
      match totalVoteCountDrop
      case None => Fail(NilReceiver)
      case Some(stored) => Ok(stored < 0)
    }

    /** `did_total_vote_count_drop?` as intended: the total dropped at least
        once between consecutive snapshots. */
    function DidTotalVoteCountDrop(): (r: bool)
      reads this
      requires Valid()
      ensures r <==> !Aggregator.NeverDecreases(timeseries)
    {
      TotalVoteCountDrop() < 0
    }

    /** `did_biden_vote_count_drop?`: Biden's changes over the total-drop
        records add up to a loss; this can only happen if the total dropped. */
    function DidBidenVoteCountDrop(): (r: bool)
      reads this
      requires Valid()
      ensures r <==> Aggregator.SumWhereTotalDropped(Analyzer.Compare(timeseries), Biden) < 0.0
      ensures r ==> DidTotalVoteCountDrop()
    {
      bidenTotalDrop < 0.0
    }

    /** `did_trump_vote_count_drop?`: as for Biden. */
    function DidTrumpVoteCountDrop(): (r: bool)
      reads this
      requires Valid()
      ensures r <==> Aggregator.SumWhereTotalDropped(Analyzer.Compare(timeseries), Trump) < 0.0
      ensures r ==> DidTotalVoteCountDrop()
    {
      trumpTotalDrop < 0.0
    }

    /** `biden_drop_more_than_trump?`: Biden's restricted total is below
        Trump's (more negative means a larger drop); never when the total
        did not drop, since both are then zero. */
    function BidenDropMoreThanTrump(): (r: bool)
      reads this
      requires Valid()
      ensures r <==> Aggregator.VoteDropTotalForCandidate(timeseries, Biden)
                     < Aggregator.VoteDropTotalForCandidate(timeseries, Trump)
      ensures r ==> DidTotalVoteCountDrop()
    {
      bidenTotalDrop < trumpTotalDrop
    }
  }

  /** On every freshly built object the as-written total-drop predicate
      raises, where the intended predicate answers whether the total ever
      dropped. */
  method TotalDropPredicateOnNewObject(raw: seq<Snapshot>) returns (asWritten: Result<bool>, intended: bool)
    ensures asWritten == Fail(NilReceiver)
    ensures intended <==> !Aggregator.NeverDecreases(Normalizer.SortByTimestamp(raw))
  {
    var data := new StateEdisonData(raw);
    asWritten := data.DidTotalVoteCountDropAsWritten();
    intended := data.DidTotalVoteCountDrop();
  }
}
