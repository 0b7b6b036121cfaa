/** Concrete series worked through the engine end to end. */
module Scenarios {
  import opened Wrappers
  import opened Snapshots
  import opened Analyzer
  import opened Aggregator

  /** The total falls by 100 while the shares move to an exact tie: the tie
      goes to Biden, so the lead switches; Trump's implied count falls by
      100 and Biden's is unchanged. */
  lemma TieSwitchesLeadToBiden()
    ensures var s0, s1 := Snapshot(1, 1000, 0.55, 0.45), Snapshot(2, 900, 0.50, 0.50);
            var rec := Record(Some(Biden), -100, s0, s1, -100.0, 0.0);
            Compare([s0, s1]) == [rec] &&
            TotalVoteCountDrop([s0, s1]) == -100 &&
            TimesTotalVoteCountDropped([s0, s1]) == [rec] &&
            TimesLeadSwitched([s0, s1]) == [rec] &&
            VoteDropTotalForCandidate([s0, s1], Trump) == -100.0 &&
            VoteDropTotalForCandidate([s0, s1], Biden) == 0.0 &&
            Winner([s0, s1]) == Ok(Biden)
  {
    var s0, s1 := Snapshot(1, 1000, 0.55, 0.45), Snapshot(2, 900, 0.50, 0.50);
    assert ImpliedTotal(s0, Trump) == 550.0 && ImpliedTotal(s1, Trump) == 450.0;
    assert ImpliedTotal(s0, Biden) == 450.0 && ImpliedTotal(s1, Biden) == 450.0;
    var rec := CompareAdjacent(s0, s1);
    assert rec == Record(Some(Biden), -100, s0, s1, -100.0, 0.0);
    assert Compare([s0, s1]) == [rec];
    assert [rec][1..] == [];
    assert Select([rec], TotalDropped) == [rec];
    assert Select([rec], LeadSwitched) == [rec];
    assert SumCandidateDrop([rec], Trump) == -100.0;
    assert SumCandidateDrop([rec], Biden) == 0.0;
  }

  /** With a steadily growing total and an unchanged leader nothing is
      reported: no drop, no switch, and zero for both candidates. */
  lemma SteadyGrowthReportsNothing()
    ensures var series := [Snapshot(1, 100, 0.6, 0.4), Snapshot(2, 200, 0.55, 0.45), Snapshot(3, 300, 0.52, 0.48)];
            TotalVoteCountDrop(series) == 0 &&
            TimesTotalVoteCountDropped(series) == [] &&
            TimesLeadSwitched(series) == [] &&
            VoteDropTotalForCandidate(series, Trump) == 0.0 &&
            VoteDropTotalForCandidate(series, Biden) == 0.0 &&
            Winner(series) == Ok(Trump)
  {
    var series := [Snapshot(1, 100, 0.6, 0.4), Snapshot(2, 200, 0.55, 0.45), Snapshot(3, 300, 0.52, 0.48)];
    assert NeverDecreases(series);
    assert LeadNeverChanges(series) by {
      assert Lead(series[0]) == Trump && Lead(series[1]) == Trump && Lead(series[2]) == Trump;
    }
  }

  /** A single snapshot gives no record and raises nothing. */
  lemma SingleSnapshotHasNoRecords(s: Snapshot)
    ensures Compare([s]) == []
    ensures TotalVoteCountDrop([s]) == 0
    ensures Winner([s]) == Ok(Lead(s))
  {
  }

  /** Trump's implied count falls by 20 while the total stays at 100; since
      the total never dropped, his restricted total is still zero. */
  lemma CandidateFallOutsideTotalDropIsIgnored()
    ensures var series := [Snapshot(1, 100, 0.6, 0.4), Snapshot(2, 100, 0.4, 0.6)];
            Compare(series)[0].trumpDrop == -20.0 &&
            VoteDropTotalForCandidate(series, Trump) == 0.0
  {
    var series := [Snapshot(1, 100, 0.6, 0.4), Snapshot(2, 100, 0.4, 0.6)];
    assert NeverDecreases(series);
  }
}
