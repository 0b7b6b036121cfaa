/** Reductions of the comparison records: totals, filtered event lists, the
    restricted per-candidate sums and the winner. */
module Aggregator {
  import opened Wrappers
  import opened Snapshots
  import opened Analyzer

  /** Total votes never decrease from one snapshot to the next. */
  ghost predicate NeverDecreases(series: seq<Snapshot>)
  {
    forall i, j :: 0 <= i && j == i + 1 && j < |series| ==> series[i].votes <= series[j].votes
  }

  /** The leader is the same in every pair of adjacent snapshots. */
  ghost predicate LeadNeverChanges(series: seq<Snapshot>)
  {
    forall i, j :: 0 <= i && j == i + 1 && j < |series| ==> Lead(series[i]) == Lead(series[j])
  }

  predicate TotalDropped(r: Record)
  {
    r.amountDropped != 0
  }

  predicate LeadSwitched(r: Record)
  {
    r.leadSwitched != None
  }

  /** `keep` accepts no record of `rs`. */
  ghost predicate NoneKept(rs: seq<Record>, keep: Record -> bool)
  {
    forall i :: 0 <= i < |rs| ==> !keep(rs[i])
  }

  /** No record has a positive drop. */
  ghost predicate DropsNonPositive(rs: seq<Record>)
  {
    forall i :: 0 <= i < |rs| ==> rs[i].amountDropped <= 0
  }

  /** Every record of a comparison has a drop of at most zero, and none has a
      nonzero drop exactly when votes never decrease. */
  lemma ComparisonDrops(series: seq<Snapshot>)
    ensures DropsNonPositive(Compare(series))
    ensures NoneKept(Compare(series), TotalDropped) <==> NeverDecreases(series)
  {
    var rs := Compare(series);
    forall i | 0 <= i < |rs|
      ensures rs[i].amountDropped <= 0
      ensures !TotalDropped(rs[i]) <==> series[i].votes <= series[i + 1].votes
    {
      assert rs[i] == CompareAdjacent(series[i], series[i + 1]);
    }
    if !NeverDecreases(series) {
      var i :| 0 <= i < |series| - 1 && series[i].votes > series[i + 1].votes;
      assert TotalDropped(rs[i]);
    }
  }

  /** No record of a comparison names a switch exactly when the lead never changes. */
  lemma ComparisonSwitches(series: seq<Snapshot>)
    ensures NoneKept(Compare(series), LeadSwitched) <==> LeadNeverChanges(series)
  {
    var rs := Compare(series);
    forall i | 0 <= i < |rs|
      ensures !LeadSwitched(rs[i]) <==> Lead(series[i]) == Lead(series[i + 1])
    {
      assert rs[i] == CompareAdjacent(series[i], series[i + 1]);
    }
    if !LeadNeverChanges(series) {
      var i :| 0 <= i < |series| - 1 && Lead(series[i]) != Lead(series[i + 1]);
      assert LeadSwitched(rs[i]);
    }
  }

  /** `sum { |hsh| hsh['amount_dropped'] }`: with no positive drop the sum is
      at most zero, and zero exactly when no record has a drop. */
  function SumAmountDropped(rs: seq<Record>): (d: int)
    ensures DropsNonPositive(rs) ==> d <= 0 && (d == 0 <==> NoneKept(rs, TotalDropped))
  {
    if rs == [] then 0
    else
      assert DropsNonPositive(rs) ==> rs[0].amountDropped <= 0 && DropsNonPositive(rs[1..]);
      assert NoneKept(rs, TotalDropped) <==> !TotalDropped(rs[0]) && NoneKept(rs[1..], TotalDropped) by {
        if !TotalDropped(rs[0]) && NoneKept(rs[1..], TotalDropped) {
          forall i | 0 <= i < |rs| ensures !TotalDropped(rs[i]) {
            if i > 0 { assert rs[i] == rs[1..][i - 1]; }
          }
        }
      }
      rs[0].amountDropped + SumAmountDropped(rs[1..])
  }

  /** `total_vote_count_drop`: the drops of all records added up. It is never
      positive, and it is zero exactly when votes never decrease. */
  function TotalVoteCountDrop(series: seq<Snapshot>): (d: int)
    ensures d <= 0
    ensures d == 0 <==> NeverDecreases(series)
  {
    ComparisonDrops(series);
    SumAmountDropped(Compare(series))
  }

  /** `select`: the records that `keep` accepts, in their original order. */
  function Select(rs: seq<Record>, keep: Record -> bool): (r: seq<Record>)
    ensures |r| <= |rs|
    ensures forall i :: 0 <= i < |r| ==> keep(r[i])
    ensures r == [] <==> NoneKept(rs, keep)
  {
    if rs == [] then []
    else if keep(rs[0]) then [rs[0]] + Select(rs[1..], keep)
    else Select(rs[1..], keep)
  }

  /** Selection holds every accepted record of the input and no other. */
  lemma {:induction false} SelectMembers(rs: seq<Record>, keep: Record -> bool)
    ensures forall x :: x in Select(rs, keep) <==> x in rs && keep(x)
  {
    if rs != [] {
      SelectMembers(rs[1..], keep);
      assert rs == [rs[0]] + rs[1..];
    }
  }

  /** Selection preserves order: selecting from a concatenation concatenates the selections. */
  lemma {:induction false} SelectAppend(a: seq<Record>, b: seq<Record>, keep: Record -> bool)
    ensures Select(a + b, keep) == Select(a, keep) + Select(b, keep)
  {
    if a == [] {
      assert a + b == b;
    } else {
      assert (a + b)[0] == a[0];
      assert (a + b)[1..] == a[1..] + b;
      SelectAppend(a[1..], b, keep);
    }
  }

  /** Selection keeps everything when every record is accepted. */
  lemma {:induction false} SelectAll(rs: seq<Record>, keep: Record -> bool)
    requires forall i :: 0 <= i < |rs| ==> keep(rs[i])
    ensures Select(rs, keep) == rs
  {
    if rs != [] {
      SelectAll(rs[1..], keep);
    }
  }

  /** `times_total_vote_count_dropped`: the records whose total dropped. */
  function TimesTotalVoteCountDropped(series: seq<Snapshot>): (r: seq<Record>)
    ensures forall i :: 0 <= i < |r| ==> r[i].amountDropped < 0
    ensures r == [] <==> NeverDecreases(series)
  {
    ComparisonDrops(series);
    SelectMembers(Compare(series), TotalDropped);
    Select(Compare(series), TotalDropped)
  }

  /** `times_lead_switched`: the records where the leader changed. */
  function TimesLeadSwitched(series: seq<Snapshot>): (r: seq<Record>)
    ensures forall i :: 0 <= i < |r| ==> r[i].leadSwitched != None
    ensures r == [] <==> LeadNeverChanges(series)
  {
    ComparisonSwitches(series);
    Select(Compare(series), LeadSwitched)
  }

  /** The record's change for one candidate (`trump_drop` or `biden_drop`). */
  function CandidateDrop(r: Record, c: Candidate): real
  {
    match c
    case Trump => r.trumpDrop
    case Biden => r.bidenDrop
  }

  /** `sum { |hsh| hsh[candidate_key] }` over some records. */
  function SumCandidateDrop(rs: seq<Record>, c: Candidate): real
  {
    if rs == [] then 0.0 else CandidateDrop(rs[0], c) + SumCandidateDrop(rs[1..], c)
  }

  /** Reference definition of the restricted sum: every record of the
      comparison contributes its candidate change when its total dropped and
      nothing otherwise. */
  function SumWhereTotalDropped(rs: seq<Record>, c: Candidate): real
  {
    if rs == [] then 0.0
    else (if rs[0].amountDropped != 0 then CandidateDrop(rs[0], c) else 0.0)
         + SumWhereTotalDropped(rs[1..], c)
  }

  /** `vote_drop_total_for_candidate`: the candidate's changes summed over the
      records whose total dropped, and over no other record. */
  function VoteDropTotalForCandidate(series: seq<Snapshot>, c: Candidate): (total: real)
    ensures total == SumWhereTotalDropped(Compare(series), c)
    ensures NeverDecreases(series) ==> total == 0.0
  {
    var dropped := TimesTotalVoteCountDropped(series);
    SelectedSumIsRestrictedSum(Compare(series), c);
    SumCandidateDrop(dropped, c)
  }

  /** Summing over the selected records equals summing over all records with
      the unselected ones counted as zero. */
  lemma {:induction false} SelectedSumIsRestrictedSum(rs: seq<Record>, c: Candidate)
    ensures SumCandidateDrop(Select(rs, TotalDropped), c) == SumWhereTotalDropped(rs, c)
  {
    if rs != [] {
      SelectedSumIsRestrictedSum(rs[1..], c);
    }
  }

  /** Over all records, a candidate's changes telescope to the change of the
      implied count from the first snapshot to the last; only the restriction
      to total-drop records makes `vote_drop_total_for_candidate` differ. */
  lemma {:induction false} CandidateChangesTelescope(series: seq<Snapshot>, c: Candidate)
    requires series != []
    ensures SumCandidateDrop(Compare(series), c)
            == ImpliedTotal(series[|series| - 1], c) - ImpliedTotal(series[0], c)
  {
    if |series| >= 2 {
      var rec := CompareAdjacent(series[0], series[1]);
      assert Compare(series) == [rec] + Compare(series[1..]);
      assert ImpliedTotal(series[0], c) + CandidateDrop(rec, c) == ImpliedTotal(series[1], c);
      CandidateChangesTelescope(series[1..], c);
    }
  }

  /** The total drop is never above the net change of the vote count between
      the first and the last snapshot. */
  lemma {:induction false} TotalDropBoundedByNetChange(series: seq<Snapshot>)
    requires series != []
    ensures TotalVoteCountDrop(series) <= series[|series| - 1].votes - series[0].votes
  {
    if |series| >= 2 {
      var rec := CompareAdjacent(series[0], series[1]);
      assert Compare(series) == [rec] + Compare(series[1..]);
      assert ([rec] + Compare(series[1..]))[1..] == Compare(series[1..]);
      TotalDropBoundedByNetChange(series[1..]);
    }
  }

  /** `winner`: the leader of the last snapshot, by the same strict rule as
      the records; an empty series has no last entry and raises. */
  function Winner(series: seq<Snapshot>): (r: Result<Candidate>)
    ensures r.Fail? <==> series == []
    ensures r.Ok? ==> Share(series[|series| - 1], r.value) >= Share(series[|series| - 1], Other(r.value))
    ensures r.Ok? ==> (r.value == Trump <==> series[|series| - 1].trumpShare > series[|series| - 1].bidenShare)
  {
    if series == [] then Fail(NilReceiver) else Ok(Lead(series[|series| - 1]))
  }

  /** The last recorded switch names the leader of the last snapshot. */
  lemma {:induction false} LastSwitchNamesLastLeader(series: seq<Snapshot>)
    requires Select(Compare(series), LeadSwitched) != []
    ensures |series| >= 2
    ensures var switches := Select(Compare(series), LeadSwitched);
            switches[|switches| - 1].leadSwitched == Some(Lead(series[|series| - 1]))
  {
    assert |series| >= 2;
    var tail := series[1..];
    var rec := CompareAdjacent(series[0], series[1]);
    var rs := Compare(series);
    assert rs == [rec] + Compare(tail);
    assert rs[0] == rec && rs[1..] == Compare(tail);
    var later := Select(Compare(tail), LeadSwitched);
    if later != [] {
      LastSwitchNamesLastLeader(tail);
      assert series[|series| - 1] == tail[|tail| - 1];
    } else {
      assert Select(rs, LeadSwitched) == [rec];
      ComparisonSwitches(tail);
      LeadConstant(tail, |tail| - 1);
      assert series[|series| - 1] == tail[|tail| - 1];
    }
  }

  /** When the lead ever switched, the winner is the candidate named by the
      last switch. */
  lemma WinnerIsLastSwitch(series: seq<Snapshot>)
    requires TimesLeadSwitched(series) != []
    ensures var switches := TimesLeadSwitched(series);
            Winner(series) == Ok(switches[|switches| - 1].leadSwitched.value)
  {
    LastSwitchNamesLastLeader(series);
  }

  /** Every snapshot has the first snapshot's leader when the lead never changes. */
  lemma {:induction false} LeadConstant(series: seq<Snapshot>, k: nat)
    requires LeadNeverChanges(series)
    requires k < |series|
    ensures Lead(series[k]) == Lead(series[0])
  {
    if k > 0 {
      LeadConstant(series, k - 1);
    }
  }

  /** When the lead never switched, the winner is the first snapshot's leader. */
  lemma WinnerWithoutSwitch(series: seq<Snapshot>)
    requires series != []
    requires TimesLeadSwitched(series) == []
    ensures Winner(series) == Ok(Lead(series[0]))
  {
    LeadConstant(series, |series| - 1);
  }
}
