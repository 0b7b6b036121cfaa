# Vote-snapshot comparison engine (StateEdisonData), modelled in Dafny

This project models the analysis core of `StateEdisonData`, a Ruby class that
audits one region's time series of election vote snapshots. Each snapshot
carries a timestamp, the total number of votes counted so far, and Trump's and
Biden's shares of those votes. The engine:

1. sorts the series by timestamp (`Normalizer.SortByTimestamp`);
2. compares every adjacent pair of snapshots (`Analyzer.Compare`, computed by
   the loop in `Analyzer.ComparativeTimeSeries`). Each record holds the
   strict-greater-than leader switch, the drop in total votes clamped to
   `min(0, Δ)`, and each candidate's signed change in implied votes
   (share × total);
3. aggregates the records (`Aggregator`): the total drop, the records where the
   total dropped, the records where the lead switched, and per-candidate sums
   taken only over the records where the total dropped;
4. derives the winner and the boolean predicates. The predicates are functions
   of the `Edison.StateEdisonData` object, whose constructor stores the sorted
   series and the two per-candidate totals.

Files: `wrappers.dfy` (Option/Result), `snapshots.dfy` (snapshot, shares,
leader), `normalizer.dfy`, `analyzer.dfy`, `aggregator.dfy`, `edison.dfy`
(the class), `scenarios.dfy` (worked series).

A series of fewer than two snapshots yields an empty comparison and raises
nothing (`each_with_index` with `next if index == 0`).

## Model

| member | source | states |
|---|---|---|
| `Snapshots.Lead` | matts_fraudcatch/state_edison_data.rb:85-86 | the leader's share is at least the other's; Trump leads only with a strictly greater share; an exact tie goes to Biden |
| `Normalizer.SortByTimestamp` | matts_fraudcatch/state_edison_data.rb:215-217 | the result is sorted ascending by timestamp and is a permutation (same multiset) of the input |
| `Normalizer.InsertByTimestamp` | matts_fraudcatch/state_edison_data.rb:215-217 | inserting into a sorted series keeps it sorted and adds exactly that snapshot |
| `Normalizer.SortedPermutationUnique` | matts_fraudcatch/state_edison_data.rb:215-217 | when timestamps identify snapshots, two sorted permutations of the same series are equal |
| `Normalizer.SortIsDetermined` | matts_fraudcatch/state_edison_data.rb:215-217 | for such a series every sorted permutation is the model's sort, so the (unstable) library sort has a single possible outcome |
| `Normalizer.SortIdempotent` | matts_fraudcatch/state_edison_data.rb:215-217 | re-sorting an already sorted series with unique timestamps leaves it unchanged |
| `Analyzer.CandidateVoteDrop` | matts_fraudcatch/state_edison_data.rb:201-206 | the change takes the previous implied count to the current one, unclamped; negative exactly when the implied count fell |
| `Analyzer.CompareAdjacent` | matts_fraudcatch/state_edison_data.rb:81-96 | the record keeps both snapshots; its drop is ≤ 0, ≤ the vote change, and equals 0 or the vote change, negative exactly when votes fell (so it is min(0, Δ)); a switch is recorded iff the leaders differ and then names the current leader; each candidate change takes previous to current implied count |
| `Analyzer.Compare` | matts_fraudcatch/state_edison_data.rb:76-100 | max(0, n-1) records, record i built from snapshots i and i+1, in order |
| `Analyzer.CompareCharacterized` | matts_fraudcatch/state_edison_data.rb:76-100 | any sequence with one record per adjacent pair, in order, is the comparison |
| `Analyzer.CompareSnoc` | matts_fraudcatch/state_edison_data.rb:76-100 | appending a snapshot appends exactly the record of the new last pair |
| `Analyzer.ComparativeTimeSeries` | matts_fraudcatch/state_edison_data.rb:76-100 | the loop that skips index 0 and pushes one record per later entry returns exactly the comparison |
| `Aggregator.ComparisonDrops` | matts_fraudcatch/state_edison_data.rb:87-92 | every record's drop is ≤ 0, and no record has a nonzero drop iff votes never decrease |
| `Aggregator.ComparisonSwitches` | matts_fraudcatch/state_edison_data.rb:85-91 | no record names a switch iff the leader is the same in every adjacent pair |
| `Aggregator.SumAmountDropped` | matts_fraudcatch/state_edison_data.rb:114 | a sum of non-positive drops is ≤ 0, and 0 iff no record dropped |
| `Aggregator.TotalVoteCountDrop` | matts_fraudcatch/state_edison_data.rb:111-115 | the total drop is ≤ 0, and 0 iff votes never decrease between consecutive snapshots |
| `Aggregator.TotalDropBoundedByNetChange` | matts_fraudcatch/state_edison_data.rb:111-115 | the total drop is at most the net vote change from the first to the last snapshot |
| `Aggregator.Select` | matts_fraudcatch/state_edison_data.rb:117-123 | the result is no longer than the input, has only accepted records, and is empty iff no record is accepted |
| `Aggregator.SelectMembers` | matts_fraudcatch/state_edison_data.rb:117-123 | a record is in the selection iff it is in the input and accepted |
| `Aggregator.SelectAppend` | matts_fraudcatch/state_edison_data.rb:117-123 | selection preserves order: selecting from a concatenation concatenates the selections |
| `Aggregator.SelectAll` | matts_fraudcatch/state_edison_data.rb:117-123 | when every record is accepted, selection returns the input unchanged |
| `Aggregator.TimesTotalVoteCountDropped` | matts_fraudcatch/state_edison_data.rb:117-119 | every kept record has a negative drop; the list is empty iff votes never decrease |
| `Aggregator.TimesLeadSwitched` | matts_fraudcatch/state_edison_data.rb:121-123 | every kept record names a switch; the list is empty iff the leader never changes |
| `Aggregator.VoteDropTotalForCandidate` | matts_fraudcatch/state_edison_data.rb:105-109 | the candidate's total equals the sum over all records counting only those whose total dropped; it is 0 when votes never decrease |
| `Aggregator.SelectedSumIsRestrictedSum` | matts_fraudcatch/state_edison_data.rb:105-109 | summing over the selected total-drop records equals summing over all records with the others counted as zero |
| `Aggregator.CandidateChangesTelescope` | matts_fraudcatch/state_edison_data.rb:201-206 | over all records a candidate's changes add up to the implied count of the last snapshot minus that of the first |
| `Aggregator.Winner` | matts_fraudcatch/state_edison_data.rb:57-62 | an empty series raises (no last entry); otherwise the winner is Trump iff Trump's share in the last snapshot is strictly greater (a tie goes to Biden), and the winner has at least the other's share |
| `Aggregator.LastSwitchNamesLastLeader` | matts_fraudcatch/state_edison_data.rb:85-91 | when some record names a switch, the series has at least two snapshots and the last switch names the leader of the last snapshot |
| `Aggregator.WinnerIsLastSwitch` | matts_fraudcatch/state_edison_data.rb:57-62 | when the lead ever switched, the winner is the candidate named by the last switch (the same candidate, up to the letter case of its name) |
| `Aggregator.LeadConstant` | matts_fraudcatch/state_edison_data.rb:85-86 | when the leader never changes between neighbours, every snapshot has the first snapshot's leader |
| `Aggregator.WinnerWithoutSwitch` | matts_fraudcatch/state_edison_data.rb:57-62 | when the lead never switched, the winner is the first snapshot's leader |
| `Edison.StateEdisonData.constructor` | matts_fraudcatch/state_edison_data.rb:14-20 | the stored series is the sorted input; the two candidate totals are stored and consistent; the total-drop field stays nil |
| `Edison.StateEdisonData.TotalVoteCountDrop` | matts_fraudcatch/state_edison_data.rb:111-115 | the reader returns the series' total drop whether or not a value is stored; it is ≤ 0 |
| `Edison.StateEdisonData.DidTotalVoteCountDropAsWritten` | matts_fraudcatch/state_edison_data.rb:22-26 | as written: raises iff the stored field is nil, otherwise compares it with 0 |
| `Edison.StateEdisonData.DidTotalVoteCountDrop` | matts_fraudcatch/state_edison_data.rb:22-26 | as intended: true iff the vote total decreased between some pair of consecutive snapshots |
| `Edison.StateEdisonData.DidBidenVoteCountDrop` | matts_fraudcatch/state_edison_data.rb:28-32 | true iff Biden's changes over the total-drop records sum below 0; implies the total dropped |
| `Edison.StateEdisonData.DidTrumpVoteCountDrop` | matts_fraudcatch/state_edison_data.rb:34-38 | true iff Trump's changes over the total-drop records sum below 0; implies the total dropped |
| `Edison.StateEdisonData.BidenDropMoreThanTrump` | matts_fraudcatch/state_edison_data.rb:40-44 | true iff Biden's restricted total is below Trump's; implies the total dropped |
| `Edison.TotalDropPredicateOnNewObject` | matts_fraudcatch/state_edison_data.rb:14-26 | on every freshly built object the as-written predicate raises, while the intended one answers whether votes ever decreased |
| `Scenarios.TieSwitchesLeadToBiden` | matts_fraudcatch/state_edison_data.rb:76-123 | 1000 votes at 0.55/0.45 then 900 at 0.50/0.50: one record with drop -100, switch to Biden, Trump change -100, Biden change 0; winner Biden |
| `Scenarios.SteadyGrowthReportsNothing` | matts_fraudcatch/state_edison_data.rb:76-123 | a growing total under one leader: total drop 0, no events, both candidate totals 0, winner Trump |
| `Scenarios.SingleSnapshotHasNoRecords` | matts_fraudcatch/state_edison_data.rb:76-100 | one snapshot gives no record, a total drop of 0 and that snapshot's leader as winner |
| `Scenarios.CandidateFallOutsideTotalDropIsIgnored` | matts_fraudcatch/state_edison_data.rb:105-109 | Trump's implied count falls by 20 at a constant total, yet his restricted total is 0 |

## Findings

| source | as written | input that shows it | evidently intended | confidence | as-written member | corrected member |
|---|---|---|---|---|---|---|
| matts_fraudcatch/state_edison_data.rb:17 | `initialize` calls `total_vote_count_drop` and discards the result, so `@total_vote_count_drop` stays `nil` and `did_total_vote_count_drop?` (line 23) evaluates `nil < 0`, which raises `NoMethodError` | any series, e.g. 1000 then 900 votes: the predicate raises instead of answering true | store the drop (`@total_vote_count_drop = total_vote_count_drop`) so that the predicate answers whether the total drop is below 0 | high; not executed | `Edison.StateEdisonData.DidTotalVoteCountDropAsWritten` (exhibited by `Edison.TotalDropPredicateOnNewObject`) | `Edison.StateEdisonData.DidTotalVoteCountDrop` |

## Left out

- Reading the JSON file, the nested `data.races[0].timeseries` path, and deriving the state name from the file path: the series is an input sequence.
- Parsing timestamps with `DateTime.strptime`: timestamps are already comparable integers.
- All `print_*` methods, including the running sum of negative-only candidate changes that exists only to be printed.
- Floating point: shares and implied counts are exact reals. No property depends on IEEE rounding. Shares are not constrained to [0, 1], since the engine never relies on that range.
- `current_percent_for_trump` and `current_percent_for_biden`: they read the key `vote_share`, while everything else reads `vote_shares`. This latent key mismatch is not part of the engine. `current_total_votes` is a plain reader of the last entry and is also left out.
- Candidate name spelling: `winner` returns lower-case `'trump'`/`'biden'` (line 61) while a record's `lead_switched` holds `'Trump'`/`'Biden'` (lines 85-86, 91). The model uses one `Candidate` type for both, so `Aggregator.WinnerIsLastSwitch` identifies them up to letter case; a direct Ruby string comparison of the two values would never be equal.
- The memoisation caches of `winner` and `state_json_data`: modelled as plain functions of the series.
- Normalizer.SortByTimestamp: Ruby's `sort_by` is not stable. The model sorts stably (insertion that keeps input order among equal timestamps). Its contract promises only sorted and a permutation. `Normalizer.SortIsDetermined` shows that this is the only possible outcome when timestamps identify snapshots. For repeated timestamps with different data, the order the library would choose is not modelled.
- The in-place rewrite of each hash's `timestamp` field before sorting (it only converts the type) and the write-back of the sorted array into the parsed JSON: the constructor stores the sorted series directly.
