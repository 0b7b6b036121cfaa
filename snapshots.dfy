/** One region's vote snapshots and the per-snapshot notions built on them. */
module Snapshots {

  datatype Candidate = Trump | Biden

  /** One entry of the time series: when it was reported, how many votes had
      been counted, and each candidate's share of those votes. Timestamps are
      already converted to comparable instants; shares are exact reals. */
  datatype Snapshot = Snapshot(timestamp: int, votes: nat, trumpShare: real, bidenShare: real)

  function Other(c: Candidate): Candidate
  {
    match c
    case Trump => Biden
    case Biden => Trump
  }

  /** The entry of `vote_shares` read for a candidate (`trumpd` or `bidenj`). */
  function Share(s: Snapshot, c: Candidate): real
  {
    match c
    case Trump => s.trumpShare
    case Biden => s.bidenShare
  }

  /** The candidate's implied vote count: share times total votes. */
  function ImpliedTotal(s: Snapshot, c: Candidate): real
  {
    Share(s, c) * s.votes as real
  }

  /** The leader of a snapshot. Only a strictly greater Trump share makes
      Trump the leader; an exact tie goes to Biden. */
  function Lead(s: Snapshot): (c: Candidate)
    ensures Share(s, c) >= Share(s, Other(c))
    ensures c == Trump ==> Share(s, c) > Share(s, Other(c))
    ensures s.trumpShare == s.bidenShare ==> c == Biden
  {
    if s.trumpShare > s.bidenShare then Trump else Biden
  }
}
