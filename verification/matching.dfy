/**
 * What the face matcher hands to the entry points. The matcher itself is
 * foreign code; only the shape of its answer is modelled: a list of result
 * tables, each a best-first list of (identity path, distance) candidates,
 * or an exception.
 */
module Matching {
  import opened Optional

  datatype Candidate = Candidate(identity: string, distance: real)

  datatype MatchResult = MatcherRaised | Tables(tables: seq<seq<Candidate>>)

  /**
   * `results[0].iloc[0]`, guarded by `len(results) > 0 and not results[0].empty`:
   * the first row of the first table, and no other candidate.
   */
  function FirstCandidate(results: seq<seq<Candidate>>): (r: Option<Candidate>)
    ensures r.None? <==> |results| == 0 || |results[0]| == 0
    ensures r.Some? ==> r.value == results[0][0]
  {
    if |results| > 0 && |results[0]| > 0 then Some(results[0][0]) else None
  }
}
