/**
 * entropyForGuess of the page script for the div-based board: it returns null
 * for an empty candidate list and trusts its caller, which only calls it once
 * the typed row holds five letters, for the shape of the guess.
 */
module ContentDiv {
  import opened Basics
  import opened Feedback
  import opened CandidateFilter
  import opened GuessScorer
  import opened ContentScript

  method EntropyForGuess(guess: string, cands: seq<string>, plogp: real -> real) returns (r: Option<GuessStats>)
    requires |guess| == WordLength && AllFiveLetters(cands)
    ensures r.None? <==> |cands| == 0
    ensures r.Some? ==>
              r.value.histogram == Histogram(guess, cands) && r.value.n == |cands|
              && r.value.h == Entropy(Histogram(guess, cands), |cands|, plogp)
              && r.value.expectedRemaining == ExpectedRemaining(Histogram(guess, cands), |cands|)
  {
    if |cands| == 0 {
      return None;
    }
    var stats := ScoreCandidates(guess, cands, plogp);
    r := Some(stats);
  }
}
