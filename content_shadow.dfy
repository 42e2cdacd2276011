/**
 * entropyForGuess of the page script for the shadow-DOM board: it returns null
 * when the guess is not five lower-case letters or the candidate list is empty.
 */
module ContentShadow {
  import opened Basics
  import opened Feedback
  import opened Words
  import opened CandidateFilter
  import opened GuessScorer
  import opened ContentScript

  method EntropyForGuess(guess: string, cands: seq<string>, plogp: real -> real) returns (r: Option<GuessStats>)
    requires AllFiveLetters(cands)
    ensures r.None? <==> !IsWord(guess) || |cands| == 0
    ensures r.Some? ==>
              |guess| == WordLength && r.value.histogram == Histogram(guess, cands) && r.value.n == |cands|
              && r.value.h == Entropy(Histogram(guess, cands), |cands|, plogp)
              && r.value.expectedRemaining == ExpectedRemaining(Histogram(guess, cands), |cands|)
  {
    if !IsWord(guess) {
      return None;
    }
    if |cands| == 0 {
      return None;
    }
    var stats := ScoreCandidates(guess, cands, plogp);
    r := Some(stats);
  }
}
