/**
 * The scoring code that content-div.js and content-shadow.js share word for
 * word: patternCode over a letter-count object, the bucket-filling loop of
 * entropyForGuess, and filterCandidates. The two entropyForGuess functions,
 * which differ in their guards, are in content_div.dfy and content_shadow.dfy.
 */
module ContentScript {
  import Feedback
  import opened CandidateFilter
  import opened GuessScorer

  /** What entropyForGuess returns, `{ H, expectedRemaining, N }`, with the buckets it was computed from. */
  datatype GuessStats = GuessStats(histogram: seq<int>, h: real, expectedRemaining: real, n: nat)

  /**
   * The part entropyForGuess runs once its guards pass: fill the buckets, then
   * accumulate expected-remaining over them.
   */
  method ScoreCandidates(guess: string, cands: seq<string>, plogp: real -> real) returns (stats: GuessStats)
    requires |guess| == Feedback.WordLength && AllFiveLetters(cands)
    ensures stats.histogram == Histogram(guess, cands) && stats.n == |cands|
    ensures stats.h == Entropy(Histogram(guess, cands), |cands|, plogp)
    ensures stats.expectedRemaining == ExpectedRemaining(Histogram(guess, cands), |cands|)
  {
    var buckets := CountBuckets(guess, cands);
    if |cands| == 0 {
      forall k | 0 <= k < Feedback.CodeCount
        ensures buckets[k] == 0
      {
        assert buckets[k] == Histogram(guess, cands)[k];
      }
    }
    var h, er := SumBuckets(buckets, |cands|, plogp);
    stats := GuessStats(buckets[..], h, er, |cands|);
  }

  /** `(counts[c] || 0)`: a letter the object has no key for counts as 0. */
  function Lookup(counts: map<char, int>, c: char): int
  {
    if c in counts then counts[c] else 0
  }

  /** Decrementing or setting one key leaves every other letter's count as it was. */
  lemma LookupUpdate(counts: map<char, int>, g: char, v: int)
    ensures forall c :: Lookup(counts[g := v], c) == if c == g then v else Lookup(counts, c)
  {
    forall c
      ensures Lookup(counts[g := v], c) == if c == g then v else Lookup(counts, c)
    {
      if c == g {
        assert g in counts[g := v];
      }
    }
  }

  /**
   * patternCode with the per-letter budget kept in an object keyed by
   * character: count the answer's letters, let the greens consume their
   * budget, then hand out yellows left to right while budget remains, and
   * fold the five digits base 3. Each pass is one of the loops below.
   */
  method PatternCode(guess: string, answer: string) returns (code: int)
    requires |guess| == Feedback.WordLength && |answer| == Feedback.WordLength
    ensures code == Feedback.PatternCode(guess, answer)
  {
    var res := new int[Feedback.WordLength](_ => Feedback.Absent);
    var counts := CountLetters(answer);
    counts := MarkGreens(guess, answer, res, counts);
    counts := MarkYellows(guess, answer, res, counts);
    code := Feedback.FoldDigits(res);
    assert res[..] == Feedback.Verdicts(guess, answer);
  }

  /** `counts[answer[i]] = (counts[answer[i]] || 0) + 1` for each of the five letters. */
  method CountLetters(answer: string) returns (counts: map<char, int>)
    requires |answer| == Feedback.WordLength
    ensures forall c :: Lookup(counts, c) == Feedback.Count(answer, c)
    ensures forall j :: 0 <= j < Feedback.WordLength ==> answer[j] in counts
  {
    counts := map[];
    for i := 0 to Feedback.WordLength
      invariant forall c :: Lookup(counts, c) == Feedback.CountBefore(answer, i, c)
      invariant forall j :: 0 <= j < i ==> answer[j] in counts
    {
      counts := counts[answer[i] := Lookup(counts, answer[i]) + 1];
    }
  }

  /** The greens pass: mark exact matches 2 and take one from that letter's budget. */
  method MarkGreens(guess: string, answer: string, res: array<int>, counts0: map<char, int>)
    returns (counts: map<char, int>)
    requires |guess| == Feedback.WordLength && |answer| == Feedback.WordLength
    requires res.Length == Feedback.WordLength
    requires forall j :: 0 <= j < Feedback.WordLength ==> res[j] == Feedback.Absent
    requires forall c :: Lookup(counts0, c) == Feedback.Count(answer, c)
    requires forall j :: 0 <= j < Feedback.WordLength ==> answer[j] in counts0
    modifies res
    ensures forall c :: Lookup(counts, c) == Feedback.Budget(guess, answer, c)
    ensures forall j :: 0 <= j < Feedback.WordLength ==>
              res[j] == if guess[j] == answer[j] then Feedback.Correct else Feedback.Absent
  {
    counts := counts0;
    for i := 0 to Feedback.WordLength
      invariant forall c :: Lookup(counts, c) == Feedback.GreenBudget(guess, answer, i, c)
      invariant forall j :: 0 <= j < Feedback.WordLength ==> answer[j] in counts
      invariant forall j :: 0 <= j < Feedback.WordLength ==>
                  res[j] == if j < i && guess[j] == answer[j] then Feedback.Correct else Feedback.Absent
    {
      Feedback.GreenBudgetStep(guess, answer, i);
      if guess[i] == answer[i] {
        res[i] := Feedback.Correct;
        var taken := counts[guess[i] := counts[guess[i]] - 1];
        TakeGreen(guess, answer, i, counts, taken);
        counts := taken;
      } else {
        assert forall c :: Lookup(counts, c) == Feedback.GreenBudget(guess, answer, i + 1, c);
      }
    }
  }

  /** A yellow at position i takes one from its letter's count, which then holds the budget after i. */
  lemma TakeYellow(guess: string, answer: string, i: nat, counts: map<char, int>, taken: map<char, int>)
    requires |guess| == Feedback.WordLength && |answer| == Feedback.WordLength && i < Feedback.WordLength
    requires forall c :: Lookup(counts, c) == Feedback.YellowBudget(guess, answer, i, c)
    requires guess[i] != answer[i] && guess[i] in counts && counts[guess[i]] > 0
    requires taken == counts[guess[i] := counts[guess[i]] - 1]
    ensures forall c :: Lookup(taken, c) == Feedback.YellowBudget(guess, answer, i + 1, c)
  {
    var g := guess[i];
    Feedback.YellowBudgetStep(guess, answer, i);
    assert Lookup(counts, g) == counts[g];
    LookupUpdate(counts, g, counts[g] - 1);
    assert forall c :: Lookup(taken, c) == if c == g then Lookup(counts, c) - 1 else Lookup(counts, c);
  }

  /** A position that stays as it is leaves every count at the budget after it. */
  lemma SkipYellow(guess: string, answer: string, i: nat, counts: map<char, int>)
    requires |guess| == Feedback.WordLength && |answer| == Feedback.WordLength && i < Feedback.WordLength
    requires forall c :: Lookup(counts, c) == Feedback.YellowBudget(guess, answer, i, c)
    requires guess[i] == answer[i] || Lookup(counts, guess[i]) <= 0
    ensures forall c :: Lookup(counts, c) == Feedback.YellowBudget(guess, answer, i + 1, c)
  {
    Feedback.YellowBudgetStep(guess, answer, i);
  }

  /** A green at position i takes one from its letter's count, which then holds the budget after i. */
  lemma TakeGreen(guess: string, answer: string, i: nat, counts: map<char, int>, taken: map<char, int>)
    requires |guess| == Feedback.WordLength && |answer| == Feedback.WordLength && i < Feedback.WordLength
    requires forall c :: Lookup(counts, c) == Feedback.GreenBudget(guess, answer, i, c)
    requires guess[i] == answer[i] && guess[i] in counts
    requires taken == counts[guess[i] := counts[guess[i]] - 1]
    ensures forall c :: Lookup(taken, c) == Feedback.GreenBudget(guess, answer, i + 1, c)
  {
    var g := guess[i];
    Feedback.GreenBudgetStep(guess, answer, i);
    assert Lookup(counts, g) == counts[g];
    LookupUpdate(counts, g, counts[g] - 1);
    assert forall c :: Lookup(taken, c) == if c == g then Lookup(counts, c) - 1 else Lookup(counts, c);
  }

  /** The yellows pass: left to right, a still-grey position turns 1 while its letter has budget. */
  method MarkYellows(guess: string, answer: string, res: array<int>, counts0: map<char, int>)
    returns (counts: map<char, int>)
    requires |guess| == Feedback.WordLength && |answer| == Feedback.WordLength
    requires res.Length == Feedback.WordLength
    requires forall c :: Lookup(counts0, c) == Feedback.Budget(guess, answer, c)
    requires forall j :: 0 <= j < Feedback.WordLength ==>
               res[j] == if guess[j] == answer[j] then Feedback.Correct else Feedback.Absent
    modifies res
    ensures res[..] == Feedback.Verdicts(guess, answer)
    ensures forall c :: Lookup(counts, c) == Feedback.YellowBudget(guess, answer, Feedback.WordLength, c)
  {
    counts := counts0;
    for i := 0 to Feedback.WordLength
      invariant forall c :: Lookup(counts, c) == Feedback.YellowBudget(guess, answer, i, c)
      invariant forall j :: 0 <= j < Feedback.WordLength ==>
                  res[j] == if j < i then Feedback.Digit(guess, answer, j)
                            else if guess[j] == answer[j] then Feedback.Correct
                            else Feedback.Absent
    {
      Feedback.YellowBudgetStep(guess, answer, i);
      var g := guess[i];
      if res[i] == Feedback.Absent && Lookup(counts, g) > 0 {
        res[i] := Feedback.Present;
        var taken := counts[g := counts[g] - 1];
        TakeYellow(guess, answer, i, counts, taken);
        counts := taken;
      } else {
        SkipYellow(guess, answer, i, counts);
      }
    }
  }

  /**
   * The Uint16Array(243) filled with one increment per candidate, at the index
   * of its pattern code; an element wraps to 0 past 65535.
   */
  method CountBuckets(guess: string, cands: seq<string>) returns (buckets: array<int>)
    requires |guess| == Feedback.WordLength && AllFiveLetters(cands)
    ensures fresh(buckets) && buckets.Length == Feedback.CodeCount
    ensures buckets[..] == Histogram(guess, cands)
  {
    buckets := new int[Feedback.CodeCount](_ => 0);
    for i := 0 to |cands|
      invariant AllFiveLetters(cands[..i])
      invariant buckets[..] == Histogram(guess, cands[..i])
    {
      var code := PatternCode(guess, cands[i]);
      HistogramStep(guess, cands, i);
      buckets[code] := (buckets[code] + 1) % Uint16Modulus;
    }
    assert cands[..|cands|] == cands;
  }

  /** filterCandidates: one filter pass per submitted row, in board order. */
  method FilterCandidates(allAnswers: seq<string>, submitted: seq<Observation>) returns (cand: seq<string>)
    requires AllFiveLetters(allAnswers) && ValidObservations(submitted)
    ensures cand == FilterAll(allAnswers, submitted)
  {
    cand := allAnswers;
    for i := 0 to |submitted|
      invariant ValidObservations(submitted[..i])
      invariant cand == FilterAll(allAnswers, submitted[..i])
    {
      assert submitted[..i + 1][..i] == submitted[..i];
      cand := Keep(cand, submitted[i]);
    }
    assert submitted[..|submitted|] == submitted;
  }
}
