/**
 * best_starter.js: score every candidate opening guess against the answer
 * list and keep the best one and a top-20 list. Its patternCode keeps the
 * letter budget in an Int8Array(26) indexed by `charCode - 97`, and scoreGuess
 * fills its own Uint16Array of buckets.
 */
module BestStarter {
  import opened Basics
  import Feedback
  import opened Words
  import opened CandidateFilter
  import opened GuessScorer
  import opened Ranking

  /** Int8Array elements keep the low 8 bits of a value, read as two's complement. */
  function Int8(x: int): (r: int)
    ensures -128 <= r < 128
    ensures -128 <= x < 128 ==> r == x
  {
    (x + 128) % 256 - 128
  }

  /** The letter whose budget sits at index k of the counts array. */
  function Letter(k: int): char
    requires 0 <= k < 26
  {
    (k + 'a' as int) as char
  }

  /** `charCode - 97`: a lower-case letter's index into the counts array. */
  function LetterIndex(c: char): (k: int)
    requires IsLowerLetter(c)
    ensures 0 <= k < 26 && Letter(k) == c
    ensures forall j :: 0 <= j < 26 && Letter(j) == c ==> j == k
  {
    c as int - 'a' as int
  }

  /**
   * patternCode over the Int8Array budget. Both words come out of
   * loadWordList, so every index stays within the 26 letters.
   */
  method PatternCode(guess: string, answer: string) returns (code: int)
    requires IsWord(guess) && IsWord(answer)
    ensures code == Feedback.PatternCode(guess, answer)
  {
    var res := new int[Feedback.WordLength](_ => Feedback.Absent);
    var counts := new int[26](_ => 0);
    CountLetters(answer, counts);
    MarkGreens(guess, answer, res, counts);
    MarkYellows(guess, answer, res, counts);
    code := Feedback.FoldDigits(res);
    assert res[..] == Feedback.Verdicts(guess, answer);
  }

  /** `counts[answer.charCodeAt(i) - 97]++` for each of the five letters. */
  method CountLetters(answer: string, counts: array<int>)
    requires IsWord(answer)
    requires counts.Length == 26 && forall k :: 0 <= k < 26 ==> counts[k] == 0
    modifies counts
    ensures forall k :: 0 <= k < 26 ==> counts[k] == Feedback.Count(answer, Letter(k))
  {
    for i := 0 to Feedback.WordLength
      invariant forall k :: 0 <= k < 26 ==> counts[k] == Feedback.CountBefore(answer, i, Letter(k))
    {
      var a := LetterIndex(answer[i]);
      counts[a] := Int8(counts[a] + 1);
    }
  }

  /** The greens pass: mark equal letter indices 2 and take one from that letter's budget. */
  method MarkGreens(guess: string, answer: string, res: array<int>, counts: array<int>)
    requires IsWord(guess) && IsWord(answer)
    requires res.Length == Feedback.WordLength && counts.Length == 26 && res != counts
    requires forall j :: 0 <= j < Feedback.WordLength ==> res[j] == Feedback.Absent
    requires forall k :: 0 <= k < 26 ==> counts[k] == Feedback.Count(answer, Letter(k))
    modifies res, counts
    ensures forall k :: 0 <= k < 26 ==> counts[k] == Feedback.Budget(guess, answer, Letter(k))
    ensures forall j :: 0 <= j < Feedback.WordLength ==>
              res[j] == if guess[j] == answer[j] then Feedback.Correct else Feedback.Absent
  {
    for i := 0 to Feedback.WordLength
      invariant forall k :: 0 <= k < 26 ==> counts[k] == Feedback.GreenBudget(guess, answer, i, Letter(k))
      invariant forall j :: 0 <= j < Feedback.WordLength ==>
                  res[j] == if j < i && guess[j] == answer[j] then Feedback.Correct else Feedback.Absent
    {
      Feedback.GreenBudgetStep(guess, answer, i);
      var g := LetterIndex(guess[i]);
      var a := LetterIndex(answer[i]);
      if g == a {
        res[i] := Feedback.Correct;
        counts[g] := Int8(counts[g] - 1);
      }
    }
  }

  /** The yellows pass: a position still at 0 turns 1 while its letter has budget left. */
  method MarkYellows(guess: string, answer: string, res: array<int>, counts: array<int>)
    requires IsWord(guess) && IsWord(answer)
    requires res.Length == Feedback.WordLength && counts.Length == 26 && res != counts
    requires forall k :: 0 <= k < 26 ==> counts[k] == Feedback.Budget(guess, answer, Letter(k))
    requires forall j :: 0 <= j < Feedback.WordLength ==>
               res[j] == if guess[j] == answer[j] then Feedback.Correct else Feedback.Absent
    modifies res, counts
    ensures res[..] == Feedback.Verdicts(guess, answer)
    ensures forall k :: 0 <= k < 26 ==> counts[k] == Feedback.YellowBudget(guess, answer, Feedback.WordLength, Letter(k))
  {
    for i := 0 to Feedback.WordLength
      invariant forall k :: 0 <= k < 26 ==> counts[k] == Feedback.YellowBudget(guess, answer, i, Letter(k))
      invariant forall j :: 0 <= j < Feedback.WordLength ==>
                  res[j] == if j < i then Feedback.Digit(guess, answer, j)
                            else if guess[j] == answer[j] then Feedback.Correct
                            else Feedback.Absent
    {
      Feedback.YellowBudgetStep(guess, answer, i);
      if res[i] != Feedback.Absent {
        continue;
      }
      var g := LetterIndex(guess[i]);
      if counts[g] > 0 {
        res[i] := Feedback.Present;
        counts[g] := Int8(counts[g] - 1);
      }
    }
  }

  /**
   * scoreGuess: fill the Uint16Array with one increment per answer at the
   * index of its code, then accumulate H and expected-remaining over the
   * non-empty buckets. With no answers nothing is divided and both are 0.
   */
  method ScoreGuess(guess: string, answers: seq<string>, plogp: real -> real) returns (h: real, er: real)
    requires IsWord(guess) && AllWords(answers)
    ensures h == Entropy(Histogram(guess, answers), |answers|, plogp)
    ensures er == ExpectedRemaining(Histogram(guess, answers), |answers|)
    ensures |answers| == 0 ==> h == 0.0 && er == 0.0
  {
    var buckets := new int[Feedback.CodeCount](_ => 0);
    for i := 0 to |answers|
      invariant AllFiveLetters(answers[..i])
      invariant buckets[..] == Histogram(guess, answers[..i])
    {
      var code := PatternCode(guess, answers[i]);
      HistogramStep(guess, answers, i);
      buckets[code] := (buckets[code] + 1) % Uint16Modulus;
    }
    assert answers[..|answers|] == answers;
    assert buckets[..] == Histogram(guess, answers);
    h, er := SumBuckets(buckets, |answers|, plogp);
  }

  /** What scoreGuess yields for one guess, as an entry of the top list. */
  function ScoreOf(guess: string, answers: seq<string>, plogp: real -> real): (s: Scored)
    requires IsWord(guess) && AllWords(answers)
    ensures s.guess == guess
  {
    var hist := Histogram(guess, answers);
    Scored(guess, Entropy(hist, |answers|, plogp), ExpectedRemaining(hist, |answers|))
  }

  /** Every guess scored, in the order the loop visits them. */
  function ScoreAll(guesses: seq<string>, answers: seq<string>, plogp: real -> real): (r: seq<Scored>)
    requires AllWords(guesses) && AllWords(answers)
    ensures |r| == |guesses| && forall i :: 0 <= i < |r| ==> r[i] == ScoreOf(guesses[i], answers, plogp)
  {
    seq(|guesses|, i requires 0 <= i < |guesses| => ScoreOf(guesses[i], answers, plogp))
  }

  /**
   * The loop of main: score each guess, push it on top, sort top by H
   * descending (stable), pop the last entry beyond topK, and replace best only
   * on a strictly greater H. Afterwards top is the first topK entries of the
   * stably sorted scores and best is the first guess reaching the largest H.
   */
  method RankStarters(answers: seq<string>, guesses: seq<string>, plogp: real -> real)
    returns (best: Best, top: seq<Scored>)
    requires AllWords(answers) && AllWords(guesses)
    ensures top == Take(StableSortDesc(ScoreAll(guesses, answers, plogp)), TopK)
    ensures best == BestOf(ScoreAll(guesses, answers, plogp))
    ensures |top| <= TopK && SortedDesc(top)
  {
    ghost var scored := ScoreAll(guesses, answers, plogp);
    best, top := Unset, [];
    for i := 0 to |guesses|
      invariant top == Take(StableSortDesc(scored[..i]), TopK)
      invariant best == BestOf(scored[..i])
    {
      var g := guesses[i];
      var h, er := ScoreGuess(g, answers, plogp);
      var entry := Scored(g, h, er);
      assert entry == scored[i];
      PrefixSnoc(scored, i);
      TopStep(scored[..i], entry, top);
      BestStep(scored[..i], entry);
      top := StableSortDesc(top + [entry]);
      if |top| > TopK {
        top := top[..|top| - 1];
      }
      if h > BestKey(best) {
        best := Found(entry);
      }
    }
    assert scored[..|guesses|] == scored;
  }

  /**
   * main, given the parsed word files: the answers, and the guesses when a
   * second list was named on the command line (the answers otherwise).
   */
  method RankWordLists(rawAnswers: seq<string>, rawGuesses: Option<seq<string>>, plogp: real -> real)
    returns (best: Best, top: seq<Scored>)
    ensures var answers := LoadWordList(rawAnswers);
            var guesses := if rawGuesses.Some? then LoadWordList(rawGuesses.value) else answers;
            top == Take(StableSortDesc(ScoreAll(guesses, answers, plogp)), TopK)
            && best == BestOf(ScoreAll(guesses, answers, plogp))
  {
    var answers := LoadWordList(rawAnswers);
    var guesses := if rawGuesses.Some? then LoadWordList(rawGuesses.value) else answers;
    best, top := RankStarters(answers, guesses, plogp);
  }
}
