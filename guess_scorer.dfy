/**
 * The guess scorer shared by entropyForGuess and scoreGuess: the 243-slot
 * Uint16Array histogram of feedback codes over the candidate list, and the
 * pass over its non-empty buckets that accumulates the entropy H (a sum of
 * -p log2 p with p = c / N) and expected-remaining (a sum of p * c, which is
 * (sum of c^2) / N). The floating-point term p log2 p is a parameter.
 */
module GuessScorer {
  import opened Feedback
  import opened CandidateFilter

  /** Uint16Array elements wrap around at 2^16. */
  const Uint16Modulus := 65536

  /** Incrementing a stored element is incrementing the exact count, modulo 2^16. */
  lemma Uint16Increment(x: int)
    ensures (x % Uint16Modulus + 1) % Uint16Modulus == (x + 1) % Uint16Modulus
  {
  }

  /** Exact number of candidates whose code against guess is k. */
  function CodeTally(guess: string, cands: seq<string>, k: int): (t: nat)
    requires |guess| == WordLength && AllFiveLetters(cands)
    ensures t <= |cands|
    decreases |cands|
  {
    if |cands| == 0 then 0
    else
      assert AllFiveLetters(cands[..|cands| - 1]);
      CodeTally(guess, cands[..|cands| - 1], k) + (if PatternCode(guess, cands[|cands| - 1]) == k then 1 else 0)
  }

  /** The exact tallies of all 243 codes. */
  function Tallies(guess: string, cands: seq<string>): seq<int>
    requires |guess| == WordLength && AllFiveLetters(cands)
  {
    seq(CodeCount, k => CodeTally(guess, cands, k))
  }

  /** The Uint16Array after the counting loop: every tally modulo 2^16. */
  function Histogram(guess: string, cands: seq<string>): (hist: seq<int>)
    requires |guess| == WordLength && AllFiveLetters(cands)
    ensures |hist| == CodeCount
    ensures forall k :: 0 <= k < CodeCount ==> 0 <= hist[k] < Uint16Modulus
  {
    seq(CodeCount, k => CodeTally(guess, cands, k) % Uint16Modulus)
  }

  function Sum(s: seq<int>): int
  {
    if |s| == 0 then 0 else Sum(s[..|s| - 1]) + s[|s| - 1]
  }

  function SumSquares(s: seq<int>): (sq: int)
    ensures sq >= 0
  {
    if |s| == 0 then 0 else SumSquares(s[..|s| - 1]) + s[|s| - 1] * s[|s| - 1]
  }

  /** Expected-remaining over a histogram of n candidates; no bucket is visited when n is 0. */
  function ExpectedRemaining(h: seq<int>, n: nat): (er: real)
    ensures er >= 0.0
    ensures n == 0 ==> er == 0.0
  {
    if n == 0 then 0.0 else SumSquares(h) as real / n as real
  }

  /**
   * The entropy over a histogram of n candidates, given the float term
   * `p * Math.log2(p)` as plogp: minus the sum of plogp(c / n) over the
   * non-empty buckets.
   */
  function Entropy(h: seq<int>, n: nat, plogp: real -> real): (hBits: real)
    ensures n == 0 ==> hBits == 0.0
    ensures (forall p :: plogp(p) <= 0.0) ==> hBits >= 0.0
  {
    if n == 0 || |h| == 0 then 0.0
    else
      var c := h[|h| - 1];
      Entropy(h[..|h| - 1], n, plogp) - (if c == 0 then 0.0 else plogp(c as real / n as real))
  }

  /**
   * The accumulation loop over the 243 buckets: skips empty buckets, and for
   * the others takes p = c / n, subtracts plogp(p) from H and adds p * c to
   * expected-remaining. Nothing is divided when n is 0.
   */
  method SumBuckets(buckets: array<int>, n: nat, plogp: real -> real) returns (h: real, er: real)
    requires buckets.Length == CodeCount
    requires n == 0 ==> forall k :: 0 <= k < buckets.Length ==> buckets[k] == 0
    ensures h == Entropy(buckets[..], n, plogp)
    ensures er == ExpectedRemaining(buckets[..], n)
    ensures n == 0 ==> h == 0.0 && er == 0.0
  {
    h, er := 0.0, 0.0;
    for i := 0 to CodeCount
      invariant h == Entropy(buckets[..i], n, plogp)
      invariant n > 0 ==> er == SumSquares(buckets[..i]) as real / n as real
      invariant n == 0 ==> er == 0.0
    {
      var c := buckets[i];
      assert buckets[..i + 1][..i] == buckets[..i];
      if c == 0 {
        continue;
      }
      var p := c as real / n as real;
      AddTerm(SumSquares(buckets[..i]), c, n);
      h := h - plogp(p);
      er := er + p * c as real;
    }
    assert buckets[..CodeCount] == buckets[..];
  }

  /** One step of the expected-remaining sum: adding p * c with p = c / n adds c^2 / n. */
  lemma AddTerm(sq: int, c: int, n: nat)
    requires n > 0
    ensures sq as real / n as real + (c as real / n as real) * c as real == (sq + c * c) as real / n as real
  {
    var m := n as real;
    assert (c as real / m) * c as real == (c * c) as real / m;
    assert sq as real / m + (c * c) as real / m == (sq as real + (c * c) as real) / m;
  }

  lemma {:induction false} SumIncrement(s: seq<int>, j: nat)
    requires j < |s|
    ensures Sum(s[j := s[j] + 1]) == Sum(s) + 1
  {
    if j < |s| - 1 {
      SumIncrement(s[..|s| - 1], j);
      assert s[j := s[j] + 1][..|s| - 1] == s[..|s| - 1][j := s[j] + 1];
    } else {
      assert s[j := s[j] + 1][..|s| - 1] == s[..|s| - 1];
    }
  }

  /** Adding one candidate adds one to exactly the bucket of its code. */
  lemma TalliesStep(guess: string, cands: seq<string>)
    requires |guess| == WordLength && AllFiveLetters(cands) && |cands| > 0
    ensures AllFiveLetters(cands[..|cands| - 1])
    ensures var code := PatternCode(guess, cands[|cands| - 1]);
            var before := Tallies(guess, cands[..|cands| - 1]);
            Tallies(guess, cands) == before[code := before[code] + 1]
  {
  }

  /** Counting candidate i adds one to the tally of its code and to no other. */
  lemma PrefixTallyStep(guess: string, cands: seq<string>, i: nat)
    requires |guess| == WordLength && AllFiveLetters(cands) && i < |cands|
    ensures AllFiveLetters(cands[..i]) && AllFiveLetters(cands[..i + 1])
    ensures forall k :: CodeTally(guess, cands[..i + 1], k)
                        == CodeTally(guess, cands[..i], k) + (if PatternCode(guess, cands[i]) == k then 1 else 0)
  {
    assert cands[..i + 1][..i] == cands[..i];
  }

  /**
   * `counts[code]++` on the Uint16Array for candidate i: the histogram of the
   * first i + 1 candidates is that of the first i with one wrapped increment
   * at the code of candidate i.
   */
  lemma HistogramStep(guess: string, cands: seq<string>, i: nat)
    requires |guess| == WordLength && AllFiveLetters(cands) && i < |cands|
    ensures AllFiveLetters(cands[..i]) && AllFiveLetters(cands[..i + 1])
    ensures var code := PatternCode(guess, cands[i]);
            var before := Histogram(guess, cands[..i]);
            Histogram(guess, cands[..i + 1]) == before[code := (before[code] + 1) % Uint16Modulus]
  {
    PrefixTallyStep(guess, cands, i);
    Uint16Increment(CodeTally(guess, cands[..i], PatternCode(guess, cands[i])));
  }

  /** The exact tallies add up to the number of candidates. */
  lemma {:induction false} TalliesSum(guess: string, cands: seq<string>)
    requires |guess| == WordLength && AllFiveLetters(cands)
    ensures Sum(Tallies(guess, cands)) == |cands|
    decreases |cands|
  {
    if |cands| == 0 {
      ZeroSum(Tallies(guess, cands));
    } else {
      TalliesStep(guess, cands);
      var init := cands[..|cands| - 1];
      TalliesSum(guess, init);
      SumIncrement(Tallies(guess, init), PatternCode(guess, cands[|cands| - 1]));
    }
  }

  lemma {:induction false} ZeroSum(s: seq<int>)
    requires forall k :: 0 <= k < |s| ==> s[k] == 0
    ensures Sum(s) == 0 && SumSquares(s) == 0
  {
    if |s| > 0 {
      ZeroSum(s[..|s| - 1]);
    }
  }

  /** Below 2^16 candidates no bucket wraps, and the buckets add up to N. */
  lemma HistogramSum(guess: string, cands: seq<string>)
    requires |guess| == WordLength && AllFiveLetters(cands)
    requires |cands| < Uint16Modulus
    ensures Histogram(guess, cands) == Tallies(guess, cands)
    ensures Sum(Histogram(guess, cands)) == |cands|
  {
    TalliesSum(guess, cands);
  }

  predicate NonNegative(s: seq<int>)
  {
    forall k :: 0 <= k < |s| ==> s[k] >= 0
  }

  lemma {:induction false} SquaresBounds(s: seq<int>)
    requires NonNegative(s)
    ensures 0 <= Sum(s) <= SumSquares(s) <= Sum(s) * Sum(s)
  {
    if |s| > 0 {
      var init, c := s[..|s| - 1], s[|s| - 1];
      SquaresBounds(init);
      var t := Sum(init);
      assert c <= c * c;
      assert t * t + c * c <= (t + c) * (t + c) by {
        assert 0 <= 2 * t * c;
      }
    }
  }

  /** With candidates present, expected-remaining lies between 1 and N. */
  lemma ExpectedRemainingBounds(guess: string, cands: seq<string>)
    requires |guess| == WordLength && AllFiveLetters(cands)
    requires 0 < |cands| < Uint16Modulus
    ensures 1.0 <= ExpectedRemaining(Histogram(guess, cands), |cands|) <= |cands| as real
  {
    var h := Histogram(guess, cands);
    HistogramSum(guess, cands);
    SquaresBounds(h);
    RatioBounds(SumSquares(h), |cands|);
  }

  lemma RatioBounds(sq: int, n: int)
    requires 0 < n <= sq <= n * n
    ensures 1.0 <= sq as real / n as real <= n as real
  {
    var q := sq as real / n as real;
    assert q * n as real == sq as real;
    assert (q - 1.0) * n as real == (sq - n) as real;
    assert (n as real - q) * n as real == (n * n - sq) as real;
  }

  lemma {:induction false} TalliesWhenAllSame(guess: string, cands: seq<string>, code: int, k: int)
    requires |guess| == WordLength && AllFiveLetters(cands)
    requires forall j :: 0 <= j < |cands| ==> PatternCode(guess, cands[j]) == code
    ensures CodeTally(guess, cands, k) == if k == code then |cands| else 0
    decreases |cands|
  {
    if |cands| > 0 {
      TalliesWhenAllSame(guess, cands[..|cands| - 1], code, k);
    }
  }

  lemma {:induction false} OneBucket(s: seq<int>, k: nat)
    requires k < |s|
    requires forall j :: 0 <= j < |s| && j != k ==> s[j] == 0
    ensures SumSquares(s) == s[k] * s[k]
  {
    if k < |s| - 1 {
      OneBucket(s[..|s| - 1], k);
    } else {
      ZeroSum(s[..|s| - 1]);
    }
  }

  /** A guess that gives every candidate the same feedback leaves all N of them, on average. */
  lemma SameFeedbackKeepsAll(guess: string, cands: seq<string>)
    requires |guess| == WordLength && AllFiveLetters(cands)
    requires 0 < |cands| < Uint16Modulus
    requires forall j :: 0 <= j < |cands| ==> PatternCode(guess, cands[j]) == PatternCode(guess, cands[0])
    ensures var n := |cands|; ExpectedRemaining(Histogram(guess, cands), n) == n as real
  {
    var n := |cands|;
    var h := Histogram(guess, cands);
    assert SumSquares(h) == n * n by {
      var code := PatternCode(guess, cands[0]);
      HistogramSum(guess, cands);
      forall j | 0 <= j < CodeCount
        ensures h[j] == if j == code then n else 0
      {
        TalliesWhenAllSame(guess, cands, code, j);
      }
      OneBucket(h, code);
    }
    SquareRatio(n);
  }

  lemma SquareRatio(n: nat)
    requires n > 0
    ensures (n * n) as real / n as real == n as real
  {
    var m := n as real;
    assert (n * n) as real == m * m;
  }

  predicate DistinctCodes(guess: string, cands: seq<string>)
    requires |guess| == WordLength && AllFiveLetters(cands)
  {
    forall i, j :: 0 <= i < j < |cands| ==> PatternCode(guess, cands[i]) != PatternCode(guess, cands[j])
  }

  lemma {:induction false} TallyWitness(guess: string, cands: seq<string>, k: int)
    requires |guess| == WordLength && AllFiveLetters(cands)
    requires CodeTally(guess, cands, k) > 0
    ensures exists j :: 0 <= j < |cands| && PatternCode(guess, cands[j]) == k
    decreases |cands|
  {
    var init := cands[..|cands| - 1];
    if PatternCode(guess, cands[|cands| - 1]) != k {
      TallyWitness(guess, init, k);
      var j :| 0 <= j < |init| && PatternCode(guess, init[j]) == k;
      assert cands[j] == init[j];
    }
  }

  lemma {:induction false} TalliesWhenDistinct(guess: string, cands: seq<string>, k: int)
    requires |guess| == WordLength && AllFiveLetters(cands)
    requires DistinctCodes(guess, cands)
    ensures CodeTally(guess, cands, k) <= 1
    decreases |cands|
  {
    if |cands| > 0 {
      var init := cands[..|cands| - 1];
      assert DistinctCodes(guess, init) by {
        forall i, j | 0 <= i < j < |init|
          ensures PatternCode(guess, init[i]) != PatternCode(guess, init[j])
        {
          assert init[i] == cands[i] && init[j] == cands[j];
        }
      }
      TalliesWhenDistinct(guess, init, k);
      if PatternCode(guess, cands[|cands| - 1]) == k && CodeTally(guess, init, k) > 0 {
        TallyWitness(guess, init, k);
        assert false;
      }
    }
  }

  lemma {:induction false} SquaresOfBits(s: seq<int>)
    requires forall k :: 0 <= k < |s| ==> 0 <= s[k] <= 1
    ensures SumSquares(s) == Sum(s)
  {
    if |s| > 0 {
      SquaresOfBits(s[..|s| - 1]);
    }
  }

  /** A guess that gives every candidate its own feedback leaves exactly one, on average. */
  lemma DistinctFeedbackLeavesOne(guess: string, cands: seq<string>)
    requires |guess| == WordLength && AllFiveLetters(cands)
    requires 0 < |cands| < Uint16Modulus
    requires DistinctCodes(guess, cands)
    ensures ExpectedRemaining(Histogram(guess, cands), |cands|) == 1.0
  {
    var h := Histogram(guess, cands);
    assert SumSquares(h) == |cands| by {
      HistogramSum(guess, cands);
      forall j | 0 <= j < CodeCount
        ensures 0 <= h[j] <= 1
      {
        TalliesWhenDistinct(guess, cands, j);
      }
      SquaresOfBits(h);
    }
    UnitRatio(|cands|);
  }

  /** The entropy of a histogram with all its weight in one bucket. */
  lemma {:induction false} EntropyOneBucket(h: seq<int>, n: nat, plogp: real -> real, k: nat)
    requires n > 0 && k < |h|
    requires forall j :: 0 <= j < |h| && j != k ==> h[j] == 0
    ensures Entropy(h, n, plogp) == if h[k] == 0 then 0.0 else -plogp(h[k] as real / n as real)
  {
    if k < |h| - 1 {
      EntropyOneBucket(h[..|h| - 1], n, plogp, k);
    } else {
      EntropyOfZeros(h[..|h| - 1], n, plogp);
    }
  }

  lemma {:induction false} EntropyOfZeros(h: seq<int>, n: nat, plogp: real -> real)
    requires forall j :: 0 <= j < |h| ==> h[j] == 0
    ensures Entropy(h, n, plogp) == 0.0
  {
    if |h| > 0 {
      EntropyOfZeros(h[..|h| - 1], n, plogp);
    }
  }

  /**
   * A guess that gives every candidate the same feedback carries no
   * information: its entropy is 0 whenever the log term vanishes at p = 1.
   */
  lemma SameFeedbackNoEntropy(guess: string, cands: seq<string>, plogp: real -> real)
    requires |guess| == WordLength && AllFiveLetters(cands)
    requires 0 < |cands| < Uint16Modulus
    requires forall j :: 0 <= j < |cands| ==> PatternCode(guess, cands[j]) == PatternCode(guess, cands[0])
    requires plogp(1.0) == 0.0
    ensures Entropy(Histogram(guess, cands), |cands|, plogp) == 0.0
  {
    var code := PatternCode(guess, cands[0]);
    var h := Histogram(guess, cands);
    HistogramSum(guess, cands);
    forall j | 0 <= j < CodeCount
      ensures h[j] == if j == code then |cands| else 0
    {
      TalliesWhenAllSame(guess, cands, code, j);
    }
    EntropyOneBucket(h, |cands|, plogp, code);
    UnitRatio(|cands|);
  }

  lemma UnitRatio(n: nat)
    requires n > 0
    ensures n as real / n as real == 1.0
  {
  }

  /** Over buckets holding 0 or 1 each, the entropy is one term plogp(1 / n) per filled bucket. */
  lemma {:induction false} EntropyOfBits(h: seq<int>, n: nat, plogp: real -> real)
    requires n > 0
    requires forall k :: 0 <= k < |h| ==> 0 <= h[k] <= 1
    ensures Entropy(h, n, plogp) == -(Sum(h) as real) * plogp(1.0 / n as real)
  {
    if |h| > 0 {
      EntropyOfBits(h[..|h| - 1], n, plogp);
    }
  }

  /**
   * A guess that gives every candidate its own feedback has the largest
   * entropy, -N * plogp(1 / N), which is log2 N bits for the real log term.
   */
  lemma DistinctFeedbackEntropy(guess: string, cands: seq<string>, plogp: real -> real)
    requires |guess| == WordLength && AllFiveLetters(cands)
    requires 0 < |cands| < Uint16Modulus
    requires DistinctCodes(guess, cands)
    ensures var n := |cands|; Entropy(Histogram(guess, cands), n, plogp) == -(n as real) * plogp(1.0 / n as real)
  {
    var h := Histogram(guess, cands);
    assert Sum(h) == |cands| && forall k :: 0 <= k < |h| ==> 0 <= h[k] <= 1 by {
      HistogramSum(guess, cands);
      forall j | 0 <= j < CodeCount
        ensures 0 <= h[j] <= 1
      {
        TalliesWhenDistinct(guess, cands, j);
      }
    }
    var n := |cands|;
    EntropyOfBitsSum(h, n, plogp);
  }

  lemma EntropyOfBitsSum(h: seq<int>, n: nat, plogp: real -> real)
    requires n > 0 && Sum(h) == n
    requires forall k :: 0 <= k < |h| ==> 0 <= h[k] <= 1
    ensures Entropy(h, n, plogp) == -(n as real) * plogp(1.0 / n as real)
  {
    EntropyOfBits(h, n, plogp);
  }
}
