/**
 * The feedback rule of the game: the green / yellow / grey verdict of a
 * five-letter guess against a five-letter answer, and its base-3 code.
 *
 * The verdicts are given here in closed form, position by position; the
 * three-pass loops that the scripts actually run are proved equal to this
 * definition in content_script.dfy and best_starter.dfy.
 */
module Feedback {
  import opened Basics

  const WordLength := 5
  /** 3^5 possible codes, 0 .. 242. */
  const CodeCount := 243

  const Absent := 0
  const Present := 1
  const Correct := 2

  /** Number of positions j < n with s[j] == c. */
  function CountBefore(s: seq<char>, n: nat, c: char): (k: nat)
    requires n <= |s|
    ensures k <= n
  {
    if n == 0 then 0 else CountBefore(s, n - 1, c) + (if s[n - 1] == c then 1 else 0)
  }

  /** The multiplicity of c in s. */
  function Count(s: seq<char>, c: char): nat
  {
    CountBefore(s, |s|, c)
  }

  /** Green positions j < n that hold c: never more than either word's own c's. */
  function GreensBefore(g: seq<char>, a: seq<char>, n: nat, c: char): (k: nat)
    requires |g| == |a| && n <= |g|
    ensures k <= CountBefore(a, n, c) && k <= CountBefore(g, n, c)
  {
    if n == 0 then 0
    else GreensBefore(g, a, n - 1, c) + (if g[n - 1] == c && a[n - 1] == c then 1 else 0)
  }

  /** Positions j < n where the guess holds c but is not green. */
  function NonGreensBefore(g: seq<char>, a: seq<char>, n: nat, c: char): nat
    requires |g| == |a| && n <= |g|
  {
    if n == 0 then 0
    else NonGreensBefore(g, a, n - 1, c) + (if g[n - 1] == c && a[n - 1] != c then 1 else 0)
  }

  /** The answer's budget for c that is left once the greens have taken theirs. */
  function Budget(g: seq<char>, a: seq<char>, c: char): nat
    requires |g| == |a|
  {
    Count(a, c) - GreensBefore(g, a, |g|, c)
  }

  /** The answer's copies of c not yet taken when the greens pass reaches position n. */
  function GreenBudget(g: seq<char>, a: seq<char>, n: nat, c: char): int
    requires |g| == |a| && n <= |g|
  {
    Count(a, c) - GreensBefore(g, a, n, c)
  }

  /** The budget of c still unused when the yellows pass reaches position n. */
  function YellowBudget(g: seq<char>, a: seq<char>, n: nat, c: char): int
    requires |g| == |a| && n <= |g|
  {
    Budget(g, a, c) - Min(NonGreensBefore(g, a, n, c), Budget(g, a, c))
  }

  /**
   * Verdict at position i: green on an exact match; otherwise yellow exactly
   * when fewer non-green copies of the letter stand to its left than the
   * budget left after the greens; grey otherwise.
   */
  function Digit(g: seq<char>, a: seq<char>, i: nat): (d: int)
    requires |g| == |a| && i < |g|
    ensures Absent <= d <= Correct
    ensures d == Correct <==> g[i] == a[i]
  {
    if g[i] == a[i] then Correct
    else if NonGreensBefore(g, a, i, g[i]) < Budget(g, a, g[i]) then Present
    else Absent
  }

  /** A green at position n takes one from its letter's budget; nothing else changes. */
  lemma GreenBudgetStep(g: seq<char>, a: seq<char>, n: nat)
    requires |g| == |a| && n < |g|
    ensures forall c :: GreenBudget(g, a, n + 1, c) == GreenBudget(g, a, n, c) - (if c == g[n] && g[n] == a[n] then 1 else 0)
  {
  }

  /**
   * At position n the verdict is yellow exactly when its letter still has
   * budget, and a yellow takes one from it; nothing else changes.
   */
  lemma YellowBudgetStep(g: seq<char>, a: seq<char>, n: nat)
    requires |g| == |a| && n < |g|
    ensures Digit(g, a, n) == if g[n] == a[n] then Correct else if YellowBudget(g, a, n, g[n]) > 0 then Present else Absent
    ensures forall c :: YellowBudget(g, a, n + 1, c)
                        == YellowBudget(g, a, n, c) - (if c == g[n] && g[n] != a[n] && YellowBudget(g, a, n, c) > 0 then 1 else 0)
  {
  }

  /** The verdicts of all positions, left to right. */
  function Verdicts(g: seq<char>, a: seq<char>): (vs: seq<int>)
    requires |g| == |a|
    ensures |vs| == |g| && IsDigits(vs)
  {
    seq(|g|, i requires 0 <= i < |g| => Digit(g, a, i))
  }

  function Pow3(n: nat): (p: nat)
    ensures p >= 1
  {
    if n == 0 then 1 else 3 * Pow3(n - 1)
  }

  predicate IsDigits(ds: seq<int>)
  {
    forall k :: 0 <= k < |ds| ==> Absent <= ds[k] <= Correct
  }

  /** Base-3 value of ds, leftmost digit most significant: the fold code := code * 3 + d. */
  function Encode(ds: seq<int>): int
  {
    if |ds| == 0 then 0 else Encode(ds[..|ds| - 1]) * 3 + ds[|ds| - 1]
  }

  /** The n base-3 digits of code, leftmost most significant. */
  function Decode(code: int, n: nat): (ds: seq<int>)
    ensures |ds| == n && IsDigits(ds)
    decreases n
  {
    if n == 0 then [] else Decode(code / 3, n - 1) + [code % 3]
  }

  /** The base-3 fold `for (i = 0; i < 5; i++) code = code * 3 + res[i]` shared by every copy of patternCode. */
  method FoldDigits(res: array<int>) returns (code: int)
    ensures code == Encode(res[..])
  {
    code := 0;
    for i := 0 to res.Length
      invariant code == Encode(res[..i])
    {
      assert res[..i + 1][..i] == res[..i];
      code := code * 3 + res[i];
    }
    assert res[..res.Length] == res[..];
  }

  lemma {:induction false} EncodeRange(ds: seq<int>)
    requires IsDigits(ds)
    ensures 0 <= Encode(ds) < Pow3(|ds|)
  {
    if |ds| > 0 {
      EncodeRange(ds[..|ds| - 1]);
    }
  }

  /** Decoding the code of a digit string gives the digit string back. */
  lemma {:induction false} DecodeEncode(ds: seq<int>)
    requires IsDigits(ds)
    ensures Decode(Encode(ds), |ds|) == ds
  {
    if |ds| > 0 {
      var init := ds[..|ds| - 1];
      var e := Encode(init);
      assert (e * 3 + ds[|ds| - 1]) / 3 == e;
      assert (e * 3 + ds[|ds| - 1]) % 3 == ds[|ds| - 1];
      DecodeEncode(init);
      assert init + [ds[|ds| - 1]] == ds;
    }
  }

  /** Every code in range is the code of its own digits. */
  lemma {:induction false} EncodeDecode(code: int, n: nat)
    requires 0 <= code < Pow3(n)
    ensures Encode(Decode(code, n)) == code
  {
    if n > 0 {
      assert code / 3 < Pow3(n - 1);
      EncodeDecode(code / 3, n - 1);
      var ds := Decode(code, n);
      assert ds[..n - 1] == Decode(code / 3, n - 1);
    }
  }

  /**
   * The feedback code of guess g against answer a (patternCode).
   * Every digit is 0, 1 or 2, so five of them fold to a value in 0 .. 242.
   */
  function PatternCode(g: seq<char>, a: seq<char>): (code: int)
    requires |g| == WordLength && |a| == WordLength
    ensures 0 <= code < CodeCount
  {
    EncodeRange(Verdicts(g, a));
    Encode(Verdicts(g, a))
  }

  /** The five digits of the code are the five verdicts. */
  lemma CodeDigits(g: seq<char>, a: seq<char>)
    requires |g| == WordLength && |a| == WordLength
    ensures Decode(PatternCode(g, a), WordLength) == Verdicts(g, a)
  {
    DecodeEncode(Verdicts(g, a));
  }

  /** Digit i of the code is 2 exactly when the guess and the answer agree at i. */
  lemma CorrectIff(g: seq<char>, a: seq<char>, i: nat)
    requires |g| == WordLength && |a| == WordLength && i < WordLength
    ensures Decode(PatternCode(g, a), WordLength)[i] == Correct <==> g[i] == a[i]
  {
    CodeDigits(g, a);
  }

  /** A word scored against itself is all green: code 242. */
  lemma SelfIsAllCorrect(w: seq<char>)
    requires |w| == WordLength
    ensures PatternCode(w, w) == CodeCount - 1
  {
    AllCorrectCode(Verdicts(w, w));
    assert Pow3(WordLength) == CodeCount;
  }

  lemma {:induction false} AllCorrectCode(ds: seq<int>)
    requires forall k :: 0 <= k < |ds| ==> ds[k] == Correct
    ensures Encode(ds) == Pow3(|ds|) - 1
  {
    if |ds| > 0 {
      AllCorrectCode(ds[..|ds| - 1]);
    }
  }

  /** Positions j < n whose guess letter is c and whose verdict is green or yellow. */
  function MarksBefore(g: seq<char>, a: seq<char>, n: nat, c: char): nat
    requires |g| == |a| && n <= |g|
  {
    if n == 0 then 0
    else MarksBefore(g, a, n - 1, c) + (if g[n - 1] == c && Digit(g, a, n - 1) != Absent then 1 else 0)
  }

  lemma {:induction false} CountSplits(g: seq<char>, a: seq<char>, n: nat, c: char)
    requires |g| == |a| && n <= |g|
    ensures CountBefore(g, n, c) == GreensBefore(g, a, n, c) + NonGreensBefore(g, a, n, c)
  {
    if n > 0 {
      CountSplits(g, a, n - 1, c);
    }
  }

  lemma {:induction false} MarksClosedForm(g: seq<char>, a: seq<char>, n: nat, c: char)
    requires |g| == |a| && n <= |g|
    ensures MarksBefore(g, a, n, c)
         == GreensBefore(g, a, n, c) + Min(NonGreensBefore(g, a, n, c), Budget(g, a, c))
  {
    if n > 0 {
      MarksClosedForm(g, a, n - 1, c);
    }
  }

  /**
   * For every letter, greens plus yellows equal the smaller of its counts in
   * the guess and in the answer; in particular they never exceed the answer's.
   */
  lemma MarksPerLetter(g: seq<char>, a: seq<char>, c: char)
    requires |g| == |a|
    ensures MarksBefore(g, a, |g|, c) == Min(Count(g, c), Count(a, c))
    ensures MarksBefore(g, a, |g|, c) <= Count(a, c)
  {
    MarksClosedForm(g, a, |g|, c);
    CountSplits(g, a, |g|, c);
  }

  lemma {:induction false} NonGreensMonotone(g: seq<char>, a: seq<char>, j: nat, i: nat, c: char)
    requires |g| == |a| && j <= i <= |g|
    ensures NonGreensBefore(g, a, j, c) <= NonGreensBefore(g, a, i, c)
  {
    if j < i {
      NonGreensMonotone(g, a, j, i - 1, c);
    }
  }

  /**
   * Yellows of a repeated letter go to its leftmost non-green occurrences:
   * if a later non-green copy is yellow, every earlier non-green copy is too.
   */
  lemma PresentGoesLeftmost(g: seq<char>, a: seq<char>, j: nat, i: nat)
    requires |g| == |a| && j < i < |g|
    requires g[j] == g[i] && g[j] != a[j]
    requires Digit(g, a, i) == Present
    ensures Digit(g, a, j) == Present
  {
    NonGreensMonotone(g, a, j + 1, i, g[i]);
  }

  /** The duplicate-letter case from the game's rules: "speed" against "erase". */
  lemma SpeedAgainstErase()
    ensures PatternCode("speed", "erase") == 93
  {
    var g, a := "speed", "erase";
    assert a[0] == 'e' && a[1] == 'r' && a[2] == 'a' && a[3] == 's' && a[4] == 'e';
    assert g[0] == 's' && g[1] == 'p' && g[2] == 'e' && g[3] == 'e' && g[4] == 'd';
    assert CountBefore(a, 1, 'e') == 1 && CountBefore(a, 2, 'e') == 1 && CountBefore(a, 3, 'e') == 1;
    assert CountBefore(a, 4, 'e') == 1;
    assert Count(a, 's') == 1 && Count(a, 'p') == 0 && Count(a, 'e') == 2;
    assert GreensBefore(g, a, 5, 's') == 0 && GreensBefore(g, a, 5, 'p') == 0 && GreensBefore(g, a, 5, 'e') == 0;
    assert NonGreensBefore(g, a, 2, 'e') == 0 && NonGreensBefore(g, a, 3, 'e') == 1;
    assert GreensBefore(g, a, 5, 'd') <= Count(a, 'd') == 0;
    assert Digit(g, a, 0) == Present && Digit(g, a, 1) == Absent && Digit(g, a, 2) == Present;
    assert Digit(g, a, 3) == Present && Digit(g, a, 4) == Absent;
    var v := Verdicts(g, a);
    assert v == [Present, Absent, Present, Present, Absent];
    assert v[..2][..1] == v[..1] && v[..3][..2] == v[..2] && v[..4][..3] == v[..3] && v[..5][..4] == v[..4];
    assert Encode(v[..1]) == 1 && Encode(v[..2]) == 3;
    assert Encode(v[..3]) == 10;
    assert Encode(v[..4]) == 31;
    assert v[..5] == v;
    assert v[..4][..3][..2][..1] == [Present];
  }

  /**
   * The budget running out: "abide" has one e, so against "speed" the first
   * non-green e is yellow and the second is grey.
   */
  lemma SpeedAgainstAbide()
    ensures Verdicts("speed", "abide") == [Absent, Absent, Present, Absent, Present]
    ensures PatternCode("speed", "abide") == 10
  {
    var g, a := "speed", "abide";
    assert a[0] == 'a' && a[1] == 'b' && a[2] == 'i' && a[3] == 'd' && a[4] == 'e';
    assert g[0] == 's' && g[1] == 'p' && g[2] == 'e' && g[3] == 'e' && g[4] == 'd';
    assert CountBefore(a, 1, 'e') == 0 && CountBefore(a, 4, 'e') == 0;
    assert CountBefore(a, 1, 'd') == 0 && CountBefore(a, 4, 'd') == 1;
    assert Count(a, 's') == 0 && Count(a, 'p') == 0 && Count(a, 'e') == 1 && Count(a, 'd') == 1;
    assert GreensBefore(g, a, 5, 's') == 0 && GreensBefore(g, a, 5, 'p') == 0;
    assert GreensBefore(g, a, 5, 'e') == 0 && GreensBefore(g, a, 5, 'd') == 0;
    assert NonGreensBefore(g, a, 2, 'e') == 0 && NonGreensBefore(g, a, 3, 'e') == 1;
    assert NonGreensBefore(g, a, 4, 'd') == 0;
    assert Digit(g, a, 0) == Absent && Digit(g, a, 1) == Absent && Digit(g, a, 2) == Present;
    assert Digit(g, a, 3) == Absent && Digit(g, a, 4) == Present;
    var v := Verdicts(g, a);
    assert v == [Absent, Absent, Present, Absent, Present];
    assert v[..2][..1] == v[..1] && v[..3][..2] == v[..2] && v[..4][..3] == v[..3] && v[..5][..4] == v[..4];
    assert Encode(v[..1]) == 0 && Encode(v[..2]) == 0;
    assert Encode(v[..3]) == 1;
    assert Encode(v[..4]) == 3;
    assert v[..5] == v;
    assert v[..4][..3][..2][..1] == [Absent];
  }
}
