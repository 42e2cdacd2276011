/**
 * Word-list ingestion (loadWordList, and the identical loadAnswers /
 * loadGuesses of the browser scripts): lower-case every entry and keep only
 * those of the shape /^[a-z]{5}$/. This is what every later call to the
 * pattern code relies on.
 */
module Words {
  import opened Basics
  import opened Feedback

  predicate IsLowerLetter(c: char)
  {
    'a' <= c <= 'z'
  }

  /** The shape /^[a-z]{5}$/. */
  predicate IsWord(w: string)
  {
    |w| == WordLength && forall k :: 0 <= k < |w| ==> IsLowerLetter(w[k])
  }

  predicate AllWords(ws: seq<string>)
  {
    forall k :: 0 <= k < |ws| ==> IsWord(ws[k])
  }

  /** Lower-casing of one character, for the ASCII letters. */
  function ToLowerChar(c: char): char
  {
    if 'A' <= c <= 'Z' then (c as int + ('a' as int - 'A' as int)) as char else c
  }

  function ToLower(s: string): (lower: string)
    ensures |lower| == |s|
    ensures forall k :: 0 <= k < |s| ==> (IsLowerLetter(lower[k]) <==> IsLowerLetter(s[k]) || 'A' <= s[k] <= 'Z')
    ensures forall k :: 0 <= k < |s| && !('A' <= s[k] <= 'Z') ==> lower[k] == s[k]
  {
    seq(|s|, k requires 0 <= k < |s| => ToLowerChar(s[k]))
  }

  /** The list after `.map(w => String(w).toLowerCase())`. */
  function LowerAll(raw: seq<string>): seq<string>
  {
    seq(|raw|, k requires 0 <= k < |raw| => ToLower(raw[k]))
  }

  /** `.map(toLowerCase).filter(/^[a-z]{5}$/)`: every entry it returns is a word. */
  function LoadWordList(raw: seq<string>): (ws: seq<string>)
    ensures AllWords(ws)
    ensures |ws| <= |raw|
  {
    if |raw| == 0 then []
    else (if IsWord(ToLower(raw[0])) then [ToLower(raw[0])] else []) + LoadWordList(raw[1..])
  }

  /** A word is already in lower case. */
  lemma LowerOfWord(w: string)
    requires IsWord(w)
    ensures ToLower(w) == w
  {
  }

  /** x is loaded exactly when it has the word shape and some raw entry lower-cases to it. */
  lemma {:induction false} LoadWordListMembers(raw: seq<string>, x: string)
    ensures x in LoadWordList(raw) <==> IsWord(x) && exists k :: 0 <= k < |raw| && ToLower(raw[k]) == x
  {
    if |raw| > 0 {
      LoadWordListMembers(raw[1..], x);
      if exists k :: 0 <= k < |raw| && ToLower(raw[k]) == x {
        var k :| 0 <= k < |raw| && ToLower(raw[k]) == x;
        if k > 0 {
          assert ToLower(raw[1..][k - 1]) == x;
        }
      }
      if exists k :: 0 <= k < |raw| - 1 && ToLower(raw[1..][k]) == x {
        var k :| 0 <= k < |raw| - 1 && ToLower(raw[1..][k]) == x;
        assert ToLower(raw[k + 1]) == x;
      }
    }
  }

  /** The loaded words keep the order of the input. */
  lemma {:induction false} LoadWordListInOrder(raw: seq<string>)
    ensures IsSubsequence(LoadWordList(raw), LowerAll(raw))
  {
    if |raw| > 0 {
      LoadWordListInOrder(raw[1..]);
      var s, t := LoadWordList(raw), LowerAll(raw);
      assert t[1..] == LowerAll(raw[1..]);
      if IsWord(ToLower(raw[0])) {
        assert s[0] == t[0] && s[1..] == LoadWordList(raw[1..]);
      } else {
        assert s == LoadWordList(raw[1..]);
      }
    }
  }

  /** A list that is already all words loads unchanged; so loading twice is loading once. */
  lemma {:induction false} LoadWordListKeepsWords(ws: seq<string>)
    requires forall k :: 0 <= k < |ws| ==> IsWord(ws[k])
    ensures LoadWordList(ws) == ws
  {
    if |ws| > 0 {
      LowerOfWord(ws[0]);
      LoadWordListKeepsWords(ws[1..]);
    }
  }

  lemma LoadWordListIdempotent(raw: seq<string>)
    ensures LoadWordList(LoadWordList(raw)) == LoadWordList(raw)
  {
    LoadWordListKeepsWords(LoadWordList(raw));
  }
}
