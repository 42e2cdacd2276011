/**
 * Narrowing the answer list by the submitted rows (filterCandidates): a fold
 * over the observations, each step keeping the answers whose pattern code
 * against that row's guess is the code the game showed.
 */
module CandidateFilter {
  import opened Basics
  import opened Feedback

  /** One submitted row: its letters and the code its tiles showed. */
  datatype Observation = Observation(guess: string, evalCode: int)

  predicate AllFiveLetters(ws: seq<string>)
  {
    forall k :: 0 <= k < |ws| ==> |ws[k]| == WordLength
  }

  predicate ValidObservations(obs: seq<Observation>)
  {
    forall k :: 0 <= k < |obs| ==> |obs[k].guess| == WordLength
  }

  /** One step: `cand.filter(ans => patternCode(guess, ans) === evalCode)`. */
  function Keep(cands: seq<string>, o: Observation): (r: seq<string>)
    requires AllFiveLetters(cands) && |o.guess| == WordLength
    ensures forall k :: 0 <= k < |r| ==> r[k] in cands && PatternCode(o.guess, r[k]) == o.evalCode
  {
    if |cands| == 0 then []
    else (if PatternCode(o.guess, cands[0]) == o.evalCode then [cands[0]] else []) + Keep(cands[1..], o)
  }

  /** The list after applying the observations one after the other, in order. */
  function FilterAll(cands: seq<string>, obs: seq<Observation>): (r: seq<string>)
    requires AllFiveLetters(cands) && ValidObservations(obs)
    ensures AllFiveLetters(r)
    decreases |obs|
  {
    if |obs| == 0 then cands
    else Keep(FilterAll(cands, obs[..|obs| - 1]), obs[|obs| - 1])
  }

  /** Answer a is consistent with every observation. */
  predicate Matches(a: string, obs: seq<Observation>)
    requires |a| == WordLength && ValidObservations(obs)
  {
    forall k :: 0 <= k < |obs| ==> PatternCode(obs[k].guess, a) == obs[k].evalCode
  }

  /** A single pass that keeps the answers consistent with all observations at once. */
  function KeepMatching(cands: seq<string>, obs: seq<Observation>): (r: seq<string>)
    requires AllFiveLetters(cands) && ValidObservations(obs)
    ensures forall k :: 0 <= k < |r| ==> r[k] in cands && Matches(r[k], obs)
  {
    if |cands| == 0 then []
    else (if Matches(cands[0], obs) then [cands[0]] else []) + KeepMatching(cands[1..], obs)
  }

  lemma {:induction false} KeepAfterKeepMatching(cands: seq<string>, obs: seq<Observation>, o: Observation)
    requires AllFiveLetters(cands) && ValidObservations(obs) && |o.guess| == WordLength
    ensures ValidObservations(obs + [o])
    ensures Keep(KeepMatching(cands, obs), o) == KeepMatching(cands, obs + [o])
  {
    var obs' := obs + [o];
    assert forall k :: 0 <= k < |obs| ==> obs'[k] == obs[k];
    if |cands| > 0 {
      var c, rest := cands[0], cands[1..];
      KeepAfterKeepMatching(rest, obs, o);
      assert Matches(c, obs') <==> Matches(c, obs) && PatternCode(o.guess, c) == o.evalCode by {
        assert obs'[|obs|] == o;
      }
      var km := KeepMatching(cands, obs);
      if Matches(c, obs) {
        assert km[0] == c && km[1..] == KeepMatching(rest, obs);
      } else {
        assert km == KeepMatching(rest, obs);
      }
    }
  }

  /** Filtering observation by observation equals one pass with all of them. */
  lemma {:induction false} FilterAllIsSingleFilter(cands: seq<string>, obs: seq<Observation>)
    requires AllFiveLetters(cands) && ValidObservations(obs)
    ensures FilterAll(cands, obs) == KeepMatching(cands, obs)
    decreases |obs|
  {
    if |obs| == 0 {
      KeepMatchingKeepsAllMatching(cands, obs);
    } else {
      var init := obs[..|obs| - 1];
      FilterAllIsSingleFilter(cands, init);
      KeepAfterKeepMatching(cands, init, obs[|obs| - 1]);
      assert init + [obs[|obs| - 1]] == obs;
    }
  }

  /** A list whose every entry already matches passes through unchanged. */
  lemma {:induction false} KeepMatchingKeepsAllMatching(cands: seq<string>, obs: seq<Observation>)
    requires AllFiveLetters(cands) && ValidObservations(obs)
    requires forall k :: 0 <= k < |cands| ==> Matches(cands[k], obs)
    ensures KeepMatching(cands, obs) == cands
  {
    if |cands| > 0 {
      KeepMatchingKeepsAllMatching(cands[1..], obs);
    }
  }

  /** x survives the filter exactly when it was a candidate consistent with every observation. */
  lemma FilterAllMembers(cands: seq<string>, obs: seq<Observation>, x: string)
    requires AllFiveLetters(cands) && ValidObservations(obs)
    ensures x in FilterAll(cands, obs) <==> x in cands && Matches(x, obs)
  {
    FilterAllIsSingleFilter(cands, obs);
    KeepMatchingMembers(cands, obs, x);
  }

  lemma {:induction false} KeepMatchingMembers(cands: seq<string>, obs: seq<Observation>, x: string)
    requires AllFiveLetters(cands) && ValidObservations(obs)
    ensures x in KeepMatching(cands, obs) <==> x in cands && Matches(x, obs)
  {
    if |cands| > 0 {
      KeepMatchingMembers(cands[1..], obs, x);
      assert cands == [cands[0]] + cands[1..];
    }
  }

  /** The survivors keep their relative order from the input list. */
  lemma FilterAllInOrder(cands: seq<string>, obs: seq<Observation>)
    requires AllFiveLetters(cands) && ValidObservations(obs)
    ensures IsSubsequence(FilterAll(cands, obs), cands)
  {
    FilterAllIsSingleFilter(cands, obs);
    KeepMatchingInOrder(cands, obs);
  }

  lemma {:induction false} KeepMatchingInOrder(cands: seq<string>, obs: seq<Observation>)
    requires AllFiveLetters(cands) && ValidObservations(obs)
    ensures IsSubsequence(KeepMatching(cands, obs), cands)
  {
    if |cands| > 0 {
      KeepMatchingInOrder(cands[1..], obs);
      var r := KeepMatching(cands, obs);
      if Matches(cands[0], obs) {
        assert r[0] == cands[0] && r[1..] == KeepMatching(cands[1..], obs);
      } else {
        assert r == KeepMatching(cands[1..], obs);
      }
    }
  }

  /** Re-applying the same observations to the survivors changes nothing. */
  lemma FilterAllIdempotent(cands: seq<string>, obs: seq<Observation>)
    requires AllFiveLetters(cands) && ValidObservations(obs)
    ensures FilterAll(FilterAll(cands, obs), obs) == FilterAll(cands, obs)
  {
    var once := FilterAll(cands, obs);
    FilterAllIsSingleFilter(cands, obs);
    FilterAllIsSingleFilter(once, obs);
    KeepMatchingKeepsAllMatching(once, obs);
  }

  /** Observations applied in two batches give what applying them all at once gives. */
  lemma {:induction false} FilterAllComposes(cands: seq<string>, first: seq<Observation>, second: seq<Observation>)
    requires AllFiveLetters(cands) && ValidObservations(first) && ValidObservations(second)
    ensures ValidObservations(first + second)
    ensures FilterAll(cands, first + second) == FilterAll(FilterAll(cands, first), second)
    decreases |second|
  {
    ValidConcat(first, second);
    if |second| == 0 {
      assert first + second == first;
    } else {
      var init, last := second[..|second| - 1], second[|second| - 1];
      FilterAllComposes(cands, first, init);
      assert second == init + [last];
      assert first + second == (first + init) + [last];
      FilterAllSnoc(cands, first + init, last);
      FilterAllSnoc(FilterAll(cands, first), init, last);
    }
  }

  lemma ValidConcat(first: seq<Observation>, second: seq<Observation>)
    requires ValidObservations(first) && ValidObservations(second)
    ensures ValidObservations(first + second)
  {
    var all := first + second;
    forall k | 0 <= k < |all|
      ensures |all[k].guess| == WordLength
    {
      if k >= |first| {
        assert all[k] == second[k - |first|];
      }
    }
  }

  /** One more observation is one more filter pass. */
  lemma FilterAllSnoc(cands: seq<string>, obs: seq<Observation>, o: Observation)
    requires AllFiveLetters(cands) && ValidObservations(obs) && |o.guess| == WordLength
    ensures ValidObservations(obs + [o])
    ensures FilterAll(cands, obs + [o]) == Keep(FilterAll(cands, obs), o)
  {
    ValidConcat(obs, [o]);
    assert (obs + [o])[..|obs|] == obs;
  }

  /** Adding observations can only remove candidates, never bring any back. */
  lemma NeverRegrows(cands: seq<string>, first: seq<Observation>, second: seq<Observation>)
    requires AllFiveLetters(cands) && ValidObservations(first) && ValidObservations(second)
    ensures ValidObservations(first + second)
    ensures IsSubsequence(FilterAll(cands, first + second), FilterAll(cands, first))
  {
    FilterAllComposes(cands, first, second);
    FilterAllInOrder(FilterAll(cands, first), second);
  }

  /** Only which observations were made matters, not their order or repetition. */
  lemma FilterAllOrderIrrelevant(cands: seq<string>, obs1: seq<Observation>, obs2: seq<Observation>)
    requires AllFiveLetters(cands) && ValidObservations(obs1) && ValidObservations(obs2)
    requires forall o :: o in obs1 <==> o in obs2
    ensures FilterAll(cands, obs1) == FilterAll(cands, obs2)
  {
    FilterAllIsSingleFilter(cands, obs1);
    FilterAllIsSingleFilter(cands, obs2);
    forall a | |a| == WordLength
      ensures Matches(a, obs1) <==> Matches(a, obs2)
    {
      SameMatches(a, obs1, obs2);
      SameMatches(a, obs2, obs1);
    }
    KeepMatchingSame(cands, obs1, obs2);
  }

  lemma SameMatches(a: string, obs1: seq<Observation>, obs2: seq<Observation>)
    requires |a| == WordLength && ValidObservations(obs1) && ValidObservations(obs2)
    requires forall o :: o in obs1 ==> o in obs2
    ensures Matches(a, obs2) ==> Matches(a, obs1)
  {
    if Matches(a, obs2) {
      forall k | 0 <= k < |obs1|
        ensures PatternCode(obs1[k].guess, a) == obs1[k].evalCode
      {
        assert obs1[k] in obs2;
        var j :| 0 <= j < |obs2| && obs2[j] == obs1[k];
      }
    }
  }

  lemma {:induction false} KeepMatchingSame(cands: seq<string>, obs1: seq<Observation>, obs2: seq<Observation>)
    requires AllFiveLetters(cands) && ValidObservations(obs1) && ValidObservations(obs2)
    requires forall a :: |a| == WordLength ==> (Matches(a, obs1) <==> Matches(a, obs2))
    ensures KeepMatching(cands, obs1) == KeepMatching(cands, obs2)
  {
    if |cands| > 0 {
      KeepMatchingSame(cands[1..], obs1, obs2);
    }
  }
}
