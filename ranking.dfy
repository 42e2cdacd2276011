/**
 * The bookkeeping of best_starter.js's main loop, on values: scored guesses,
 * the stable sort by H descending that `top.sort((a, b) => b.H - a.H)`
 * performs, the cut to the first topK entries, and the running best that is
 * replaced only on a strictly greater H. H is an ordered key here; how it is
 * computed does not matter to any of this.
 */
module Ranking {
  /** One entry of the top list: `{ guess, H, expectedRemaining }`. */
  datatype Scored = Scored(guess: string, h: real, expectedRemaining: real)

  /** `const topK = 20` */
  const TopK := 20

  predicate SortedDesc(s: seq<Scored>)
  {
    forall i, j :: 0 <= i < j < |s| ==> s[i].h >= s[j].h
  }

  /**
   * Where a stable sort by descending H puts e when it follows the entries of
   * t: after every entry whose H is at least e's, before the first smaller one.
   */
  function Insert(t: seq<Scored>, e: Scored): (r: seq<Scored>)
    ensures |r| == |t| + 1 && multiset(r) == multiset(t) + multiset{e}
  {
    if |t| == 0 then [e]
    else if t[0].h >= e.h then
      assert t == [t[0]] + t[1..];
      [t[0]] + Insert(t[1..], e)
    else [e] + t
  }

  /** A stable sort by descending H, written as an insertion sort. */
  function StableSortDesc(s: seq<Scored>): (r: seq<Scored>)
    ensures |r| == |s| && multiset(r) == multiset(s)
    ensures SortedDesc(r)
  {
    if |s| == 0 then []
    else
      var init, last := s[..|s| - 1], s[|s| - 1];
      assert s == init + [last];
      InsertSorted(StableSortDesc(init), last);
      Insert(StableSortDesc(init), last)
  }

  /** The first k entries, or all of them when there are fewer. */
  function Take(s: seq<Scored>, k: nat): (r: seq<Scored>)
    ensures |r| == if |s| <= k then |s| else k
    ensures forall i :: 0 <= i < |r| ==> r[i] == s[i]
  {
    if |s| <= k then s else s[..k]
  }

  /** The entries whose H is v, in their order: what a stable sort leaves untouched. */
  function WithKey(s: seq<Scored>, v: real): seq<Scored>
  {
    if |s| == 0 then [] else (if s[0].h == v then [s[0]] else []) + WithKey(s[1..], v)
  }

  lemma {:induction false} InsertSorted(t: seq<Scored>, e: Scored)
    requires SortedDesc(t)
    ensures SortedDesc(Insert(t, e))
  {
    if |t| > 0 && t[0].h >= e.h {
      var rest := t[1..];
      InsertSorted(rest, e);
      var r := Insert(rest, e);
      assert r[0] == e || r[0] == rest[0];
      forall i, j | 0 <= i < j < |r| + 1
        ensures ([t[0]] + r)[i].h >= ([t[0]] + r)[j].h
      {
        if i == 0 {
          assert r[j - 1] in multiset(r);
          assert r[j - 1] in multiset(rest) + multiset{e};
          if r[j - 1] != e {
            assert r[j - 1] in rest;
          }
        }
      }
    }
  }

  /** Inserting an entry no larger than all of t appends it. */
  lemma {:induction false} InsertAtEnd(t: seq<Scored>, e: Scored)
    requires forall k :: 0 <= k < |t| ==> t[k].h >= e.h
    ensures Insert(t, e) == t + [e]
  {
    if |t| > 0 {
      InsertAtEnd(t[1..], e);
      assert [t[0]] + (t[1..] + [e]) == t + [e];
    }
  }

  /** Sorting an already sorted list changes nothing. */
  lemma {:induction false} SortedFixpoint(s: seq<Scored>)
    requires SortedDesc(s)
    ensures StableSortDesc(s) == s
  {
    if |s| > 0 {
      var init, last := s[..|s| - 1], s[|s| - 1];
      SortedFixpoint(init);
      InsertAtEnd(init, last);
      assert init + [last] == s;
    }
  }

  /** Pushing onto a sorted top list and sorting again inserts the new entry. */
  lemma PushThenSort(t: seq<Scored>, e: Scored)
    requires SortedDesc(t)
    ensures StableSortDesc(t + [e]) == Insert(t, e)
  {
    assert (t + [e])[..|t|] == t;
    SortedFixpoint(t);
  }

  /**
   * One round of the top list: pushing e, sorting and popping the entry past
   * topK gives the first topK entries of the sorted scores with e added.
   */
  lemma TopStep(s: seq<Scored>, e: Scored, top: seq<Scored>)
    requires top == Take(StableSortDesc(s), TopK)
    ensures var pushed := StableSortDesc(top + [e]);
            |pushed| <= TopK + 1
            && (if |pushed| > TopK then pushed[..|pushed| - 1] else pushed) == Take(StableSortDesc(s + [e]), TopK)
  {
    var sorted := StableSortDesc(s);
    assert SortedDesc(top);
    PushThenSort(top, e);
    TakeInsert(sorted, e, TopK);
    assert (s + [e])[..|s|] == s;
  }

  lemma TakeCons(s: seq<Scored>, k: nat)
    requires |s| > 0 && k > 0
    ensures Take(s, k) == [s[0]] + Take(s[1..], k - 1)
  {
    if |s| > k {
      assert s[..k] == [s[0]] + s[1..][..k - 1];
    }
  }

  /**
   * Cutting to k before inserting and cutting again after it gives the same
   * list as inserting into the uncut one: the discarded tail never matters.
   */
  lemma {:induction false} TakeInsert(s: seq<Scored>, e: Scored, k: nat)
    ensures Take(Insert(Take(s, k), e), k) == Take(Insert(s, e), k)
  {
    if k > 0 && |s| > 0 {
      TakeCons(s, k);
      if s[0].h >= e.h {
        TakeInsert(s[1..], e, k - 1);
        TakeInsertBehind(s, e, k);
      } else {
        TakeInsertAhead(s, e, k);
      }
    }
  }

  /** The step of TakeInsert where the first entry stays ahead of e. */
  lemma TakeInsertBehind(s: seq<Scored>, e: Scored, k: nat)
    requires k > 0 && |s| > 0 && s[0].h >= e.h
    requires Take(s, k) == [s[0]] + Take(s[1..], k - 1)
    requires Take(Insert(Take(s[1..], k - 1), e), k - 1) == Take(Insert(s[1..], e), k - 1)
    ensures Take(Insert(Take(s, k), e), k) == Take(Insert(s, e), k)
  {
    var c := Take(s[1..], k - 1);
    var inserted := Insert(c, e);
    assert Insert(Take(s, k), e) == [s[0]] + inserted;
    TakeCons([s[0]] + inserted, k);
    assert ([s[0]] + inserted)[1..] == inserted;
    TakeCons(Insert(s, e), k);
  }

  /** The step of TakeInsert where e goes in front. */
  lemma TakeInsertAhead(s: seq<Scored>, e: Scored, k: nat)
    requires k > 0 && |s| > 0 && s[0].h < e.h
    requires Take(s, k) == [s[0]] + Take(s[1..], k - 1)
    ensures Take(Insert(Take(s, k), e), k) == Take(Insert(s, e), k)
  {
    var c := Take(s, k);
    assert Insert(c, e) == [e] + c;
    TakeCons([e] + c, k);
    TakeCons([e] + s, k);
    assert ([e] + c)[1..] == c;
    assert ([e] + s)[1..] == s;
    if |s| > k - 1 {
      assert Take(c, k - 1) == Take(s, k - 1);
    }
  }

  lemma {:induction false} WithKeyAppend(a: seq<Scored>, b: seq<Scored>, v: real)
    ensures WithKey(a + b, v) == WithKey(a, v) + WithKey(b, v)
  {
    if |a| > 0 {
      WithKeyAppend(a[1..], b, v);
      assert (a + b)[1..] == a[1..] + b;
    } else {
      assert a + b == b;
    }
  }

  lemma {:induction false} InsertStable(t: seq<Scored>, e: Scored, v: real)
    requires SortedDesc(t)
    ensures WithKey(Insert(t, e), v) == WithKey(t, v) + WithKey([e], v)
  {
    if |t| == 0 {
      assert [e] + [] == [e];
    } else if t[0].h >= e.h {
      InsertStable(t[1..], e, v);
      assert Insert(t, e) == [t[0]] + Insert(t[1..], e);
      InsertStableBehind(t, Insert(t[1..], e), e, v);
    } else {
      assert Insert(t, e) == [e] + t;
      InsertStableAhead(t, e, v);
    }
  }

  /** The step of InsertStable where the head of t stays ahead of e. */
  lemma InsertStableBehind(t: seq<Scored>, inserted: seq<Scored>, e: Scored, v: real)
    requires |t| > 0
    requires WithKey(inserted, v) == WithKey(t[1..], v) + WithKey([e], v)
    ensures WithKey([t[0]] + inserted, v) == WithKey(t, v) + WithKey([e], v)
  {
    var r := [t[0]] + inserted;
    var first := if t[0].h == v then [t[0]] else [];
    var tail, added := WithKey(t[1..], v), WithKey([e], v);
    assert r[0] == t[0] && r[1..] == inserted;
    assert first + (tail + added) == (first + tail) + added;
  }

  /** The step of InsertStable where e goes in front of a sorted t whose head is smaller. */
  lemma InsertStableAhead(t: seq<Scored>, e: Scored, v: real)
    requires SortedDesc(t) && |t| > 0 && t[0].h < e.h
    ensures WithKey([e] + t, v) == WithKey(t, v) + WithKey([e], v)
  {
    WithKeyAppend([e], t, v);
    assert WithKey([e], v) == if e.h == v then [e] else [] by {
      assert [e][1..] == [];
    }
    if e.h == v {
      BelowKey(t, v);
    }
  }

  lemma {:induction false} BelowKey(t: seq<Scored>, v: real)
    requires forall k :: 0 <= k < |t| ==> t[k].h < v
    ensures WithKey(t, v) == []
  {
    if |t| > 0 {
      BelowKey(t[1..], v);
    }
  }

  /** The sort is stable: entries of equal H keep their relative order. */
  lemma {:induction false} StableSortDescStable(s: seq<Scored>, v: real)
    ensures WithKey(StableSortDesc(s), v) == WithKey(s, v)
  {
    if |s| > 0 {
      var init, last := s[..|s| - 1], s[|s| - 1];
      StableSortDescStable(init, v);
      InsertStable(StableSortDesc(init), last, v);
      WithKeyAppend(init, [last], v);
      assert init + [last] == s;
    }
  }

  /**
   * The first k entries of the sorted list are a largest k: every scored
   * entry left out has H no greater than any entry kept.
   */
  lemma KeepsLargest(s: seq<Scored>, k: nat, a: Scored, b: Scored)
    requires a in Take(StableSortDesc(s), k)
    requires b in multiset(s) - multiset(Take(StableSortDesc(s), k))
    ensures a.h >= b.h
  {
    var sorted := StableSortDesc(s);
    var top := Take(sorted, k);
    RestAfterTake(sorted, k);
    assert top == sorted[..|top|];
    SplitDominates(sorted, |top|, a, b);
  }

  /** In a sorted list, every entry before a cut is at least every entry after it. */
  lemma SplitDominates(sorted: seq<Scored>, n: nat, a: Scored, b: Scored)
    requires SortedDesc(sorted) && n <= |sorted|
    requires a in sorted[..n] && b in multiset(sorted[n..])
    ensures a.h >= b.h
  {
    var i :| 0 <= i < n && sorted[..n][i] == a;
    var j :| 0 <= j < |sorted| - n && sorted[n..][j] == b;
    assert sorted[i] == a && sorted[n + j] == b;
  }

  /** What the cut leaves out, as a multiset, is the tail after the kept entries. */
  lemma RestAfterTake(s: seq<Scored>, k: nat)
    ensures multiset(s) - multiset(Take(s, k)) == multiset(s[|Take(s, k)|..])
  {
    var top := Take(s, k);
    assert s == top + s[|top|..];
    assert multiset(s) == multiset(top) + multiset(s[|top|..]);
  }

  /** The running best: no entry yet, or the entry that last raised the key. */
  datatype Best = Unset | Found(entry: Scored)

  /** `best.H`, where `{ guess: "", H: -1, expectedRemaining: Infinity }` is the unset best. */
  function BestKey(b: Best): real
  {
    if b.Unset? then -1.0 else b.entry.h
  }

  /** `if (H > best.H) best = { guess: g, H, expectedRemaining }` over the entries in order. */
  function BestOf(s: seq<Scored>): (b: Best)
    ensures b.Found? ==> b.entry in s && b.entry.h > -1.0
    ensures forall k :: 0 <= k < |s| ==> s[k].h <= BestKey(b)
  {
    if |s| == 0 then Unset
    else
      var b := BestOf(s[..|s| - 1]);
      if s[|s| - 1].h > BestKey(b) then Found(s[|s| - 1]) else b
  }

  /** The prefix through position i is the prefix before it with entry i appended. */
  lemma PrefixSnoc(s: seq<Scored>, i: nat)
    requires i < |s|
    ensures s[..i + 1] == s[..i] + [s[i]]
  {
  }

  /** One more entry replaces the best only when its H is strictly greater. */
  lemma BestStep(s: seq<Scored>, e: Scored)
    ensures BestOf(s + [e]) == if e.h > BestKey(BestOf(s)) then Found(e) else BestOf(s)
  {
    assert (s + [e])[..|s|] == s;
  }

  /** The best is unset exactly when no entry has H above -1. */
  lemma UnsetIff(s: seq<Scored>)
    ensures BestOf(s).Unset? <==> forall k :: 0 <= k < |s| ==> s[k].h <= -1.0
  {
  }

  /** The best is the earliest entry reaching the largest H. */
  lemma {:induction false} BestIsFirst(s: seq<Scored>)
    requires BestOf(s).Found?
    ensures exists i :: 0 <= i < |s| && s[i] == BestOf(s).entry
                        && forall j :: 0 <= j < i ==> s[j].h < s[i].h
  {
    var init, last := s[..|s| - 1], s[|s| - 1];
    var b := BestOf(init);
    if last.h > BestKey(b) {
      assert forall j :: 0 <= j < |s| - 1 ==> s[j] == init[j];
    } else {
      BestIsFirst(init);
      var i :| 0 <= i < |init| && init[i] == b.entry && forall j :: 0 <= j < i ==> init[j].h < init[i].h;
      assert s[i] == init[i];
    }
  }

  /** When a best was found, it is exactly the head of the sorted list. */
  lemma {:induction false} BestHeadsSorted(s: seq<Scored>)
    requires BestOf(s).Found?
    ensures StableSortDesc(s)[0] == BestOf(s).entry
  {
    var init, last := s[..|s| - 1], s[|s| - 1];
    var b := BestOf(init);
    var sortedInit := StableSortDesc(init);
    if |sortedInit| > 0 {
      assert sortedInit[0] in multiset(init);
      var j :| 0 <= j < |init| && init[j] == sortedInit[0];
    }
    if last.h > BestKey(b) {
      if |sortedInit| > 0 && sortedInit[0].h >= last.h {
        assert false;
      }
    } else {
      BestHeadsSorted(init);
    }
  }
}
