/**
 The leaderboard: when the game over screen hands it a finished game, the
 board appends a new entry, sorts all entries by score from highest to lowest
 (a stable sort, so entries with equal scores keep their order and the new one
 comes last among them) and keeps the first ten.
 */
module Scoreboard {
  import opened Wrappers

  /** A leaderboard row; `date` is the locale-formatted day, kept as an opaque string. */
  datatype ScoreEntry = ScoreEntry(score: int, date: string, streak: int, flagsAnswered: int)

  /** The board keeps at most this many entries. */
  const MaxEntries := 10

  /** Scores never increase from one entry to a later one. */
  predicate Descending(s: seq<ScoreEntry>) {
    forall i, j :: 0 <= i < j < |s| ==> s[i].score >= s[j].score
  }

  /** The entries of `s` whose score is `v`, in their order in `s`. */
  function WithScore(s: seq<ScoreEntry>, v: int): seq<ScoreEntry>
    decreases |s|
  {
    if s == [] then []
    else (if s[0].score == v then [s[0]] else []) + WithScore(s[1..], v)
  }

  /** `e` placed after every entry of `sorted` whose score is at least its own. */
  function InsertByScore(sorted: seq<ScoreEntry>, e: ScoreEntry): seq<ScoreEntry>
    decreases |sorted|
  {
    if sorted == [] then [e]
    else if sorted[0].score >= e.score then [sorted[0]] + InsertByScore(sorted[1..], e)
    else [e] + sorted
  }

  /**
   `Array.prototype.sort` with the comparator `(a, b) => b.score - a.score`:
   a stable sort by descending score (section 23.1.3.30 of ECMA-262, 2023
   edition, requires the sort to be stable), written as an insertion sort that
   inserts each entry after those before it with a score at least its own.
   */
  function SortByScore(s: seq<ScoreEntry>): seq<ScoreEntry>
    decreases |s|
  {
    if s == [] then []
    else InsertByScore(SortByScore(s[..|s| - 1]), s[|s| - 1])
  }

  /** `.slice(0, 10)`. */
  function Truncate(s: seq<ScoreEntry>): (r: seq<ScoreEntry>)
    ensures |r| == if |s| < MaxEntries then |s| else MaxEntries
    ensures r <= s
  {
    if |s| <= MaxEntries then s else s[..MaxEntries]
  }

  // ---------------------------------------------------------------------------
  // Filtering by score
  // ---------------------------------------------------------------------------

  lemma {:induction false} WithScoreAppend(a: seq<ScoreEntry>, b: seq<ScoreEntry>, v: int)
    ensures WithScore(a + b, v) == WithScore(a, v) + WithScore(b, v)
    decreases |a|
  {
    if a == [] {
      assert a + b == b;
    } else {
      assert (a + b)[1..] == a[1..] + b;
      WithScoreAppend(a[1..], b, v);
    }
  }

  lemma WithScoreSingle(e: ScoreEntry, v: int)
    ensures WithScore([e], v) == if e.score == v then [e] else []
  {
    assert [e][1..] == [];
  }

  lemma {:induction false} WithScoreMembers(s: seq<ScoreEntry>, v: int, x: ScoreEntry)
    requires x in WithScore(s, v)
    ensures x in s && x.score == v
    decreases |s|
  {
    if s[0] != x || s[0].score != v {
      WithScoreMembers(s[1..], v, x);
    }
  }

  lemma WithScoreOfHead(s: seq<ScoreEntry>)
    ensures s != [] ==> WithScore(s, s[0].score) != []
  {
  }

  /** A descending sequence that starts below `v` has no entry with score `v`. */
  lemma {:induction false} WithScoreAbove(s: seq<ScoreEntry>, v: int)
    requires Descending(s) && s != [] && s[0].score < v
    ensures WithScore(s, v) == []
    decreases |s|
  {
    if |s| > 1 {
      WithScoreAbove(s[1..], v);
    }
  }

  // ---------------------------------------------------------------------------
  // Insertion
  // ---------------------------------------------------------------------------

  /** Inserting adds exactly `e`, and keeps a descending board descending. */
  lemma {:induction false} InsertByScoreKeeps(t: seq<ScoreEntry>, e: ScoreEntry)
    ensures multiset(InsertByScore(t, e)) == multiset(t) + multiset{e}
    ensures |InsertByScore(t, e)| == |t| + 1
    ensures Descending(t) ==> Descending(InsertByScore(t, e))
    decreases |t|
  {
    if t != [] && t[0].score >= e.score {
      var rest := InsertByScore(t[1..], e);
      InsertByScoreKeeps(t[1..], e);
      assert t == [t[0]] + t[1..];
      if Descending(t) {
        forall x | x in rest ensures t[0].score >= x.score {
          assert x in multiset(rest);
        }
        assert InsertByScore(t, e) == [t[0]] + rest;
      }
    }
  }

  /** Into a descending board, `e` goes after every entry with its score: the ties' order is kept. */
  lemma {:induction false} InsertByScoreStable(t: seq<ScoreEntry>, e: ScoreEntry, v: int)
    requires Descending(t)
    ensures WithScore(InsertByScore(t, e), v) == WithScore(t, v) + WithScore([e], v)
    decreases |t|
  {
    WithScoreSingle(e, v);
    if t == [] {
    } else if t[0].score >= e.score {
      InsertByScoreStable(t[1..], e, v);
      assert InsertByScore(t, e)[1..] == InsertByScore(t[1..], e);
    } else {
      var r := [e] + t;
      assert r[1..] == t;
      if e.score == v {
        WithScoreAbove(t, v);
      }
    }
  }

  /** Inserting below every entry appends. */
  lemma {:induction false} InsertByScoreAtEnd(t: seq<ScoreEntry>, e: ScoreEntry)
    requires forall i :: 0 <= i < |t| ==> t[i].score >= e.score
    ensures InsertByScore(t, e) == t + [e]
    decreases |t|
  {
    if t != [] {
      InsertByScoreAtEnd(t[1..], e);
      assert t == [t[0]] + t[1..];
    }
  }

  // ---------------------------------------------------------------------------
  // Sorting
  // ---------------------------------------------------------------------------

  /**
   The sort returns a descending permutation of its input in which the entries
   of each score appear in their input order.
   */
  lemma {:induction false} SortByScoreCorrect(s: seq<ScoreEntry>)
    ensures |SortByScore(s)| == |s|
    ensures multiset(SortByScore(s)) == multiset(s)
    ensures Descending(SortByScore(s))
    ensures forall v :: WithScore(SortByScore(s), v) == WithScore(s, v)
    decreases |s|
  {
    if s != [] {
      var init, last := s[..|s| - 1], s[|s| - 1];
      assert s == init + [last];
      SortByScoreCorrect(init);
      InsertByScoreKeeps(SortByScore(init), last);
      forall v ensures WithScore(SortByScore(s), v) == WithScore(s, v) {
        InsertByScoreStable(SortByScore(init), last, v);
        WithScoreAppend(init, [last], v);
      }
    }
  }

  /** A board that is already descending is left as it is by the sort. */
  lemma {:induction false} SortByScoreOfDescending(s: seq<ScoreEntry>)
    requires Descending(s)
    ensures SortByScore(s) == s
    decreases |s|
  {
    if s != [] {
      var init, last := s[..|s| - 1], s[|s| - 1];
      assert s == init + [last];
      SortByScoreOfDescending(init);
      InsertByScoreAtEnd(init, last);
    }
  }

  /**
   Two descending boards with the same entries of every score, in the same
   order, are equal: a stable descending sort has only one possible result.
   */
  lemma {:induction false} SameTiesSameBoard(t1: seq<ScoreEntry>, t2: seq<ScoreEntry>)
    requires Descending(t1) && Descending(t2)
    requires forall v :: WithScore(t1, v) == WithScore(t2, v)
    ensures t1 == t2
    decreases |t1|
  {
    if t1 == [] || t2 == [] {
      WithScoreOfHead(t1);
      WithScoreOfHead(t2);
    } else {
      var a, b := t1[0], t2[0];
      assert a in WithScore(t2, a.score) by {
        assert WithScore(t1, a.score)[0] == a;
      }
      WithScoreMembers(t2, a.score, a);
      assert b in WithScore(t1, b.score) by {
        assert WithScore(t2, b.score)[0] == b;
      }
      WithScoreMembers(t1, b.score, b);
      assert a.score == b.score;
      assert a == b by {
        assert WithScore(t1, a.score)[0] == a;
        assert WithScore(t2, a.score)[0] == b;
      }
      forall v ensures WithScore(t1[1..], v) == WithScore(t2[1..], v) {
        var head := if a.score == v then [a] else [];
        assert WithScore(t1, v) == head + WithScore(t1[1..], v);
        assert WithScore(t2, v) == head + WithScore(t2[1..], v);
        assert WithScore(t1, v) == WithScore(t2, v);
        assert (head + WithScore(t1[1..], v))[|head|..] == WithScore(t1[1..], v);
        assert (head + WithScore(t2[1..], v))[|head|..] == WithScore(t2[1..], v);
      }
      SameTiesSameBoard(t1[1..], t2[1..]);
    }
  }

  /**
   Any stable descending sort of `s` gives exactly `SortByScore(s)`: the model
   does not depend on which stable algorithm the JavaScript engine uses.
   */
  lemma StableSortIsUnique(s: seq<ScoreEntry>, t: seq<ScoreEntry>)
    requires Descending(t)
    requires forall v :: WithScore(t, v) == WithScore(s, v)
    ensures t == SortByScore(s)
  {
    SortByScoreCorrect(s);
    SameTiesSameBoard(t, SortByScore(s));
  }

  // ---------------------------------------------------------------------------
  // The top-10 insert
  // ---------------------------------------------------------------------------

  /** `[...scores, newEntry].sort((a, b) => b.score - a.score).slice(0, 10)`. */
  function AddScore(scores: seq<ScoreEntry>, newEntry: ScoreEntry): seq<ScoreEntry> {
    Truncate(SortByScore(scores + [newEntry]))
  }

  /**
   Adding a score gives min(|scores| + 1, 10) entries, in descending score
   order, all taken unaltered from the old board and the new entry; entries of
   equal score keep their order, the new entry after the old ones; nothing is
   dropped from a board of fewer than ten, and any entry that is dropped
   scores no higher than every entry kept.
   */
  lemma AddScoreProperties(scores: seq<ScoreEntry>, newEntry: ScoreEntry)
    ensures var r := AddScore(scores, newEntry);
      |r| == if |scores| + 1 < MaxEntries then |scores| + 1 else MaxEntries
    ensures Descending(AddScore(scores, newEntry))
    ensures multiset(AddScore(scores, newEntry)) <= multiset(scores + [newEntry])
    ensures forall v :: WithScore(AddScore(scores, newEntry), v) <= WithScore(scores, v) + WithScore([newEntry], v)
    ensures |scores| < MaxEntries ==> multiset(AddScore(scores, newEntry)) == multiset(scores + [newEntry])
    ensures forall x, y ::
      (x in multiset(scores + [newEntry]) - multiset(AddScore(scores, newEntry)) && y in AddScore(scores, newEntry))
      ==> x.score <= y.score
  {
    var all := scores + [newEntry];
    var sorted := SortByScore(all);
    SortByScoreCorrect(all);
    TruncateKeepsOrder(sorted);
    TruncateKeepsTies(sorted);
    TruncateDropsLowest(sorted);
    forall v ensures WithScore(all, v) == WithScore(scores, v) + WithScore([newEntry], v) {
      WithScoreAppend(scores, [newEntry], v);
    }
  }

  lemma TruncateKeepsOrder(sorted: seq<ScoreEntry>)
    requires Descending(sorted)
    ensures Descending(Truncate(sorted))
    ensures multiset(Truncate(sorted)) <= multiset(sorted)
    ensures |sorted| <= MaxEntries ==> Truncate(sorted) == sorted
  {
    var kept := Truncate(sorted);
    assert sorted == kept + sorted[|kept|..];
  }

  lemma TruncateKeepsTies(sorted: seq<ScoreEntry>)
    ensures forall v :: WithScore(Truncate(sorted), v) <= WithScore(sorted, v)
  {
    var kept := Truncate(sorted);
    var dropped := sorted[|kept|..];
    assert sorted == kept + dropped;
    forall v ensures WithScore(kept, v) <= WithScore(sorted, v) {
      WithScoreAppend(kept, dropped, v);
    }
  }

  lemma TruncateDropsLowest(sorted: seq<ScoreEntry>)
    requires Descending(sorted)
    ensures forall x, y :: x in multiset(sorted) - multiset(Truncate(sorted)) && y in Truncate(sorted) ==>
      x.score <= y.score
  {
    var kept := Truncate(sorted);
    var dropped := sorted[|kept|..];
    assert sorted == kept + dropped;
    assert multiset(sorted) == multiset(kept) + multiset(dropped);
    forall x, y | x in multiset(sorted) - multiset(kept) && y in kept ensures x.score <= y.score {
      assert x in multiset(dropped);
      var j :| 0 <= j < |dropped| && dropped[j] == x;
      var i :| 0 <= i < |kept| && kept[i] == y;
      assert sorted[|kept| + j] == x && sorted[i] == y;
    }
  }

  /**
   On a board that is already in order, adding a score is an ordinary insert:
   the new entry goes after every entry whose score is at least its own, then
   the board is cut to ten.
   */
  lemma AddScoreToSortedBoard(scores: seq<ScoreEntry>, newEntry: ScoreEntry)
    requires Descending(scores)
    ensures AddScore(scores, newEntry) == Truncate(InsertByScore(scores, newEntry))
  {
    var all := scores + [newEntry];
    assert all[..|all| - 1] == scores;
    SortByScoreOfDescending(scores);
  }

  // ---------------------------------------------------------------------------
  // The effect that records a finished game
  // ---------------------------------------------------------------------------

  /**
   The entry the board builds from its props: none unless the score, streak
   and flag count are all defined and a callback is supplied; otherwise those
   three values copied unchanged, with the day it was recorded.
   */
  function NewEntry(currentScore: Option<int>, currentStreak: Option<int>, currentFlags: Option<int>,
                    hasOnNewScore: bool, date: string): (r: Option<ScoreEntry>)
    ensures r.Some? <==> currentScore.Some? && currentStreak.Some? && currentFlags.Some? && hasOnNewScore
    ensures r.Some? ==>
      && r.value.score == currentScore.value
      && r.value.streak == currentStreak.value
      && r.value.flagsAnswered == currentFlags.value
      && r.value.date == date
  {
    if currentScore.Some? && currentStreak.Some? && currentFlags.Some? && hasOnNewScore then
      Some(ScoreEntry(currentScore.value, date, currentStreak.value, currentFlags.value))
    else None
  }

  /** The board after the recording effect has run once with the given props. */
  function RecordScore(scores: seq<ScoreEntry>, currentScore: Option<int>, currentStreak: Option<int>,
                       currentFlags: Option<int>, hasOnNewScore: bool, date: string): (r: seq<ScoreEntry>)
    ensures NewEntry(currentScore, currentStreak, currentFlags, hasOnNewScore, date).None? ==> r == scores
    ensures currentScore.Some? && currentStreak.Some? && currentFlags.Some? && hasOnNewScore ==>
      r == AddScore(scores, ScoreEntry(currentScore.value, date, currentStreak.value, currentFlags.value))
  {
    match NewEntry(currentScore, currentStreak, currentFlags, hasOnNewScore, date)
    case None => scores
    case Some(e) => AddScore(scores, e)
  }

  /** The worked example: scores 50, 90, 30, 90 added to an empty board read 90, 90, 50, 30, the first 90 first. */
  lemma FourScoresExample(a: ScoreEntry, b: ScoreEntry, c: ScoreEntry, d: ScoreEntry)
    requires a.score == 50 && b.score == 90 && c.score == 30 && d.score == 90
    ensures AddScore(AddScore(AddScore(AddScore([], a), b), c), d) == [b, d, a, c]
  {
    var s1 := AddScore([], a);
    assert s1 == [a] by {
      AddScoreToSortedBoard([], a);
    }
    var s2 := AddScore(s1, b);
    assert s2 == [b, a] by {
      AddScoreToSortedBoard(s1, b);
      assert InsertByScore([a], b) == [b, a];
    }
    var s3 := AddScore(s2, c);
    assert s3 == [b, a, c] by {
      AddScoreToSortedBoard(s2, c);
      InsertByScoreAtEnd(s2, c);
    }
    AddScoreToSortedBoard(s3, d);
    assert InsertByScore(s3, d) == [b, d, a, c] by {
      assert s3[1..] == [a, c];
      assert InsertByScore([a, c], d) == [d, a, c];
    }
  }
}
