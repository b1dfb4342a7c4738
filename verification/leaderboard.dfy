/**
  The high-score list kept by `save_high_score`: append the new score,
  order the list by score from highest to lowest, keep the best ten.
 */
module Leaderboard {

  /** One saved score and the date and time it was recorded. */
  datatype Entry = Entry(score: int, date: string)

  /** The number of entries the list keeps. */
  const Capacity: nat := 10

  predicate SortedDesc(s: seq<Entry>)
  {
    forall i, j :: 0 <= i < j < |s| ==> s[i].score >= s[j].score
  }

  function Min(a: int, b: int): int
  {
    if a <= b then a else b
  }

  /**
    Inserts x into a list ordered by descending score, after every entry
    scoring at least as much, so that x, coming last, follows its equals.
   */
  function Insert(s: seq<Entry>, x: Entry): (r: seq<Entry>)
    requires SortedDesc(s)
    ensures SortedDesc(r)
    ensures multiset(r) == multiset(s) + multiset{x}
  {
    if |s| == 0 then [x]
    else if s[|s| - 1].score >= x.score then s + [x]
    else
      var front, last := s[..|s| - 1], s[|s| - 1];
      var r' := Insert(front, x);
      InsertLast(s, x, r');
      r' + [last]
  }

  /** Appending the last entry of s after r' keeps the order, when r' is the rest of s with x, and x beats that entry. */
  lemma InsertLast(s: seq<Entry>, x: Entry, r': seq<Entry>)
    requires SortedDesc(s) && |s| > 0 && s[|s| - 1].score < x.score
    requires SortedDesc(r') && multiset(r') == multiset(s[..|s| - 1]) + multiset{x}
    ensures SortedDesc(r' + [s[|s| - 1]])
    ensures multiset(r' + [s[|s| - 1]]) == multiset(s) + multiset{x}
  {
    var front, last := s[..|s| - 1], s[|s| - 1];
    assert s == front + [last];
    forall i | 0 <= i < |r'| ensures r'[i].score >= last.score {
      assert r'[i] in multiset(r');
      if r'[i] != x {
        assert r'[i] in multiset(front);
        var j :| 0 <= j < |front| && front[j] == r'[i];
        assert s[j] == r'[i];
      }
    }
  }

  /** Insertion sort by descending score (the order of `sorted(..., reverse=True)`). */
  function SortDesc(s: seq<Entry>): (r: seq<Entry>)
    ensures SortedDesc(r)
    ensures multiset(r) == multiset(s)
  {
    if |s| == 0 then []
    else
      assert s == s[..|s| - 1] + [s[|s| - 1]];
      Insert(SortDesc(s[..|s| - 1]), s[|s| - 1])
  }

  /**
    The list logic of save_high_score. The result is ordered, holds
    min(n + 1, 10) entries drawn from the old list and the new one, keeps
    everything when there was room, and every entry that was dropped
    scores no more than every entry that was kept.
   */
  function SaveHighScore(board: seq<Entry>, score: int, date: string): (r: seq<Entry>)
    ensures SortedDesc(r)
    ensures |r| == Min(|board| + 1, Capacity)
    ensures multiset(r) <= multiset(board) + multiset{Entry(score, date)}
    ensures forall e :: e in r ==> e in board || e == Entry(score, date)
    ensures |board| < Capacity ==> multiset(r) == multiset(board) + multiset{Entry(score, date)}
    ensures forall e, i :: e in multiset(board) + multiset{Entry(score, date)} - multiset(r) && 0 <= i < |r|
              ==> e.score <= r[i].score
  {
    var sorted := SortDesc(board + [Entry(score, date)]);
    assert |sorted| == |board| + 1 by {
      assert |multiset(sorted)| == |multiset(board + [Entry(score, date)])|;
    }
    var k := Min(|sorted|, Capacity);
    KeepBest(sorted, k);
    Provenance(board, Entry(score, date), sorted, k);
    sorted[..k]
  }

  /** The entries kept from the sorted list all come from the old list or are the new entry; with room, nothing is dropped. */
  lemma Provenance(board: seq<Entry>, x: Entry, sorted: seq<Entry>, k: nat)
    requires multiset(sorted) == multiset(board + [x])
    requires k == Min(|sorted|, Capacity)
    ensures forall e :: e in sorted[..k] ==> e in board || e == x
    ensures |board| < Capacity ==> multiset(sorted[..k]) == multiset(board) + multiset{x}
  {
    var all := board + [x];
    assert |sorted| == |all| by {
      assert |multiset(sorted)| == |multiset(all)|;
    }
    assert sorted == sorted[..k] + sorted[k..];
    forall e | e in sorted[..k] ensures e in board || e == x {
      assert e in multiset(sorted);
      assert e in all;
    }
    if |board| < Capacity {
      assert sorted[..k] == sorted;
    }
  }

  /** The first k entries of an ordered list are ordered, and none of the rest scores above any of them. */
  lemma KeepBest(s: seq<Entry>, k: nat)
    requires SortedDesc(s) && k <= |s|
    ensures SortedDesc(s[..k])
    ensures multiset(s[..k]) <= multiset(s)
    ensures forall e, i :: e in multiset(s) - multiset(s[..k]) && 0 <= i < k ==> e.score <= s[..k][i].score
  {
    var r := s[..k];
    assert s == r + s[k..];
    assert multiset(s) == multiset(r) + multiset(s[k..]);
    forall e, i | e in multiset(s) - multiset(r) && 0 <= i < k ensures e.score <= r[i].score {
      assert e in multiset(s[k..]);
      var j :| 0 <= j < |s[k..]| && s[k..][j] == e;
      assert s[k + j] == e;
    }
  }

  /** Saving each of the entries es in turn, oldest first. */
  function SaveAll(board: seq<Entry>, es: seq<Entry>): seq<Entry>
  {
    if |es| == 0 then board
    else
      var last := es[|es| - 1];
      SaveHighScore(SaveAll(board, es[..|es| - 1]), last.score, last.date)
  }

  /** After at least one save, the list is ordered and holds min(n + k, 10) entries; eleven saves on an empty list leave ten. */
  lemma {:induction false} SaveAllShape(board: seq<Entry>, es: seq<Entry>)
    requires |es| > 0
    ensures SortedDesc(SaveAll(board, es))
    ensures |SaveAll(board, es)| == Min(|board| + |es|, Capacity)
  {
    if |es| > 1 {
      SaveAllShape(board, es[..|es| - 1]);
    }
  }
}
