/**
 The leaderboard list and the pure pipeline the page runs when an entry is
 added: append, stable sort by score descending, then number the ranks
 1..n by position. Also the three statistics shown under the table.
 */
module Ranking {

  /** One row of the board. `id` comes from the clock in the page and is
      carried along untouched. */
  datatype Entry = Entry(id: int, name: string, score: int, rank: int)

  /** Scores never increase along the list. */
  predicate Sorted(s: seq<Entry>)
  {
    forall i, j :: 0 <= i < j < |s| ==> s[i].score >= s[j].score
  }

  /** The entry at position i has rank i + 1. */
  predicate Ranked(s: seq<Entry>)
  {
    forall i :: 0 <= i < |s| ==> s[i].rank == i + 1
  }

  /** An entry with its rank erased: what the sort moves around and what
      must survive renumbering. */
  function Unrank(e: Entry): Entry
  {
    e.(rank := 0)
  }

  function Unranked(s: seq<Entry>): seq<Entry>
  {
    seq(|s|, i requires 0 <= i < |s| => Unrank(s[i]))
  }

  /** The entries of s whose score is k, in list order. Two lists have the
      same order among ties exactly when these agree for every k. */
  function WithScore(s: seq<Entry>, k: int): seq<Entry>
  {
    if s == [] then []
    else (if s[0].score == k then [s[0]] else []) + WithScore(s[1..], k)
  }

  /** Number of leading entries of s whose score is at least v: where a new
      entry of score v goes in a sorted list, after all its ties. */
  function InsertionPoint(s: seq<Entry>, v: int): (p: nat)
    ensures p <= |s|
    ensures forall i :: 0 <= i < p ==> s[i].score >= v
    ensures p < |s| ==> s[p].score < v
  {
    if s != [] && s[0].score >= v then 1 + InsertionPoint(s[1..], v) else 0
  }

  /** Puts e into t after the leading entries that score at least as high. */
  function InsertDesc(t: seq<Entry>, e: Entry): seq<Entry>
  {
    if t == [] then [e]
    else if t[0].score >= e.score then [t[0]] + InsertDesc(t[1..], e)
    else [e] + t
  }

  /** Stable sort by score, highest first: what
      `sort((a, b) => b.score - a.score)` produces. Insertion of each element
      in turn; the result does not depend on that choice (StableSortUnique). */
  function SortDesc(s: seq<Entry>): seq<Entry>
  {
    if s == [] then [] else InsertDesc(SortDesc(s[..|s| - 1]), s[|s| - 1])
  }

  /** Renumbers the ranks by position and changes nothing else. */
  function Rerank(s: seq<Entry>): (r: seq<Entry>)
    ensures Ranked(r)
    ensures Unranked(r) == Unranked(s)
  {
    seq(|s|, i requires 0 <= i < |s| => s[i].(rank := i + 1))
  }

  /** The list stored after a successful add of e to `board`. */
  function Accept(board: seq<Entry>, e: Entry): seq<Entry>
  {
    Rerank(SortDesc(board + [e]))
  }

  // ---------------------------------------------------------------------
  // Facts about the sort

  /** Inserting puts e at its insertion point and shifts the rest. */
  lemma {:induction false} InsertDescSplit(t: seq<Entry>, e: Entry)
    ensures InsertionPoint(t, e.score) <= |t|
    ensures InsertDesc(t, e) == t[..InsertionPoint(t, e.score)] + [e] + t[InsertionPoint(t, e.score)..]
  {
    if t != [] && t[0].score >= e.score {
      InsertDescSplit(t[1..], e);
      var p := InsertionPoint(t[1..], e.score);
      assert t[1..][..p] == t[1..p + 1];
      assert t[1..][p..] == t[p + 1..];
      assert [t[0]] + t[1..p + 1] == t[..p + 1];
    }
  }

  lemma {:induction false} WithScoreAppend(a: seq<Entry>, b: seq<Entry>, k: int)
    ensures WithScore(a + b, k) == WithScore(a, k) + WithScore(b, k)
  {
    if a != [] {
      assert (a + b)[1..] == a[1..] + b;
      WithScoreAppend(a[1..], b, k);
    } else {
      assert a + b == b;
    }
  }

  /** e lands at the insertion point, so the list stays sorted. */
  lemma InsertDescSorted(t: seq<Entry>, e: Entry)
    requires Sorted(t)
    ensures Sorted(InsertDesc(t, e))
  {
    InsertDescSplit(t, e);
    var p := InsertionPoint(t, e.score);
    var r := InsertDesc(t, e);
    forall i, j | 0 <= i < j < |r| ensures r[i].score >= r[j].score {
      InsertedAt(t, e, i);
      InsertedAt(t, e, j);
      if i < p && j > p {
        assert t[i].score >= t[j - 1].score;
      } else if i == p && j > p {
        assert t[p].score >= t[j - 1].score;
      } else if i > p {
        assert t[i - 1].score >= t[j - 1].score;
      }
    }
  }

  /** Where each element of an insertion comes from. */
  lemma InsertedAt(t: seq<Entry>, e: Entry, i: int)
    requires 0 <= i <= |t|
    ensures InsertionPoint(t, e.score) <= |t|
    ensures |InsertDesc(t, e)| == |t| + 1
    ensures InsertDesc(t, e)[i]
         == if i < InsertionPoint(t, e.score) then t[i]
            else if i == InsertionPoint(t, e.score) then e
            else t[i - 1]
  {
    InsertDescSplit(t, e);
  }

  lemma InsertDescPerm(t: seq<Entry>, e: Entry)
    ensures multiset(InsertDesc(t, e)) == multiset(t) + multiset{e}
  {
    InsertDescSplit(t, e);
    var p := InsertionPoint(t, e.score);
    var a, b := t[..p], t[p..];
    assert t == a + b;
    calc {
      multiset(InsertDesc(t, e));
      multiset(a + [e] + b);
      multiset(a) + multiset{e} + multiset(b);
      multiset(a + b) + multiset{e};
    }
  }

  /** The sort's result is ordered, and a permutation of its input. */
  lemma SortDescSorted(s: seq<Entry>)
    ensures Sorted(SortDesc(s))
    ensures multiset(SortDesc(s)) == multiset(s)
  {
    SortDescOrdered(s);
    SortDescPerm(s);
  }

  lemma {:induction false} SortDescOrdered(s: seq<Entry>)
    ensures Sorted(SortDesc(s))
  {
    if s != [] {
      var init := s[..|s| - 1];
      SortDescOrdered(init);
      InsertDescSorted(SortDesc(init), s[|s| - 1]);
    }
  }

  lemma {:induction false} SortDescPerm(s: seq<Entry>)
    ensures multiset(SortDesc(s)) == multiset(s)
  {
    if s != [] {
      var init := s[..|s| - 1];
      SortDescPerm(init);
      InsertDescPerm(SortDesc(init), s[|s| - 1]);
      assert s == init + [s[|s| - 1]];
    }
  }

  /** In a sorted list every entry of score k comes before p when k is at
      least the score at p, so inserting keeps the ties in front of e. */
  lemma InsertDescTies(t: seq<Entry>, e: Entry, k: int)
    requires Sorted(t)
    ensures WithScore(InsertDesc(t, e), k) == WithScore(t, k) + WithScore([e], k)
  {
    InsertDescSplit(t, e);
    var p := InsertionPoint(t, e.score);
    if k == e.score {
      NoTiesAfterInsertionPoint(t, k);
    }
    TiesAroundInsert(t[..p], e, t[p..], k);
    assert t == t[..p] + t[p..];
  }

  /** In a sorted list every entry past the insertion point of v scores
      less than v. */
  lemma BelowInsertionPoint(t: seq<Entry>, v: int)
    requires Sorted(t)
    ensures forall i :: InsertionPoint(t, v) <= i < |t| ==> t[i].score < v
  {
    var p := InsertionPoint(t, v);
    forall i | p <= i < |t| ensures t[i].score < v {
      assert t[p].score >= t[i].score;
    }
  }

  /** In a sorted list nothing past the insertion point of k scores k. */
  lemma NoTiesAfterInsertionPoint(t: seq<Entry>, k: int)
    requires Sorted(t)
    ensures WithScore(t[InsertionPoint(t, k)..], k) == []
  {
    var p := InsertionPoint(t, k);
    var b := t[p..];
    BelowInsertionPoint(t, k);
    assert forall i :: 0 <= i < |b| ==> b[i] == t[p + i];
    NoneWithScore(b, k);
  }

  lemma TiesAroundInsert(a: seq<Entry>, e: Entry, b: seq<Entry>, k: int)
    requires k == e.score ==> WithScore(b, k) == []
    ensures WithScore(a + [e] + b, k) == WithScore(a + b, k) + WithScore([e], k)
  {
    WithScoreAppend(a, b, k);
    WithScoreAppend(a + [e], b, k);
    WithScoreAppend(a, [e], k);
    if k != e.score {
      assert WithScore([e], k) == [];
    }
  }

  lemma {:induction false} NoneWithScore(t: seq<Entry>, k: int)
    requires forall i :: 0 <= i < |t| ==> t[i].score < k
    ensures WithScore(t, k) == []
  {
    if t != [] {
      NoneWithScore(t[1..], k);
    }
  }

  /** Stability: among entries of equal score the sort keeps input order. */
  lemma {:induction false} SortDescStable(s: seq<Entry>, k: int)
    ensures WithScore(SortDesc(s), k) == WithScore(s, k)
  {
    if s != [] {
      var init := s[..|s| - 1];
      var last := s[|s| - 1];
      var sorted := SortDesc(init);
      assert SortDesc(s) == InsertDesc(sorted, last);
      SortDescStable(init, k);
      SortDescOrdered(init);
      InsertDescTies(sorted, last, k);
      assert s == init + [last];
      WithScoreAppend(init, [last], k);
    }
  }

  /** Sorting a list that is already sorted leaves it as it is. */
  lemma {:induction false} SortDescOfSorted(s: seq<Entry>)
    requires Sorted(s)
    ensures SortDesc(s) == s
  {
    if s != [] {
      var init := s[..|s| - 1];
      var last := s[|s| - 1];
      assert Sorted(init);
      SortDescOfSorted(init);
      InsertDescSplit(init, last);
      var p := InsertionPoint(init, last.score);
      forall i | 0 <= i < |init| ensures init[i].score >= last.score {
        assert init[i] == s[i];
      }
      InsertionPointAtEnd(init, last.score);
      assert init[..p] == init && init[p..] == [];
      assert s == init + [last];
    }
  }

  lemma {:induction false} InsertionPointAtEnd(t: seq<Entry>, v: int)
    requires forall i :: 0 <= i < |t| ==> t[i].score >= v
    ensures InsertionPoint(t, v) == |t|
  {
    if t != [] {
      InsertionPointAtEnd(t[1..], v);
    }
  }

  /** A sorted list is fixed by its ties: two sorted lists that agree on the
      entries of each score are equal. */
  lemma {:induction false} SortedByTies(t: seq<Entry>, u: seq<Entry>)
    requires Sorted(t) && Sorted(u)
    requires forall k :: WithScore(t, k) == WithScore(u, k)
    ensures t == u
    decreases |t|
  {
    if t == [] {
      if u != [] {
        OwnTies(u);
        assert false;
      }
    } else if u == [] {
      OwnTies(t);
      assert false;
    } else {
      SameHead(t, u);
      TailTies(t, u);
      SortedByTies(t[1..], u[1..]);
      assert t == [t[0]] + t[1..] && u == [u[0]] + u[1..];
    }
  }

  /** Sorted lists with the same ties start with the same entry: each head
      is the first entry of the top score. */
  lemma SameHead(t: seq<Entry>, u: seq<Entry>)
    requires t != [] && u != [] && Sorted(t) && Sorted(u)
    requires forall k :: WithScore(t, k) == WithScore(u, k)
    ensures t[0] == u[0]
  {
    var a, b := t[0].score, u[0].score;
    OwnTies(t);
    OwnTies(u);
    HasScoreBelowHead(u, a);
    HasScoreBelowHead(t, b);
    assert WithScore(t, a)[0] == t[0] && WithScore(u, a)[0] == u[0];
  }

  /** Lists with the same head and the same ties have tails with the same ties. */
  lemma TailTies(t: seq<Entry>, u: seq<Entry>)
    requires t != [] && u != [] && t[0] == u[0]
    requires forall k :: WithScore(t, k) == WithScore(u, k)
    ensures forall k :: WithScore(t[1..], k) == WithScore(u[1..], k)
  {
    forall k ensures WithScore(t[1..], k) == WithScore(u[1..], k) {
      assert WithScore(t, k) == WithScore(u, k);
      OwnTies(t);
      OwnTies(u);
      if k == t[0].score {
        assert WithScore(t[1..], k) == WithScore(t, k)[1..];
        assert WithScore(u[1..], k) == WithScore(u, k)[1..];
      }
    }
  }

  /** The head of a list is the first of its ties. */
  lemma OwnTies(t: seq<Entry>)
    requires t != []
    ensures WithScore(t, t[0].score) == [t[0]] + WithScore(t[1..], t[0].score)
    ensures forall k :: k != t[0].score ==> WithScore(t, k) == WithScore(t[1..], k)
  {
  }

  /** If a sorted list has an entry of score k, its head scores at least k. */
  lemma {:induction false} HasScoreBelowHead(t: seq<Entry>, k: int)
    requires Sorted(t) && t != []
    requires WithScore(t, k) != []
    ensures k <= t[0].score
    decreases |t|
  {
    if t[0].score != k {
      assert WithScore(t[1..], k) != [];
      assert t[1..] != [];
      HasScoreBelowHead(t[1..], k);
      assert t[1..][0] == t[1];
    }
  }

  /** SortDesc is THE stable sort by descending score: any sorted list that
      keeps the input's order among ties equals it. So the model does not
      depend on which stable algorithm the JavaScript engine uses. */
  lemma StableSortUnique(s: seq<Entry>, t: seq<Entry>)
    requires Sorted(t)
    requires forall k :: WithScore(t, k) == WithScore(s, k)
    ensures t == SortDesc(s)
  {
    SortDescSorted(s);
    forall k ensures WithScore(t, k) == WithScore(SortDesc(s), k) {
      SortDescStable(s, k);
    }
    SortedByTies(t, SortDesc(s));
  }

  // ---------------------------------------------------------------------
  // Erasing ranks commutes with the sort

  lemma {:induction false} UnrankedInsert(t: seq<Entry>, e: Entry)
    ensures Unranked(InsertDesc(t, e)) == InsertDesc(Unranked(t), Unrank(e))
  {
    if t != [] && t[0].score >= e.score {
      UnrankedInsert(t[1..], e);
      assert Unranked(t)[1..] == Unranked(t[1..]);
      assert Unranked([t[0]] + InsertDesc(t[1..], e)) == [Unrank(t[0])] + Unranked(InsertDesc(t[1..], e));
    } else if t != [] {
      assert Unranked([e] + t) == [Unrank(e)] + Unranked(t);
    }
  }

  lemma {:induction false} UnrankedSort(s: seq<Entry>)
    ensures Unranked(SortDesc(s)) == SortDesc(Unranked(s))
  {
    if s != [] {
      var init := s[..|s| - 1];
      UnrankedSort(init);
      UnrankedInsert(SortDesc(init), s[|s| - 1]);
      assert Unranked(s)[..|s| - 1] == Unranked(init);
    }
  }

  lemma UnrankedAppend(a: seq<Entry>, b: seq<Entry>)
    ensures Unranked(a + b) == Unranked(a) + Unranked(b)
  {
  }

  lemma SameScores(a: seq<Entry>, b: seq<Entry>)
    requires Unranked(a) == Unranked(b)
    ensures |a| == |b|
    ensures forall i :: 0 <= i < |a| ==> a[i].score == b[i].score
  {
    assert |Unranked(a)| == |Unranked(b)|;
    forall i | 0 <= i < |a| ensures a[i].score == b[i].score {
      assert Unranked(a)[i] == Unranked(b)[i];
    }
  }

  // ---------------------------------------------------------------------
  // What a successful add produces

  /** One entry longer; ignoring ranks a permutation of the old list plus
      the new entry; scores non-increasing; ranks exactly 1..n by position. */
  lemma AcceptShape(board: seq<Entry>, e: Entry)
    ensures |Accept(board, e)| == |board| + 1
    ensures multiset(Unranked(Accept(board, e))) == multiset(Unranked(board)) + multiset{Unrank(e)}
    ensures Sorted(Accept(board, e))
    ensures Ranked(Accept(board, e))
  {
    var all := board + [e];
    var sorted := SortDesc(all);
    var r := Accept(board, e);
    SortDescSorted(all);
    SortDescSorted(Unranked(all));
    UnrankedSort(all);
    UnrankedAppend(board, [e]);
    assert |sorted| == |all| by {
      assert |multiset(sorted)| == |multiset(all)|;
    }
    SameScores(r, sorted);
    assert Unranked([e]) == [Unrank(e)];
    calc {
      multiset(Unranked(r));
      multiset(SortDesc(Unranked(all)));
      multiset(Unranked(all));
      multiset(Unranked(board) + [Unrank(e)]);
    }
  }

  /** Stability across the add: the entries of each score keep their old
      order, and an entry with the new one's score is followed by it. */
  lemma AcceptStable(board: seq<Entry>, e: Entry, k: int)
    ensures WithScore(Unranked(Accept(board, e)), k)
         == WithScore(Unranked(board), k) + (if e.score == k then [Unrank(e)] else [])
  {
    var all := board + [e];
    UnrankedSort(all);
    UnrankedAppend(board, [e]);
    assert Unranked([e]) == [Unrank(e)];
    SortDescStable(Unranked(all), k);
    WithScoreAppend(Unranked(board), [Unrank(e)], k);
    assert Unranked(Accept(board, e)) == SortDesc(Unranked(all));
  }

  /** On a list that is already sorted and ranked (the board's invariant),
      the new entry goes right after the entries scoring at least as much:
      those keep their place and rank, the rest move down by one. */
  lemma AcceptIntoRanked(board: seq<Entry>, e: Entry)
    requires Sorted(board) && Ranked(board)
    ensures |Accept(board, e)| == |board| + 1
    ensures var p := InsertionPoint(board, e.score);
      && (forall i :: 0 <= i < p ==> board[i].score >= e.score)
      && (forall i :: p <= i < |board| ==> board[i].score < e.score)
      && (forall i :: 0 <= i < p ==> Accept(board, e)[i] == board[i])
      && Accept(board, e)[p] == e.(rank := p + 1)
      && (forall i :: p <= i < |board| ==> Accept(board, e)[i + 1] == board[i].(rank := i + 2))
  {
    AppendToSorted(board, e);
    assert Accept(board, e) == Rerank(InsertDesc(board, e));
    RerankInsert(board, e);
    BelowInsertionPoint(board, e.score);
  }

  /** Renumbering after one insertion into a ranked list. */
  lemma RerankInsert(board: seq<Entry>, e: Entry)
    requires Ranked(board)
    ensures |Rerank(InsertDesc(board, e))| == |board| + 1
    ensures var p := InsertionPoint(board, e.score);
      && (forall i :: 0 <= i < p ==> Rerank(InsertDesc(board, e))[i] == board[i])
      && Rerank(InsertDesc(board, e))[p] == e.(rank := p + 1)
      && (forall i :: p <= i < |board| ==> Rerank(InsertDesc(board, e))[i + 1] == board[i].(rank := i + 2))
  {
    var p := InsertionPoint(board, e.score);
    var r := Rerank(InsertDesc(board, e));
    RerankInsertAt(board, e, 0);
    forall i | 0 <= i < p ensures r[i] == board[i] {
      RerankInsertAt(board, e, i);
    }
    RerankInsertAt(board, e, p);
    forall i | p <= i < |board| ensures r[i + 1] == board[i].(rank := i + 2) {
      RerankInsertAt(board, e, i + 1);
    }
  }

  /** One position of a ranked list after an insertion and renumbering. */
  lemma RerankInsertAt(board: seq<Entry>, e: Entry, i: int)
    requires Ranked(board)
    requires 0 <= i <= |board|
    ensures InsertionPoint(board, e.score) <= |board|
    ensures |Rerank(InsertDesc(board, e))| == |board| + 1
    ensures Rerank(InsertDesc(board, e))[i]
         == if i < InsertionPoint(board, e.score) then board[i]
            else if i == InsertionPoint(board, e.score) then e.(rank := i + 1)
            else board[i - 1].(rank := i + 1)
  {
    var ins := InsertDesc(board, e);
    InsertedAt(board, e, i);
    RerankAt(ins, i);
  }

  lemma RerankAt(s: seq<Entry>, i: int)
    requires 0 <= i < |s|
    ensures |Rerank(s)| == |s|
    ensures Rerank(s)[i] == s[i].(rank := i + 1)
  {
  }

  /** Sorting a sorted list with one entry appended is one insertion. */
  lemma AppendToSorted(board: seq<Entry>, e: Entry)
    requires Sorted(board)
    ensures SortDesc(board + [e]) == InsertDesc(board, e)
  {
    var all := board + [e];
    assert all[..|board|] == board;
    SortDescOfSorted(board);
  }

  /** The ranks that occur in s. */
  function RankSet(s: seq<Entry>): set<int>
  {
    set i | 0 <= i < |s| :: s[i].rank
  }

  /** Ranks by position are exactly 1..n, each once: no gaps, no repeats. */
  lemma RankedIsDense(s: seq<Entry>)
    requires Ranked(s)
    ensures forall k :: k in RankSet(s) <==> 1 <= k <= |s|
    ensures forall i, j :: 0 <= i < j < |s| ==> s[i].rank != s[j].rank
  {
    forall k | 1 <= k <= |s| ensures k in RankSet(s) {
      assert s[k - 1].rank == k;
    }
  }

  // ---------------------------------------------------------------------
  // Statistics

  /** `rankings.length`. */
  function Count(s: seq<Entry>): nat
  {
    |s|
  }

  /** Math.max over the scores of a non-empty list. */
  function MaxOf(s: seq<Entry>): (m: int)
    requires s != []
    ensures forall i :: 0 <= i < |s| ==> s[i].score <= m
    ensures exists i :: 0 <= i < |s| && s[i].score == m
  {
    if |s| == 1 then s[0].score
    else
      var rest := MaxOf(s[1..]);
      assert forall i :: 1 <= i < |s| ==> s[i] == s[1..][i - 1];
      if s[0].score >= rest then s[0].score else rest
  }

  /** Highest score, or 0 for an empty board. */
  function MaxScore(s: seq<Entry>): (m: int)
    ensures s == [] ==> m == 0
    ensures s != [] ==> forall i :: 0 <= i < |s| ==> s[i].score <= m
    ensures s != [] ==> exists i :: 0 <= i < |s| && s[i].score == m
  {
    if |s| > 0 then MaxOf(s) else 0
  }

  /** `reduce((sum, r) => sum + r.score, 0)`: a left fold over the list. */
  function SumScores(s: seq<Entry>): int
  {
    if s == [] then 0 else SumScores(s[..|s| - 1]) + s[|s| - 1].score
  }

  /** Math.round(num / den) for den > 0: the integer nearest the quotient,
      halves going up (floor of the quotient plus one half). */
  function RoundDiv(num: int, den: int): (q: int)
    requires den > 0
    ensures 2 * den * q - den <= 2 * num < 2 * den * q + den
  {
    var q := (2 * num + den) / (2 * den);
    assert 2 * num + den == 2 * den * q + (2 * num + den) % (2 * den);
    q
  }

  /** Rounded mean score, or 0 for an empty board. */
  function AverageScore(s: seq<Entry>): (a: int)
    ensures s == [] ==> a == 0
    ensures s != [] ==> 2 * |s| * a - |s| <= 2 * SumScores(s) < 2 * |s| * a + |s|
  {
    if |s| > 0 then RoundDiv(SumScores(s), |s|) else 0
  }

  lemma {:induction false} SumAppend(a: seq<Entry>, b: seq<Entry>)
    ensures SumScores(a + b) == SumScores(a) + SumScores(b)
    decreases |b|
  {
    if b == [] {
      assert a + b == a;
    } else {
      assert (a + b)[..|a + b| - 1] == a + b[..|b| - 1];
      SumAppend(a, b[..|b| - 1]);
    }
  }

  lemma {:induction false} SumInsert(t: seq<Entry>, e: Entry)
    ensures SumScores(InsertDesc(t, e)) == SumScores(t) + e.score
  {
    InsertDescSplit(t, e);
    var p := InsertionPoint(t, e.score);
    assert t == t[..p] + t[p..];
    SumAppend(t[..p] + [e], t[p..]);
    SumAppend(t[..p], [e]);
    SumAppend(t[..p], t[p..]);
    assert SumScores([e]) == SumScores([]) + e.score;
  }

  lemma {:induction false} SumSort(s: seq<Entry>)
    ensures SumScores(SortDesc(s)) == SumScores(s)
  {
    if s != [] {
      SumSort(s[..|s| - 1]);
      SumInsert(SortDesc(s[..|s| - 1]), s[|s| - 1]);
    }
  }

  lemma {:induction false} SumSameScores(a: seq<Entry>, b: seq<Entry>)
    requires |a| == |b|
    requires forall i :: 0 <= i < |a| ==> a[i].score == b[i].score
    ensures SumScores(a) == SumScores(b)
    decreases |a|
  {
    if a != [] {
      SumSameScores(a[..|a| - 1], b[..|b| - 1]);
    }
  }

  /** The statistics after a successful add: one more participant, the
      score total grows by the new score, and the maximum is the larger of
      the old maximum and the new score (just the new score on an empty
      board). */
  lemma AcceptStats(board: seq<Entry>, e: Entry)
    ensures Count(Accept(board, e)) == Count(board) + 1
    ensures SumScores(Accept(board, e)) == SumScores(board) + e.score
    ensures MaxScore(Accept(board, e))
         == if board == [] then e.score
            else if MaxScore(board) >= e.score then MaxScore(board) else e.score
  {
    var all := board + [e];
    var sorted := SortDesc(all);
    var r := Accept(board, e);
    AcceptShape(board, e);
    SameScores(r, sorted);
    SumSameScores(r, sorted);
    SumSort(all);
    SumAppend(board, [e]);
    assert SumScores([e]) == SumScores([]) + e.score;
    SortDescSorted(all);
    SameScoreSet(r, sorted, all);
    MaxOfAppend(board, e);
    MaxOfSameScores(r, all);
  }

  /** The scores that occur in s. */
  function ScoreSet(s: seq<Entry>): set<int>
  {
    set i | 0 <= i < |s| :: s[i].score
  }

  /** r's scores are those of sorted, a permutation of all. */
  lemma SameScoreSet(r: seq<Entry>, sorted: seq<Entry>, all: seq<Entry>)
    requires |r| == |sorted|
    requires forall i :: 0 <= i < |r| ==> r[i].score == sorted[i].score
    requires multiset(sorted) == multiset(all)
    ensures ScoreSet(r) == ScoreSet(all)
  {
    forall x | x in ScoreSet(r) ensures x in ScoreSet(all) {
      var i :| 0 <= i < |r| && r[i].score == x;
      assert sorted[i] in multiset(sorted);
      assert sorted[i] in all;
      var j :| 0 <= j < |all| && all[j] == sorted[i];
    }
    forall x | x in ScoreSet(all) ensures x in ScoreSet(r) {
      var j :| 0 <= j < |all| && all[j].score == x;
      assert all[j] in multiset(all);
      assert all[j] in sorted;
      var i :| 0 <= i < |sorted| && sorted[i] == all[j];
      assert r[i].score == x;
    }
  }

  /** The maximum depends only on which scores occur. */
  lemma MaxOfSameScores(r: seq<Entry>, all: seq<Entry>)
    requires |r| == |all|
    requires ScoreSet(r) == ScoreSet(all)
    ensures MaxScore(r) == MaxScore(all)
  {
    if r != [] {
      var i :| 0 <= i < |r| && r[i].score == MaxScore(r);
      assert MaxScore(r) in ScoreSet(all);
      var j :| 0 <= j < |all| && all[j].score == MaxScore(r);
      var j' :| 0 <= j' < |all| && all[j'].score == MaxScore(all);
      assert MaxScore(all) in ScoreSet(r);
      var i' :| 0 <= i' < |r| && r[i'].score == MaxScore(all);
    }
  }

  lemma MaxOfAppend(board: seq<Entry>, e: Entry)
    ensures MaxScore(board + [e])
         == if board == [] then e.score
            else if MaxScore(board) >= e.score then MaxScore(board) else e.score
  {
    var all := board + [e];
    var m := MaxScore(all);
    var j :| 0 <= j < |all| && all[j].score == m;
    assert all[|board|] == e;
    if board != [] {
      var k :| 0 <= k < |board| && board[k].score == MaxScore(board);
      assert all[k] == board[k];
      forall i | 0 <= i < |board| ensures board[i].score <= m {
        assert all[i] == board[i];
      }
      assert j < |board| ==> all[j] == board[j];
    }
  }

}
