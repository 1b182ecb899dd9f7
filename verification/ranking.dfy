/** The ranking step of the recommendation endpoint (app.py:41-43): pair
    every row index with its similarity score, sort the pairs by score,
    highest first, with Python's stable `sorted(..., reverse=True)`, and keep
    sorted positions 1 up to, but not including, `min(n, 3)`. */
module Ranking {

  /** One `(index, score)` pair of `enumerate` over a similarity row. */
  datatype Scored = Scored(index: nat, score: real)

  /** `list(enumerate(row))` (app.py:41). */
  function Enumerate(row: seq<real>): (ps: seq<Scored>)
    ensures |ps| == |row|
    ensures forall i :: 0 <= i < |row| ==> ps[i] == Scored(i, row[i])
  {
    seq(|row|, i requires 0 <= i < |row| => Scored(i, row[i]))
  }

  /** Indices strictly increasing along `ps`, as `enumerate` produces them. */
  predicate IndicesAscending(ps: seq<Scored>)
  {
    forall i, j :: 0 <= i < j < |ps| ==> ps[i].index < ps[j].index
  }

  /** The order the ranking is meant to have: higher score first, and among
      equal scores the lower row index first. */
  predicate Precedes(a: Scored, b: Scored)
  {
    a.score > b.score || (a.score == b.score && a.index < b.index)
  }

  /** Every earlier element strictly precedes every later one. */
  predicate RankedOrder(s: seq<Scored>)
  {
    forall i, j :: 0 <= i < j < |s| ==> Precedes(s[i], s[j])
  }

  /** Insert `p` in front of the first element whose score is not above its
      own. Placing it before the equal scores is what keeps the sort stable
      when `p` came first in the input. */
  function Insert(p: Scored, s: seq<Scored>): (r: seq<Scored>)
    ensures |r| == |s| + 1
    ensures multiset(r) == multiset(s) + multiset{p}
  {
    if s == [] || s[0].score <= p.score then [p] + s
    else
      assert s == [s[0]] + s[1..];
      [s[0]] + Insert(p, s[1..])
  }

  /** `sorted(ps, key=lambda x: x[1], reverse=True)` (app.py:42): a stable
      sort by descending score, written as an insertion sort. */
  function SortByScoreDesc(ps: seq<Scored>): (r: seq<Scored>)
    ensures |r| == |ps|
    ensures multiset(r) == multiset(ps)
  {
    if ps == [] then []
    else
      assert ps == [ps[0]] + ps[1..];
      Insert(ps[0], SortByScoreDesc(ps[1..]))
  }

  /** Inserting an element whose index is below every index of a ranked
      sequence keeps it ranked. */
  lemma {:induction false} InsertRanked(p: Scored, s: seq<Scored>)
    requires RankedOrder(s)
    requires forall q :: q in s ==> p.index < q.index
    ensures RankedOrder(Insert(p, s))
  {
    if s == [] || s[0].score <= p.score {
      var r := [p] + s;
      assert r == Insert(p, s);
      forall j | 1 <= j < |r| ensures Precedes(r[0], r[j]) {
        assert r[j] == s[j - 1];
        if j > 1 {
          assert Precedes(s[0], s[j - 1]);
        }
        assert r[j] in s;
      }
    } else {
      var tail := Insert(p, s[1..]);
      assert RankedOrder(s[1..]) by {
        forall i, j | 0 <= i < j < |s[1..]| ensures Precedes(s[1..][i], s[1..][j]) {
          assert s[1..][i] == s[i + 1] && s[1..][j] == s[j + 1];
        }
      }
      forall q | q in s[1..] ensures p.index < q.index {
        assert q in s;
      }
      InsertRanked(p, s[1..]);
      var r := [s[0]] + tail;
      assert r == Insert(p, s);
      forall j | 1 <= j < |r| ensures Precedes(r[0], r[j]) {
        var x := tail[j - 1];
        assert x in multiset(tail);
        assert x in multiset(s[1..]) || x == p;
        if x != p {
          var k :| 0 <= k < |s[1..]| && s[1..][k] == x;
          assert x == s[k + 1];
        }
      }
    }
  }

  /** Stability: sorting pairs whose indices ascend (as `enumerate` gives
      them) puts equal scores in ascending index order, so the result is in
      ranked order. */
  lemma {:induction false} SortRanked(ps: seq<Scored>)
    requires IndicesAscending(ps)
    ensures RankedOrder(SortByScoreDesc(ps))
  {
    if ps != [] {
      var rest := ps[1..];
      assert IndicesAscending(rest) by {
        forall i, j | 0 <= i < j < |rest| ensures rest[i].index < rest[j].index {
          assert rest[i] == ps[i + 1] && rest[j] == ps[j + 1];
        }
      }
      SortRanked(rest);
      var sorted := SortByScoreDesc(rest);
      forall q | q in sorted ensures ps[0].index < q.index {
        assert q in multiset(sorted);
        assert q in multiset(rest);
        var k :| 0 <= k < |rest| && rest[k] == q;
        assert q == ps[k + 1];
      }
      InsertRanked(ps[0], sorted);
    }
  }

  /** Dropping the first element keeps a sequence in ranked order. */
  lemma RankedTail(s: seq<Scored>)
    requires RankedOrder(s) && s != []
    ensures RankedOrder(s[1..])
  {
    forall a, b | 0 <= a < b < |s[1..]| ensures Precedes(s[1..][a], s[1..][b]) {
      assert s[1..][a] == s[a + 1] && s[1..][b] == s[b + 1];
    }
  }

  /** In ranked order the first element precedes every other element. */
  lemma HeadPrecedesRest(s: seq<Scored>, x: Scored)
    requires RankedOrder(s) && x in s
    ensures x == s[0] || Precedes(s[0], x)
  {
    var k :| 0 <= k < |s| && s[k] == x;
    if k > 0 {
      assert Precedes(s[0], s[k]);
    }
  }

  /** Two ranked sequences with the same elements start alike. */
  lemma RankedHeadsAgree(s: seq<Scored>, t: seq<Scored>)
    requires multiset(s) == multiset(t)
    requires RankedOrder(s) && RankedOrder(t) && s != []
    ensures t != [] && s[0] == t[0]
  {
    assert s[0] in multiset(t);
    assert t != [];
    assert t[0] in multiset(s);
    HeadPrecedesRest(t, s[0]);
    HeadPrecedesRest(s, t[0]);
  }

  /** Two sequences with the same elements that are both in ranked order are
      the same sequence: ranked order determines the arrangement. */
  lemma {:induction false} RankedOrderUnique(s: seq<Scored>, t: seq<Scored>)
    requires multiset(s) == multiset(t)
    requires RankedOrder(s) && RankedOrder(t)
    ensures s == t
  {
    if s == [] {
      assert |t| == |multiset(t)| == 0;
    } else {
      RankedHeadsAgree(s, t);
      assert s == [s[0]] + s[1..] && t == [t[0]] + t[1..];
      assert multiset(s[1..]) == multiset(s) - multiset{s[0]};
      assert multiset(t[1..]) == multiset(t) - multiset{t[0]};
      RankedTail(s);
      RankedTail(t);
      RankedOrderUnique(s[1..], t[1..]);
    }
  }

  /** The full ranking of one similarity row (app.py:41-42). */
  function RankRow(row: seq<real>): (r: seq<Scored>)
    ensures |r| == |row|
  {
    SortByScoreDesc(Enumerate(row))
  }

  /** What the ranking is: every row index exactly once, each with its own
      score, highest score first and equal scores by ascending index. */
  lemma RankingSpec(row: seq<real>)
    ensures multiset(RankRow(row)) == multiset(Enumerate(row))
    ensures RankedOrder(RankRow(row))
    ensures forall k :: 0 <= k < |row| ==>
              RankRow(row)[k].index < |row| && RankRow(row)[k].score == row[RankRow(row)[k].index]
    ensures forall i :: 0 <= i < |row| ==> Scored(i, row[i]) in RankRow(row)
  {
    var ps := Enumerate(row);
    var r := RankRow(row);
    SortRanked(ps);
    forall k | 0 <= k < |row|
      ensures r[k].index < |row| && r[k].score == row[r[k].index]
    {
      assert r[k] in multiset(ps);
    }
    forall i | 0 <= i < |row| ensures Scored(i, row[i]) in r {
      assert ps[i] in multiset(r);
    }
  }

  /** Independent characterisation: the stable sort is the one arrangement
      of the pairs in ranked order. */
  lemma RankingIsTheRankedArrangement(row: seq<real>, s: seq<Scored>)
    requires multiset(s) == multiset(Enumerate(row))
    requires RankedOrder(s)
    ensures s == RankRow(row)
  {
    RankingSpec(row);
    RankedOrderUnique(s, RankRow(row));
  }

  /** No row index occurs twice in the ranking. */
  lemma RankingIndicesDistinct(row: seq<real>)
    ensures forall a, b :: 0 <= a < b < |row| ==> RankRow(row)[a].index != RankRow(row)[b].index
  {
    RankingSpec(row);
  }

  function Min(a: int, b: int): int
  {
    if a <= b then a else b
  }

  /** Python's `s[lo:hi]` for non-negative bounds: both bounds are clipped to
      the length, and a reversed range is empty. */
  function Slice<T>(s: seq<T>, lo: nat, hi: nat): (r: seq<T>)
    ensures |r| == if Min(hi, |s|) <= Min(lo, |s|) then 0 else Min(hi, |s|) - lo
    ensures forall k :: 0 <= k < |r| ==> r[k] == s[lo + k]
  {
    var h := Min(hi, |s|);
    if h <= lo then [] else s[lo..h]
  }

  /** `sorted_scores[1 : min(len(sorted_scores), 3)]` (app.py:43): at most
      two picks (none for a row of one or no entry, one for two entries,
      exactly two from three entries on), and they are exactly sorted
      positions 1 and 2 of the ranking, position 0 dropped whatever it is. */
  function TopPicks(row: seq<real>): (picks: seq<Scored>)
    ensures |picks| == if |row| <= 1 then 0 else if |row| == 2 then 1 else 2
    ensures forall k :: 0 <= k < |picks| ==> picks[k] == RankRow(row)[k + 1]
  {
    var ranked := RankRow(row);
    Slice(ranked, 1, Min(|ranked|, 3))
  }

  /** The picks are valid, distinct row indices carrying their own scores,
      in ranked order: scores do not increase, and a tie lists the lower
      index first. */
  lemma TopPicksWellFormed(row: seq<real>)
    ensures RankedOrder(TopPicks(row))
    ensures forall k :: 0 <= k < |TopPicks(row)| ==>
              TopPicks(row)[k].index < |row| && TopPicks(row)[k].score == row[TopPicks(row)[k].index]
    ensures forall a, b :: 0 <= a < b < |TopPicks(row)| ==> TopPicks(row)[a].index != TopPicks(row)[b].index
  {
    RankingSpec(row);
    RankingIndicesDistinct(row);
    var picks, r := TopPicks(row), RankRow(row);
    forall a, b | 0 <= a < b < |picks| ensures Precedes(picks[a], picks[b]) {
      assert picks[a] == r[a + 1] && picks[b] == r[b + 1];
    }
    forall a, b | 0 <= a < b < |picks| ensures picks[a].index != picks[b].index {
      assert picks[a] == r[a + 1] && picks[b] == r[b + 1];
    }
  }

  /** The top-ranked entry scores at least as much as every entry of the row. */
  lemma FirstRankedIsMaximal(row: seq<real>)
    requires |row| > 0
    ensures forall i :: 0 <= i < |row| ==> row[i] <= RankRow(row)[0].score
  {
    RankingSpec(row);
    var r := RankRow(row);
    forall i | 0 <= i < |row| ensures row[i] <= r[0].score {
      var k :| 0 <= k < |r| && r[k] == Scored(i, row[i]);
      if k > 0 {
        assert Precedes(r[0], r[k]);
      }
    }
  }

  /** Every row index that is neither picked nor at sorted position 0 scores
      no more than the last pick. */
  lemma UnpickedScoreNoHigher(row: seq<real>, i: nat)
    requires i < |row| && |TopPicks(row)| > 0
    requires i != RankRow(row)[0].index
    requires forall k :: 0 <= k < |TopPicks(row)| ==> TopPicks(row)[k].index != i
    ensures row[i] <= TopPicks(row)[|TopPicks(row)| - 1].score
  {
    RankingSpec(row);
    var r, picks := RankRow(row), TopPicks(row);
    var k :| 0 <= k < |r| && r[k] == Scored(i, row[i]);
    var last := |picks|;
    assert picks[last - 1] == r[last];
    assert forall m :: 1 <= m <= last ==> picks[m - 1] == r[m];
    assert last < k;
    assert Precedes(r[last], r[k]);
  }

  /** When an entry strictly outscores every other entry of the row, it is
      the one at sorted position 0, so it is never picked. */
  lemma StrictMaximumNotPicked(row: seq<real>, self: nat)
    requires self < |row|
    requires forall j :: 0 <= j < |row| && j != self ==> row[j] < row[self]
    ensures forall k :: 0 <= k < |TopPicks(row)| ==> TopPicks(row)[k].index != self
  {
    RankingSpec(row);
    RankingIndicesDistinct(row);
    FirstRankedIsMaximal(row);
    var r := RankRow(row);
    assert r[0].score == row[r[0].index];
    assert row[self] <= r[0].score;
    assert r[0].index == self;
    forall k | 0 <= k < |TopPicks(row)| ensures TopPicks(row)[k].index != self {
      assert TopPicks(row)[k] == r[k + 1];
    }
  }

  /** Without a strict maximum the dropped entry need not be the requested
      one: with scores [1.0, 1.0, 0.0] the tie puts index 0 first, so index 1
      is picked even when it is the requested row. */
  lemma TieCanPickRequestedRow()
    ensures TopPicks([1.0, 1.0, 0.0]) == [Scored(1, 1.0), Scored(2, 0.0)]
  {
    var row := [1.0, 1.0, 0.0];
    var expected := [Scored(0, 1.0), Scored(1, 1.0), Scored(2, 0.0)];
    assert RankedOrder(expected);
    assert Enumerate(row) == expected;
    RankingIsTheRankedArrangement(row, expected);
  }
}
