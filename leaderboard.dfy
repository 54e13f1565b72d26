/** `!triviatop`: the score table's entries ordered by correct answers, then
    by success rate, both descending, and the first ten numbered from 1. */
module TriviaLeaderboard {
  import opened TriviaScores

  const BoardSize: nat := 10

  /** One `(user_id, score)` pair of the table's `items()`. */
  type Item = (string, Score)

  /** The success rate as a fraction RateNum / RateDen; 0 when the total is
      0, as in the sort key. */
  function RateNum(s: Score): nat
  {
    if s.total > 0 then s.correct else 0
  }

  function RateDen(s: Score): nat
  {
    if s.total > 0 then s.total else 1
  }

  /** The sort key `(correct, correct / total)` of `a` is at least that of
      `b`, comparing tuples left to right and the rates by cross-multiplication. */
  predicate RanksAtLeast(a: Score, b: Score)
  {
    a.correct > b.correct
    || (a.correct == b.correct && RateNum(a) * RateDen(b) >= RateNum(b) * RateDen(a))
  }

  lemma MulMonotone(x: int, y: int, k: nat)
    requires x <= y
    ensures x * k <= y * k
  {
  }

  /** Cross-multiplied comparison of fractions with positive denominators is
      transitive: na/da >= nb/db >= nc/dc gives na/da >= nc/dc. */
  lemma CrossTransitive(na: int, da: int, nb: int, db: int, nc: int, dc: int)
    requires da > 0 && db > 0 && dc > 0
    requires na * db >= nb * da && nb * dc >= nc * db
    ensures na * dc >= nc * da
  {
    var p := na * dc;
    var q := nc * da;
    MulMonotone(nb * da, na * db, dc);
    MulMonotone(nc * db, nb * dc, da);
    calc {
      p * db;
    ==
      (na * db) * dc;
    >=
      (nb * da) * dc;
    ==
      (nb * dc) * da;
    >=
      (nc * db) * da;
    ==
      q * db;
    }
    assert (p - q) * db == p * db - q * db;
    NonNegativeFactor(p - q, db);
  }

  lemma NonNegativeFactor(z: int, k: int)
    requires k > 0 && z * k >= 0
    ensures z >= 0
  {
  }

  /** Any two keys are comparable. */
  lemma RanksTotal(a: Score, b: Score)
    ensures RanksAtLeast(a, b) || RanksAtLeast(b, a)
  {
  }

  /** The key order is transitive, so sorting by it is well defined. */
  lemma RanksTransitive(a: Score, b: Score, c: Score)
    requires RanksAtLeast(a, b) && RanksAtLeast(b, c)
    ensures RanksAtLeast(a, c)
  {
    if a.correct == b.correct == c.correct {
      CrossTransitive(RateNum(a), RateDen(a), RateNum(b), RateDen(b), RateNum(c), RateDen(c));
    }
  }

  /** Non-increasing by key. */
  predicate SortedDesc(s: seq<Item>)
  {
    forall i, j :: 0 <= i < j < |s| ==> RanksAtLeast(s[i].1, s[j].1)
  }

  /** Inserts `x` after every entry whose key is at least its own, so that
      entries with equal keys keep their order. */
  function Insert(x: Item, s: seq<Item>): (r: seq<Item>)
    ensures multiset(r) == multiset(s) + multiset{x}
  {
    if s == [] then [x]
    else if RanksAtLeast(s[0].1, x.1) then
      assert s == [s[0]] + s[1..];
      [s[0]] + Insert(x, s[1..])
    else [x] + s
  }

  lemma {:induction false} InsertSorted(x: Item, s: seq<Item>)
    requires SortedDesc(s)
    ensures SortedDesc(Insert(x, s))
  {
    if s == [] {
    } else if RanksAtLeast(s[0].1, x.1) {
      InsertSorted(x, s[1..]);
      var tail := Insert(x, s[1..]);
      var r := [s[0]] + tail;
      forall j | 0 < j < |r|
        ensures RanksAtLeast(s[0].1, r[j].1)
      {
        var y := r[j];
        assert y == tail[j - 1];
        assert y in multiset(tail);
        if y != x {
          assert y in multiset(s[1..]);
          var k :| 0 <= k < |s[1..]| && s[1..][k] == y;
          assert s[k + 1] == y;
        }
      }
      forall i, j | 0 <= i < j < |r|
        ensures RanksAtLeast(r[i].1, r[j].1)
      {
        if i > 0 {
          assert r[i] == tail[i - 1] && r[j] == tail[j - 1];
        }
      }
    } else {
      RanksTotal(s[0].1, x.1);
      var r := [x] + s;
      forall i, j | 0 <= i < j < |r|
        ensures RanksAtLeast(r[i].1, r[j].1)
      {
        if i == 0 && j > 1 {
          RanksTransitive(x.1, s[0].1, s[j - 1].1);
        }
      }
    }
  }

  /** Python's stable `sorted(..., reverse=True)` by the key, as insertion sort. */
  function SortDesc(s: seq<Item>): (r: seq<Item>)
    ensures multiset(r) == multiset(s)
  {
    if s == [] then []
    else
      assert s == s[..|s| - 1] + [s[|s| - 1]];
      Insert(s[|s| - 1], SortDesc(s[..|s| - 1]))
  }

  lemma {:induction false} SortDescSorted(s: seq<Item>)
    ensures SortedDesc(SortDesc(s))
  {
    if s != [] {
      SortDescSorted(s[..|s| - 1]);
      InsertSorted(s[|s| - 1], SortDesc(s[..|s| - 1]));
    }
  }

  /** One leaderboard field: its number, the user and their score. */
  datatype Row = Row(rank: nat, user: string, score: Score)

  datatype Board = NoOnePlayed | Board(rows: seq<Row>)

  /** `enumerate(entries, 1)` */
  function Ranked(entries: seq<Item>): seq<Row>
  {
    seq(|entries|, i requires 0 <= i < |entries| => Row(i + 1, entries[i].0, entries[i].1))
  }

  /** The (user, score) pairs a board shows, in order. */
  function Shown(rows: seq<Row>): seq<Item>
  {
    seq(|rows|, i requires 0 <= i < |rows| => (rows[i].user, rows[i].score))
  }

  function Leaderboard(items: seq<Item>): Board
  {
    if items == [] then NoOnePlayed
    else
      var sorted := SortDesc(items);
      Board(Ranked(sorted[..if |sorted| < BoardSize then |sorted| else BoardSize]))
  }

  /** Whatever a sorted list leaves after its first k entries ranks no
      higher than any of those k. */
  lemma SortedPrefixIsTop(sorted: seq<Item>, k: nat)
    requires SortedDesc(sorted) && k <= |sorted|
    ensures forall x, i :: x in sorted && x !in sorted[..k] && 0 <= i < k ==>
                             RanksAtLeast(sorted[i].1, x.1)
  {
    forall x, i | x in sorted && x !in sorted[..k] && 0 <= i < k
      ensures RanksAtLeast(sorted[i].1, x.1)
    {
      var j :| 0 <= j < |sorted| && sorted[j] == x;
      assert forall m :: 0 <= m < k ==> sorted[m] == sorted[..k][m];
      assert j >= k;
    }
  }

  lemma ShownRanked(entries: seq<Item>)
    ensures |Ranked(entries)| == |entries|
    ensures Shown(Ranked(entries)) == entries
    ensures forall i :: 0 <= i < |entries| ==> Ranked(entries)[i].rank == i + 1
  {
  }

  /** What `!triviatop` shows: nothing for an empty table; otherwise at most
      ten rows, numbered 1, 2, ..., in non-increasing key order, drawn from
      the table, and no entry left off the board ranks above one shown. */
  lemma LeaderboardSpec(items: seq<Item>)
    ensures Leaderboard(items) == NoOnePlayed <==> items == []
    ensures Leaderboard(items).Board? ==>
              var rows := Leaderboard(items).rows;
              && |rows| == (if |items| < BoardSize then |items| else BoardSize)
              && (forall i :: 0 <= i < |rows| ==> rows[i].rank == i + 1)
              && (forall i, j :: 0 <= i < j < |rows| ==> RanksAtLeast(rows[i].score, rows[j].score))
              && multiset(Shown(rows)) <= multiset(items)
              && (forall x, i :: x in items && x !in Shown(rows) && 0 <= i < |rows| ==>
                                   RanksAtLeast(rows[i].score, x.1))
  {
    if items != [] {
      var sorted := SortDesc(items);
      SortDescSorted(items);
      var k := if |sorted| < BoardSize then |sorted| else BoardSize;
      var top := sorted[..k];
      var rows := Leaderboard(items).rows;
      assert rows == Ranked(top);
      ShownRanked(top);
      assert sorted == top + sorted[k..];
      assert multiset(sorted) == multiset(top) + multiset(sorted[k..]);
      SortedPrefixIsTop(sorted, k);
      assert forall x :: x in items <==> x in sorted by {
        forall x ensures x in items <==> x in sorted {
          assert x in items <==> x in multiset(items);
          assert x in sorted <==> x in multiset(sorted);
        }
      }
      assert forall i :: 0 <= i < |rows| ==> rows[i].score == sorted[i].1;
    }
  }

  /** On a consistent table every row has a non-zero total, so the success
      rate printed beside it is defined. */
  lemma LeaderboardRatesDefined(items: seq<Item>)
    requires forall x :: x in items ==> Consistent(x.1)
    ensures Leaderboard(items).Board? ==>
              forall i :: 0 <= i < |Leaderboard(items).rows| ==>
                Consistent(Leaderboard(items).rows[i].score)
  {
    if items != [] {
      var sorted := SortDesc(items);
      var k := if |sorted| < BoardSize then |sorted| else BoardSize;
      forall i | 0 <= i < k
        ensures Consistent(sorted[i].1)
      {
        assert sorted[i] in multiset(items);
      }
    }
  }
}
