/**
 * The click-game score store (`GameStore`): a map from user id to that
 * player's score entry, remembered in insertion order as a JavaScript `Map`
 * iterates it, and a global counter of all clicks. `Date.now()` becomes a
 * `now` parameter.
 */
module Game {

  datatype PlayerScore = PlayerScore(userId: string, username: string, score: int, lastUpdated: int)

  datatype IncrementResult = IncrementResult(personalScore: int, globalScore: int)

  /** The entries of the map in insertion order (`Array.from(scores.values())`). */
  function Entries(order: seq<string>, scores: map<string, PlayerScore>): (r: seq<PlayerScore>)
    requires forall i :: 0 <= i < |order| ==> order[i] in scores
    ensures |r| == |order|
    ensures forall i :: 0 <= i < |order| ==> r[i] == scores[order[i]]
  {
    seq(|order|, i requires 0 <= i < |order| => scores[order[i]])
  }

  function SumScores(ps: seq<PlayerScore>): int
  {
    if ps == [] then 0 else SumScores(ps[..|ps| - 1]) + ps[|ps| - 1].score
  }

  /** Replacing one entry changes the sum by the difference of the two scores. */
  lemma {:induction false} SumScoresUpdate(ps: seq<PlayerScore>, i: nat, p: PlayerScore)
    requires i < |ps|
    ensures SumScores(ps[i := p]) == SumScores(ps) - ps[i].score + p.score
  {
    var n := |ps| - 1;
    if i < n {
      assert ps[i := p][..n] == ps[..n][i := p];
      SumScoresUpdate(ps[..n], i, p);
    } else {
      assert ps[i := p][..n] == ps[..n];
    }
  }

  lemma SumScoresAppend(ps: seq<PlayerScore>, p: PlayerScore)
    ensures SumScores(ps + [p]) == SumScores(ps) + p.score
  {
    assert (ps + [p])[..|ps|] == ps;
  }

  predicate DistinctIds(ps: seq<PlayerScore>)
  {
    forall i, j :: 0 <= i < j < |ps| ==> ps[i].userId != ps[j].userId
  }

  predicate SortedByScore(ps: seq<PlayerScore>)
  {
    forall i, j :: 0 <= i < j < |ps| ==> ps[i].score >= ps[j].score
  }

  /** No entry of `ps` left off `board` scores more than an entry on it. */
  predicate NoneLeftHigher(board: seq<PlayerScore>, ps: seq<PlayerScore>)
  {
    forall x, y :: x in board && y in multiset(ps) - multiset(board) ==> x.score >= y.score
  }

  /** Places `p` before the first entry whose score is not higher, so earlier entries stay ahead of equal later ones. */
  function Insert(p: PlayerScore, sorted: seq<PlayerScore>): (r: seq<PlayerScore>)
    ensures |r| == |sorted| + 1
  {
    if sorted == [] || sorted[0].score <= p.score then [p] + sorted
    else [sorted[0]] + Insert(p, sorted[1..])
  }

  /**
   * `entries.sort((a, b) => b.score - a.score)`: highest score first, ties in
   * their original order. The result is sorted and holds the same entries.
   */
  function {:induction false} SortByScore(ps: seq<PlayerScore>): (r: seq<PlayerScore>)
    ensures |r| == |ps|
    ensures SortedByScore(r)
    ensures multiset(r) == multiset(ps)
  {
    if ps == [] then []
    else
      var rest := SortByScore(ps[1..]);
      InsertStep(ps[0], rest);
      HeadTail(ps);
      Insert(ps[0], rest)
  }

  /** Where `slice(0, limit)` stops on a list of `n` entries. */
  function SliceEnd(n: nat, limit: int): (e: nat)
    ensures e <= n
  {
    if limit < 0 then (if n + limit < 0 then 0 else n + limit)
    else if limit < n then limit else n
  }

  /**
   * `getLeaderboard(limit)` on the entries in insertion order: the
   * highest-scoring entries, sorted; no entry left off scores more than one on it.
   */
  function Leaderboard(ps: seq<PlayerScore>, limit: int): (r: seq<PlayerScore>)
    ensures SortedByScore(r)
    ensures |r| == SliceEnd(|ps|, limit)
    ensures NoneLeftHigher(r, ps)
  {
    var sorted := SortByScore(ps);
    PrefixDominates(sorted, SliceEnd(|ps|, limit));
    sorted[..SliceEnd(|ps|, limit)]
  }

  /** In a list sorted by score, every entry of a prefix scores at least as much as every entry after it. */
  lemma PrefixDominates(sorted: seq<PlayerScore>, e: nat)
    requires SortedByScore(sorted) && e <= |sorted|
    ensures NoneLeftHigher(sorted[..e], sorted)
  {
    var top, rest := sorted[..e], sorted[e..];
    assert sorted == top + rest;
    forall x, y | x in top && y in multiset(sorted) - multiset(top)
      ensures x.score >= y.score
    {
      assert y in multiset(rest);
      assert y in rest;
      var i :| 0 <= i < |top| && top[i] == x;
      var k :| 0 <= k < |rest| && rest[k] == y;
      assert sorted[i] == x && sorted[e + k] == y;
    }
  }

  /** Inserting into a sorted list keeps it sorted and adds exactly the one entry. */
  lemma InsertStep(p: PlayerScore, sorted: seq<PlayerScore>)
    requires SortedByScore(sorted)
    ensures SortedByScore(Insert(p, sorted))
    ensures multiset(Insert(p, sorted)) == multiset(sorted) + multiset{p}
  {
    InsertSorted(p, sorted);
    InsertKeepsEntries(p, sorted);
  }

  lemma HeadTail(ps: seq<PlayerScore>)
    requires ps != []
    ensures multiset(ps) == multiset(ps[1..]) + multiset{ps[0]}
  {
    assert ps == [ps[0]] + ps[1..];
  }

  lemma {:induction false} InsertKeepsEntries(p: PlayerScore, sorted: seq<PlayerScore>)
    ensures multiset(Insert(p, sorted)) == multiset(sorted) + multiset{p}
  {
    if !(sorted == [] || sorted[0].score <= p.score) {
      InsertKeepsEntries(p, sorted[1..]);
      assert sorted == [sorted[0]] + sorted[1..];
    }
  }

  lemma {:induction false} InsertSorted(p: PlayerScore, sorted: seq<PlayerScore>)
    requires SortedByScore(sorted)
    ensures SortedByScore(Insert(p, sorted))
  {
    if !(sorted == [] || sorted[0].score <= p.score) {
      var tail := sorted[1..];
      InsertSorted(p, tail);
      InsertKeepsEntries(p, tail);
      var r := Insert(p, sorted);
      assert r == [sorted[0]] + Insert(p, tail);
      forall j | 1 <= j < |r|
        ensures r[0].score >= r[j].score
      {
        var q := r[j];
        assert q in multiset(Insert(p, tail));
        if q != p {
          assert q in multiset(tail);
          var k :| 0 <= k < |tail| && tail[k] == q;
          assert sorted[k + 1] == q;
        }
      }
    }
  }

  lemma {:induction false} InsertDistinct(p: PlayerScore, sorted: seq<PlayerScore>)
    requires DistinctIds(sorted)
    requires forall q :: q in sorted ==> q.userId != p.userId
    ensures DistinctIds(Insert(p, sorted))
  {
    if !(sorted == [] || sorted[0].score <= p.score) {
      InsertDistinct(p, sorted[1..]);
      InsertKeepsEntries(p, sorted[1..]);
      var r := Insert(p, sorted);
      forall j | 1 <= j < |r|
        ensures r[0].userId != r[j].userId
      {
        assert r[j] in multiset(Insert(p, sorted[1..]));
      }
    }
  }

  /** Sorting entries with distinct ids keeps them distinct. */
  lemma {:induction false} SortKeepsDistinct(ps: seq<PlayerScore>)
    requires DistinctIds(ps)
    ensures DistinctIds(SortByScore(ps))
  {
    if ps != [] {
      var rest := SortByScore(ps[1..]);
      assert DistinctIds(ps[1..]) by {
        forall i, j | 0 <= i < j < |ps[1..]|
          ensures ps[1..][i].userId != ps[1..][j].userId
        {
          assert ps[1..][i] == ps[i + 1] && ps[1..][j] == ps[j + 1];
        }
      }
      SortKeepsDistinct(ps[1..]);
      HeadNotInTail(ps, rest);
      InsertDistinct(ps[0], rest);
    }
  }

  /** With distinct ids, no reordering of the tail holds the head's id. */
  lemma HeadNotInTail(ps: seq<PlayerScore>, rest: seq<PlayerScore>)
    requires ps != [] && DistinctIds(ps)
    requires multiset(rest) == multiset(ps[1..])
    ensures forall q :: q in rest ==> q.userId != ps[0].userId
  {
    forall q | q in rest
      ensures q.userId != ps[0].userId
    {
      assert q in multiset(ps[1..]);
      var j :| 0 <= j < |ps[1..]| && ps[1..][j] == q;
      assert ps[j + 1] == q;
    }
  }

  /**
   * For a non-negative limit the leaderboard is sorted by non-increasing
   * score, has `min(limit, #players)` entries, holds only stored entries and,
   * when the user ids are distinct, each player at most once. Every entry
   * left off scores no more than any entry on it.
   */
  lemma LeaderboardCorrect(ps: seq<PlayerScore>, limit: int)
    ensures SortedByScore(Leaderboard(ps, limit))
    ensures NoneLeftHigher(Leaderboard(ps, limit), ps)
    ensures limit >= 0 ==> |Leaderboard(ps, limit)| == if limit < |ps| then limit else |ps|
    ensures forall q :: q in Leaderboard(ps, limit) ==> q in ps
    ensures DistinctIds(ps) ==> DistinctIds(Leaderboard(ps, limit))
  {
    if DistinctIds(ps) {
      SortKeepsDistinct(ps);
    }
    var sorted := SortByScore(ps);
    forall q | q in Leaderboard(ps, limit)
      ensures q in ps
    {
      assert q in sorted;
      assert q in multiset(sorted);
    }
  }

  /** A store has exactly as many players as its insertion order lists. */
  lemma KeyCount(order: seq<string>, scores: map<string, PlayerScore>)
    requires forall i :: 0 <= i < |order| ==> order[i] in scores
    requires forall k :: k in scores ==> k in order
    requires forall i, j :: 0 <= i < j < |order| ==> order[i] != order[j]
    ensures |scores.Keys| == |order|
  {
    assert scores.Keys == set i | 0 <= i < |order| :: order[i];
    DistinctSize(order);
  }

  /** The leaderboard of a store holds stored entries only. */
  lemma StoredOnBoard(order: seq<string>, scores: map<string, PlayerScore>, limit: int)
    requires forall i :: 0 <= i < |order| ==> order[i] in scores
    requires forall k :: k in scores ==> scores[k].userId == k
    ensures var board := Leaderboard(Entries(order, scores), limit);
      forall q :: q in board ==> q.userId in scores && scores[q.userId] == q
  {
    var entries := Entries(order, scores);
    var board := Leaderboard(entries, limit);
    forall q | q in board
      ensures q.userId in scores && scores[q.userId] == q
    {
      LeaderboardCorrect(entries, limit);
      assert q in entries;
      var i :| 0 <= i < |entries| && entries[i] == q;
    }
  }

  /** No stored player left off the leaderboard of a store scores more than one on it. */
  lemma StoredOffBoard(order: seq<string>, scores: map<string, PlayerScore>, limit: int)
    requires forall i :: 0 <= i < |order| ==> order[i] in scores
    requires forall k :: k in scores ==> k in order
    ensures var board := Leaderboard(Entries(order, scores), limit);
      forall q, k :: q in board && k in scores && scores[k] !in board ==> q.score >= scores[k].score
  {
    var entries := Entries(order, scores);
    var board := Leaderboard(entries, limit);
    forall q, k | q in board && k in scores && scores[k] !in board
      ensures q.score >= scores[k].score
    {
      var i :| 0 <= i < |order| && order[i] == k;
      assert entries[i] == scores[k];
      assert scores[k] in multiset(entries) - multiset(board);
    }
  }

  /** The store's fields as one value. */
  datatype Board = Board(scores: map<string, PlayerScore>, order: seq<string>, globalScore: int)

  const EmptyBoard := Board(map[], [], 0)

  /**
   * `order` lists every key of `scores` once, each entry carries its own key
   * and a positive score, and the global counter is the sum of all scores.
   */
  ghost predicate BoardInv(b: Board)
  {
    && (forall i :: 0 <= i < |b.order| ==> b.order[i] in b.scores)
    && (forall k :: k in b.scores ==> k in b.order)
    && (forall i, j :: 0 <= i < j < |b.order| ==> b.order[i] != b.order[j])
    && (forall k :: k in b.scores ==> b.scores[k].userId == k && b.scores[k].score >= 1)
    && b.globalScore == SumScores(Entries(b.order, b.scores))
  }

  /** `incrementScore`: a new player starts at 1 under the given name, a known one gains 1. */
  function IncrementSpec(b: Board, userId: string, username: string, now: int): (r: (IncrementResult, Board))
    ensures userId in r.1.scores
    ensures r.1.scores[userId].score == (if userId in b.scores then b.scores[userId].score else 0) + 1
    ensures r.1.globalScore == b.globalScore + 1
    ensures r.0 == IncrementResult(r.1.scores[userId].score, r.1.globalScore)
  {
    var entry :=
      if userId in b.scores then b.scores[userId].(score := b.scores[userId].score + 1, lastUpdated := now)
      else PlayerScore(userId, username, 1, now);
    var order := if userId in b.scores then b.order else b.order + [userId];
    (IncrementResult(entry.score, b.globalScore + 1), Board(b.scores[userId := entry], order, b.globalScore + 1))
  }

  /** A click keeps the invariant: in particular the counter stays the sum of the scores. */
  lemma IncrementPreservesInv(b: Board, userId: string, username: string, now: int)
    requires BoardInv(b)
    ensures BoardInv(IncrementSpec(b, userId, username, now).1)
  {
    var t := IncrementSpec(b, userId, username, now).1;
    if userId in b.scores {
      var j :| 0 <= j < |b.order| && b.order[j] == userId;
      BumpKeepsInv(b, j, t.scores[userId]);
    } else {
      AddKeepsInv(b, userId, t.scores[userId]);
    }
  }

  lemma BumpKeepsInv(b: Board, j: nat, entry: PlayerScore)
    requires BoardInv(b) && j < |b.order|
    requires entry.userId == b.order[j] && entry.score == b.scores[b.order[j]].score + 1
    ensures BoardInv(Board(b.scores[b.order[j] := entry], b.order, b.globalScore + 1))
  {
    BumpSum(b.order, b.scores, j, entry);
  }

  /** Raising the score of the entry at position `j` of the order by one raises the sum by one. */
  lemma BumpSum(order: seq<string>, scores: map<string, PlayerScore>, j: nat, entry: PlayerScore)
    requires forall i :: 0 <= i < |order| ==> order[i] in scores
    requires forall i, k :: 0 <= i < k < |order| ==> order[i] != order[k]
    requires j < |order| && entry.score == scores[order[j]].score + 1
    ensures forall i :: 0 <= i < |order| ==> order[i] in scores[order[j] := entry]
    ensures SumScores(Entries(order, scores[order[j] := entry])) == SumScores(Entries(order, scores)) + 1
  {
    var ps := Entries(order, scores);
    EntriesUpdate(order, scores, j, entry);
    SumScoresUpdate(ps, j, entry);
  }

  lemma AddKeepsInv(b: Board, userId: string, entry: PlayerScore)
    requires BoardInv(b) && userId !in b.scores
    requires entry.userId == userId && entry.score == 1
    ensures BoardInv(Board(b.scores[userId := entry], b.order + [userId], b.globalScore + 1))
  {
    var order := b.order + [userId];
    EntriesAdd(b.order, b.scores, userId, entry);
    SumScoresAppend(Entries(b.order, b.scores), entry);
    forall i, j | 0 <= i < j < |order|
      ensures order[i] != order[j]
    {
      if j == |b.order| {
        assert order[i] in b.scores;
      }
    }
  }

  /**
   * What a click does for the player and the others: the player's score goes
   * up by exactly 1 (from 0 for a newcomer), the stored name is the first one
   * seen, every other entry and the insertion order of earlier players are
   * unchanged, and both returned numbers are the new stored values.
   */
  lemma IncrementEffects(b: Board, userId: string, username: string, now: int)
    requires BoardInv(b)
    ensures var (result, t) := IncrementSpec(b, userId, username, now);
      && userId in t.scores
      && t.scores[userId].score == (if userId in b.scores then b.scores[userId].score else 0) + 1
      && t.scores[userId].username == (if userId in b.scores then b.scores[userId].username else username)
      && t.scores[userId].lastUpdated == now
      && (forall k :: k in b.scores && k != userId ==> k in t.scores && t.scores[k] == b.scores[k])
      && t.scores.Keys == b.scores.Keys + {userId}
      && t.order[..|b.order|] == b.order
      && result == IncrementResult(t.scores[userId].score, t.globalScore)
      && t.globalScore == b.globalScore + 1
  {
  }

  /** A click adds exactly 1 to the sum of all scores. */
  lemma IncrementAddsOne(b: Board, userId: string, username: string, now: int)
    requires BoardInv(b)
    ensures var t := IncrementSpec(b, userId, username, now).1;
      SumScores(Entries(t.order, t.scores)) == SumScores(Entries(b.order, b.scores)) + 1
  {
    IncrementPreservesInv(b, userId, username, now);
  }

  class GameStore {
    var scores: map<string, PlayerScore>
    /** The keys of `scores` in the order they were first inserted. */
    var order: seq<string>
    var globalScore: int

    function State(): Board
      reads this
    {
      Board(scores, order, globalScore)
    }

    ghost predicate Valid()
      reads this
    {
      BoardInv(State())
    }

    constructor ()
      ensures Valid() && State() == EmptyBoard
    {
      scores := map[];
      order := [];
      globalScore := 0;
    }

    method IncrementScore(userId: string, username: string, now: int) returns (result: IncrementResult)
      requires Valid()
      modifies this
      ensures Valid()
      ensures (result, State()) == IncrementSpec(old(State()), userId, username, now)
    {
      ghost var next := IncrementSpec(State(), userId, username, now).1;
      var entry;
      if userId in scores {
        var existing := scores[userId];
        entry := existing.(score := existing.score + 1, lastUpdated := now);
      } else {
        entry := PlayerScore(userId, username, 1, now);
        order := order + [userId];
      }
      scores := scores[userId := entry];
      globalScore := globalScore + 1;
      result := IncrementResult(entry.score, globalScore);
      assert scores == next.scores && order == next.order && globalScore == next.globalScore;
      assert State() == next;
      IncrementPreservesInv(old(State()), userId, username, now);
    }

    /**
     * The top `limit` players, highest score first; JavaScript's `slice(0, limit)`
     * also accepts a negative limit, counting from the end.
     */
    method GetLeaderboard(limit: int) returns (board: seq<PlayerScore>)
      requires Valid()
      ensures board == Leaderboard(Entries(order, scores), limit)
      ensures SortedByScore(board)
      ensures limit >= 0 ==> |board| == if limit < |scores| then limit else |scores|
      ensures forall q :: q in board ==> q.userId in scores && scores[q.userId] == q
      ensures DistinctIds(board)
      ensures forall q, k :: q in board && k in scores && scores[k] !in board ==> q.score >= scores[k].score
    {
      var entries := Entries(order, scores);
      board := Leaderboard(entries, limit);
      LeaderboardCorrect(entries, limit);
      KeyCount(order, scores);
      StoredOnBoard(order, scores, limit);
      StoredOffBoard(order, scores, limit);
    }

    method GetPlayerScore(userId: string) returns (score: int)
      requires Valid()
      ensures userId in scores ==> score == scores[userId].score
      ensures score == 0 <==> userId !in scores
    {
      score := if userId in scores then scores[userId].score else 0;
    }

    /** The global counter is the sum of every player's score. */
    method GetGlobalScore() returns (total: int)
      requires Valid()
      ensures total == SumScores(Entries(order, scores))
      ensures total >= |order|
    {
      SumAtLeastCount(Entries(order, scores));
      total := globalScore;
    }
  }

  /** Changing the entry of the `j`-th key changes the `j`-th entry and no other. */
  lemma EntriesUpdate(order: seq<string>, scores: map<string, PlayerScore>, j: nat, p: PlayerScore)
    requires forall i :: 0 <= i < |order| ==> order[i] in scores
    requires forall i, k :: 0 <= i < k < |order| ==> order[i] != order[k]
    requires j < |order|
    ensures forall i :: 0 <= i < |order| ==> order[i] in scores[order[j] := p]
    ensures Entries(order, scores[order[j] := p]) == Entries(order, scores)[j := p]
  {
    var after := Entries(order, scores[order[j] := p]);
    forall i | 0 <= i < |order|
      ensures after[i] == Entries(order, scores)[j := p][i]
    {
      if i != j {
        assert order[i] != order[j];
      }
    }
  }

  /** Inserting a new key appends its entry to the end. */
  lemma EntriesAdd(order: seq<string>, scores: map<string, PlayerScore>, k: string, p: PlayerScore)
    requires forall i :: 0 <= i < |order| ==> order[i] in scores
    requires k !in scores
    ensures forall i :: 0 <= i < |order + [k]| ==> (order + [k])[i] in scores[k := p]
    ensures Entries(order + [k], scores[k := p]) == Entries(order, scores) + [p]
  {
    var after := Entries(order + [k], scores[k := p]);
    forall i | 0 <= i < |order|
      ensures after[i] == Entries(order, scores)[i]
    {
      assert order[i] != k;
    }
  }

  /** A list of distinct keys has as many elements as the set of its keys. */
  lemma {:induction false} DistinctSize(order: seq<string>)
    requires forall i, j :: 0 <= i < j < |order| ==> order[i] != order[j]
    ensures |set i | 0 <= i < |order| :: order[i]| == |order|
  {
    if order != [] {
      var n := |order| - 1;
      DistinctSize(order[..n]);
      assert (set i | 0 <= i < |order| :: order[i]) == (set i | 0 <= i < n :: order[..n][i]) + {order[n]};
    }
  }

  /** Every entry scores at least 1, so the sum is at least the number of entries. */
  lemma {:induction false} SumAtLeastCount(ps: seq<PlayerScore>)
    requires forall i :: 0 <= i < |ps| ==> ps[i].score >= 1
    ensures SumScores(ps) >= |ps|
  {
    if ps != [] {
      SumAtLeastCount(ps[..|ps| - 1]);
    }
  }
}
