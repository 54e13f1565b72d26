/** The trivia cog's state: the score table it updates in place, with the
    three commands' reads and writes of it. */
module TriviaCog {
  import opened Wrappers
  import opened TriviaRequest
  import opened TriviaAnswers
  import opened TriviaScores
  import opened TriviaLeaderboard

  /** `order` lists the keys of `m` once each: the key order of a Python dict. */
  ghost predicate Indexed(order: seq<string>, m: map<string, Score>)
  {
    && (forall i, j :: 0 <= i < j < |order| ==> order[i] != order[j])
    && m.Keys == set u | u in order
  }

  /** The dictionary's `items()`, in key order. */
  function ItemsOf(order: seq<string>, m: map<string, Score>): (r: seq<Item>)
    requires Indexed(order, m)
    ensures |r| == |order|
    ensures forall i :: 0 <= i < |r| ==> r[i] == (order[i], m[order[i]])
    ensures forall x :: x in r <==> x.0 in m && x.1 == m[x.0]
  {
    var r := seq(|order|, i requires 0 <= i < |order| => (order[i], m[order[i]]));
    assert forall u :: u in m ==> exists i :: 0 <= i < |order| && order[i] == u && r[i] == (u, m[u]);
    r
  }

  /** Inserting a new key at the end keeps the order in step with the map. */
  lemma IndexedInsert(order: seq<string>, m: map<string, Score>, user: string, s: Score)
    requires Indexed(order, m)
    ensures user in m ==> Indexed(order, m[user := s])
    ensures user !in m ==> Indexed(order + [user], m[user := s])
  {
  }

  /** The leaderboard of a consistent table: empty exactly when the table is,
      and every row is a stored entry with a defined success rate. */
  lemma BoardOfTable(order: seq<string>, m: map<string, Score>)
    requires Indexed(order, m) && TableConsistent(m)
    ensures Leaderboard(ItemsOf(order, m)) == NoOnePlayed <==> m == map[]
    ensures var b := Leaderboard(ItemsOf(order, m));
            b.Board? ==>
              forall i :: 0 <= i < |b.rows| ==>
                && b.rows[i].user in m
                && b.rows[i].score == m[b.rows[i].user]
                && Consistent(b.rows[i].score)
  {
    var items := ItemsOf(order, m);
    LeaderboardSpec(items);
    LeaderboardRatesDefined(items);
    if m != map[] {
      var u :| u in m;
      assert (u, m[u]) in items;
    }
    var b := Leaderboard(items);
    if b.Board? {
      forall i | 0 <= i < |b.rows|
        ensures b.rows[i].user in m && b.rows[i].score == m[b.rows[i].user]
      {
        assert Shown(b.rows)[i] in multiset(items);
        assert Shown(b.rows)[i] in items;
      }
    }
  }

  /** How one `!trivia` command ends. */
  datatype Outcome =
    | Rejected(error: RequestError)  // invalid category or difficulty
    | FetchFailed                    // bad HTTP status or non-zero response code
    | ListingFailed                  // more answers than letters: IndexError
    | TimedOut                       // no accepted reply within the timeout
    | Scored(isCorrect: bool)        // a reply was accepted and recorded

  class Trivia {
    /** `trivia_scores`: user id to score. */
    var scores: map<string, Score>
    /** The order in which users were first inserted, which is the order of
        the dictionary's `items()`. */
    var order: seq<string>

    ghost predicate Valid()
      reads this
    {
      Indexed(order, scores) && TableConsistent(scores)
    }

    /** A cog started without a saved score file has an empty table. */
    constructor ()
      ensures Valid() && scores == map[] && order == []
    {
      scores := map[];
      order := [];
    }

    /** The score update after a reply: insert 0/0 for a new user, add one to
        the total, and one to the correct count when the reply picked the
        correct answer. */
    method RecordAnswer(user: string, answerIndex: nat, correctIndex: nat)
      requires Valid()
      modifies this
      ensures Valid()
      ensures scores == Recorded(old(scores), user, answerIndex == correctIndex)
      ensures order == if user in old(scores) then old(order) else old(order) + [user]
    {
      var m, o := scores, order;
      if user !in m {
        m := m[user := Unplayed];
        o := o + [user];
      }
      var s := m[user];
      m := m[user := s.(total := s.total + 1)];
      if answerIndex == correctIndex {
        s := m[user];
        m := m[user := s.(correct := s.correct + 1)];
      }
      assert m == Recorded(scores, user, answerIndex == correctIndex);
      IndexedInsert(order, scores, user, m[user]);
      RecordedKeepsConsistent(scores, user, answerIndex == correctIndex);
      scores, order := m, o;
    }

    /** The end of a question: `None` is the 60-second timeout, which leaves
        the table as it was. */
    method Settle(user: string, reply: Option<nat>, correctIndex: nat)
      requires Valid()
      modifies this
      ensures Valid()
      ensures reply.None? ==> scores == old(scores) && order == old(order)
      ensures reply.Some? ==> scores == Recorded(old(scores), user, reply.value == correctIndex)
      ensures reply.Some? ==> order == if user in old(scores) then old(order) else old(order) + [user]
    {
      if reply.Some? {
        RecordAnswer(user, reply.value, correctIndex);
      }
    }

    /** The `trivia` command for `user` in `channel`. `fetched` is the API's
        question, `None` when the status or the response code is an error;
        `incoming` are the messages that arrive before the timeout.
        `requested` is the query URL, `None` when the arguments are rejected
        and no request is made. */
    method Play(user: string, channel: string, category: string, difficulty: string,
                fetched: Option<Question>, incoming: seq<Message>)
      returns (outcome: Outcome, requested: Option<string>, answers: seq<string>, correctIndex: nat)
      requires Valid()
      modifies this
      ensures Valid()
      ensures requested == if CheckRequest(category, difficulty).Success?
                           then Some(Url(CheckRequest(category, difficulty).value)) else None
      ensures CheckRequest(category, difficulty).Failure? ==>
                outcome == Rejected(CheckRequest(category, difficulty).error)
      ensures CheckRequest(category, difficulty).Success? && fetched.None? ==>
                outcome == FetchFailed
      ensures CheckRequest(category, difficulty).Success? && fetched.Some? ==>
                var q := fetched.value;
                && multiset(answers) == multiset(q.incorrectAnswers + [q.correctAnswer])
                && correctIndex < |answers| && answers[correctIndex] == q.correctAnswer
                && (forall j :: 0 <= j < correctIndex ==> answers[j] != q.correctAnswer)
                && (outcome == ListingFailed <==> |answers| > |Letters|)
                && (|answers| <= |Letters| ==>
                      var reply := FirstReply(incoming, user, channel);
                      if reply.None? then outcome == TimedOut
                      else outcome == Scored(ReplyIndex(reply.value.content) == Some(correctIndex)))
      ensures outcome.Scored? ==>
                && scores == Recorded(old(scores), user, outcome.isCorrect)
                && order == if user in old(scores) then old(order) else old(order) + [user]
      ensures !outcome.Scored? ==> scores == old(scores) && order == old(order)
    {
      requested, answers, correctIndex := None, [], 0;
      var request := CheckRequest(category, difficulty);
      if request.Failure? {
        outcome := Rejected(request.error);
        return;
      }
      requested := Some(Url(request.value));
      if fetched.None? {
        outcome := FetchFailed;
        return;
      }
      answers, correctIndex := SetUpAnswers(fetched.value);
      var text := AnswerText(answers);
      if text.None? {
        outcome := ListingFailed;
        return;
      }
      var reply := FirstReply(incoming, user, channel);
      if reply.None? {
        outcome := TimedOut;
        return;
      }
      var answerIndex := ReplyIndex(reply.value.content);
      Settle(user, answerIndex, correctIndex);
      outcome := Scored(answerIndex == Some(correctIndex));
    }

    /** `!triviascore`: what is reported for `user`. */
    function Stats(user: string): (r: TriviaScores.Stats)
      reads this
      requires Valid()
      ensures r == NotAnswered <==> user !in scores
      ensures r.Answered? ==> r == Answered(scores[user].correct, scores[user].total)
      ensures r.Answered? ==> r.correct <= r.total && r.total >= 1
    {
      StatsOfConsistent(scores, user);
      StatsOf(scores, user)
    }

    /** `!triviatop` over the table's entries in insertion order. */
    function Board(): (b: TriviaLeaderboard.Board)
      reads this
      requires Valid()
      ensures b == NoOnePlayed <==> scores == map[]
      ensures b.Board? ==>
                forall i :: 0 <= i < |b.rows| ==>
                  && b.rows[i].user in scores
                  && b.rows[i].score == scores[b.rows[i].user]
                  && Consistent(b.rows[i].score)
    {
      BoardOfTable(order, scores);
      Leaderboard(ItemsOf(order, scores))
    }
  }
}
