/** The per-user score record of the trivia cog, as a value: what one
    answered question does to the table, and what the stats lookup reports. */
module TriviaScores {

  /** `{"correct": c, "total": t}` */
  datatype Score = Score(correct: nat, total: nat)

  /** The entry every first-time player starts from. */
  const Unplayed: Score := Score(0, 0)

  /** What a stored entry satisfies once at least one answer was recorded;
      it makes the success-rate division safe. */
  predicate Consistent(s: Score)
  {
    s.correct <= s.total && s.total >= 1
  }

  predicate TableConsistent(m: map<string, Score>)
  {
    forall u :: u in m ==> Consistent(m[u])
  }

  /** The table after `user` answered one question, correctly or not:
      an absent user starts at 0/0, then the total and (if correct) the
      correct count go up by one. */
  function Recorded(m: map<string, Score>, user: string, isCorrect: bool): (r: map<string, Score>)
    ensures r.Keys == m.Keys + {user}
    ensures var before := if user in m then m[user] else Unplayed;
            && r[user].total == before.total + 1
            && r[user].correct == before.correct + (if isCorrect then 1 else 0)
    ensures forall u :: u in m && u != user ==> r[u] == m[u]
  {
    var s := if user in m then m[user] else Unplayed;
    m[user := Score(if isCorrect then s.correct + 1 else s.correct, s.total + 1)]
  }

  /** Recording an answer keeps every entry consistent. */
  lemma RecordedKeepsConsistent(m: map<string, Score>, user: string, isCorrect: bool)
    requires TableConsistent(m)
    ensures TableConsistent(Recorded(m, user, isCorrect))
  {
  }

  /** One scored answer: who answered and whether they were right. */
  datatype Answer = Answer(user: string, isCorrect: bool)

  /** The table after recording `answers` in order, starting from `m`. */
  function Replay(m: map<string, Score>, answers: seq<Answer>): map<string, Score>
  {
    if answers == [] then m
    else
      var last := answers[|answers| - 1];
      Recorded(Replay(m, answers[..|answers| - 1]), last.user, last.isCorrect)
  }

  /** How many of `answers` are by `user`, and how many of those are correct. */
  function CountBy(answers: seq<Answer>, user: string): nat
  {
    if answers == [] then 0
    else CountBy(answers[..|answers| - 1], user) + (if answers[|answers| - 1].user == user then 1 else 0)
  }

  function CorrectBy(answers: seq<Answer>, user: string): nat
  {
    if answers == [] then 0
    else
      var last := answers[|answers| - 1];
      CorrectBy(answers[..|answers| - 1], user) + (if last.user == user && last.isCorrect then 1 else 0)
  }

  lemma {:induction false} CorrectAtMostCount(answers: seq<Answer>, user: string)
    ensures CorrectBy(answers, user) <= CountBy(answers, user)
  {
    if answers != [] {
      CorrectAtMostCount(answers[..|answers| - 1], user);
    }
  }

  /** Starting from an empty table, a user's entry exists exactly when the
      user answered at least once, and it holds their correct answers over
      the questions they answered. */
  lemma {:induction false} ReplayCounts(answers: seq<Answer>, user: string)
    ensures user in Replay(map[], answers) <==> CountBy(answers, user) > 0
    ensures user in Replay(map[], answers) ==>
              Replay(map[], answers)[user] == Score(CorrectBy(answers, user), CountBy(answers, user))
  {
    if answers != [] {
      ReplayCounts(answers[..|answers| - 1], user);
      CorrectAtMostCount(answers[..|answers| - 1], user);
    }
  }

  /** Any history of recorded answers keeps a consistent table consistent. */
  lemma {:induction false} ReplayKeepsConsistent(m: map<string, Score>, answers: seq<Answer>)
    requires TableConsistent(m)
    ensures TableConsistent(Replay(m, answers))
  {
    if answers != [] {
      ReplayKeepsConsistent(m, answers[..|answers| - 1]);
      var last := answers[|answers| - 1];
      RecordedKeepsConsistent(Replay(m, answers[..|answers| - 1]), last.user, last.isCorrect);
    }
  }

  /** What `!triviascore` reports. */
  datatype Stats = NotAnswered | Answered(correct: nat, total: nat)

  function StatsOf(m: map<string, Score>, user: string): (r: Stats)
    ensures r == NotAnswered <==> user !in m || m[user].total == 0
    ensures r.Answered? ==> r.correct == m[user].correct && r.total == m[user].total
  {
    if user !in m || m[user].total == 0 then NotAnswered
    else Answered(m[user].correct, m[user].total)
  }

  /** In a consistent table, "hasn't answered yet" means "not in the table",
      and a reported record has a non-zero total no smaller than the correct count. */
  lemma StatsOfConsistent(m: map<string, Score>, user: string)
    requires TableConsistent(m)
    ensures StatsOf(m, user) == NotAnswered <==> user !in m
    ensures StatsOf(m, user).Answered? ==>
              StatsOf(m, user).correct <= StatsOf(m, user).total && StatsOf(m, user).total >= 1
  {
  }

  /** Right after answering, a user's stats are reported, with the total one
      higher than before. */
  lemma StatsAfterRecorded(m: map<string, Score>, user: string, isCorrect: bool)
    ensures StatsOf(Recorded(m, user, isCorrect), user).Answered?
    ensures StatsOf(Recorded(m, user, isCorrect), user).total
            == (if user in m then m[user].total else 0) + 1
  {
  }
}
