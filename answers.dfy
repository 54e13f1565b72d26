/** Set-up of a fetched question's answer list, the lettered answer listing,
    and the check a reply must pass before it is scored. */
module TriviaAnswers {
  import opened Wrappers
  import opened Text

  /** A question as fetched from the API, with HTML entities already decoded. */
  datatype Question = Question(
    category: string,
    difficulty: string,
    text: string,
    correctAnswer: string,
    incorrectAnswers: seq<string>)

  const Letters: seq<string> := ["A", "B", "C", "D"]

  /** Python's `list.index`: the first position holding `x`. */
  function IndexOf(s: seq<string>, x: string): (r: nat)
    requires x in s
    ensures r < |s| && s[r] == x
    ensures forall j :: 0 <= j < r ==> s[j] != x
  {
    if s[0] == x then 0 else IndexOf(s[1..], x) + 1
  }

  /** `random.shuffle`: a Fisher-Yates pass in which each swap partner is an
      arbitrary position at or below the current one. */
  method Shuffle(a: array<string>)
    modifies a
    ensures multiset(a[..]) == old(multiset(a[..]))
  {
    var i := a.Length;
    while i > 1
      invariant 0 <= i <= a.Length
      invariant multiset(a[..]) == old(multiset(a[..]))
    {
      var j :| 0 <= j < i;
      a[i - 1], a[j] := a[j], a[i - 1];
      i := i - 1;
    }
  }

  /** The incorrect answers with the correct one appended, shuffled, and the
      position of the correct answer in the shuffled list. */
  method SetUpAnswers(q: Question) returns (answers: seq<string>, correctIndex: nat)
    ensures multiset(answers) == multiset(q.incorrectAnswers + [q.correctAnswer])
    ensures |answers| == |q.incorrectAnswers| + 1
    ensures correctIndex < |answers| && answers[correctIndex] == q.correctAnswer
    ensures forall j :: 0 <= j < correctIndex ==> answers[j] != q.correctAnswer
  {
    var pool := q.incorrectAnswers + [q.correctAnswer];
    var a := new string[|pool|](i requires 0 <= i < |pool| => pool[i]);
    assert a[..] == pool;
    Shuffle(a);
    answers := a[..];
    assert q.correctAnswer in multiset(pool);
    assert q.correctAnswer in answers;
    correctIndex := IndexOf(answers, q.correctAnswer);
  }

  /** One line of the answer listing: letter, dot, answer. */
  function Line(i: nat, answer: string): string
    requires i < |Letters|
  {
    Letters[i] + ". " + answer + "\n"
  }

  /** The listing of the first |answers| answers, one lettered line each. */
  function Listing(answers: seq<string>): string
    requires |answers| <= |Letters|
  {
    if answers == [] then ""
    else Listing(answers[..|answers| - 1]) + Line(|answers| - 1, answers[|answers| - 1])
  }

  /** The `answer_text` loop. With more answers than letters, Python raises
      IndexError on the fifth line; that is the `None` result here. */
  method AnswerText(answers: seq<string>) returns (text: Option<string>)
    ensures text.Some? <==> |answers| <= |Letters|
    ensures text.Some? ==> text.value == Listing(answers)
  {
    var acc := "";
    var i := 0;
    while i < |answers|
      invariant 0 <= i <= |answers| && i <= |Letters|
      invariant acc == Listing(answers[..i])
    {
      if i >= |Letters| {
        return None;
      }
      assert answers[..i + 1][..i] == answers[..i];
      acc := acc + Line(i, answers[i]);
      i := i + 1;
    }
    assert answers[..i] == answers;
    text := Some(acc);
  }

  /** Each answer's line is the one labelled with the letter at its position. */
  lemma {:induction false} ListingLine(answers: seq<string>, k: nat)
    requires |answers| <= |Letters| && k < |answers|
    ensures IsPrefix(Listing(answers[..k]) + Line(k, answers[k]), Listing(answers))
  {
    if k == |answers| - 1 {
      assert answers[..|answers| - 1] == answers[..k];
    } else {
      var init := answers[..|answers| - 1];
      ListingLine(init, k);
      assert init[..k] == answers[..k];
      assert Listing(answers) == Listing(init) + Line(|answers| - 1, answers[|answers| - 1]);
    }
  }

  /** A chat message, reduced to what the reply check looks at. */
  datatype Message = Message(author: string, channel: string, content: string)

  /** The `check` predicate: same author, same channel, and a content that
      upper-cases to one of the letters. */
  predicate IsReply(m: Message, author: string, channel: string)
    ensures IsReply(m, author, channel) <==>
              && m.author == author && m.channel == channel
              && |m.content| == 1
              && (m.content[0] in UpperLetters || m.content[0] in LowerLetters)
  {
    ReplyAcceptedExactly(m.content);
    m.author == author && m.channel == channel && Upper(m.content) in Letters
  }

  /** `wait_for('message', check=...)`: the first of the messages that arrive
      before the timeout that passes the check, or `None` for the timeout. */
  function FirstReply(incoming: seq<Message>, author: string, channel: string): (r: Option<Message>)
    ensures r.None? <==> forall k :: 0 <= k < |incoming| ==> !IsReply(incoming[k], author, channel)
    ensures r.Some? ==>
              exists k :: 0 <= k < |incoming| && incoming[k] == r.value
                          && IsReply(incoming[k], author, channel)
                          && forall j :: 0 <= j < k ==> !IsReply(incoming[j], author, channel)
  {
    if incoming == [] then None
    else if IsReply(incoming[0], author, channel) then Some(incoming[0])
    else
      var r := FirstReply(incoming[1..], author, channel);
      assert forall k :: 1 <= k < |incoming| ==> incoming[k] == incoming[1..][k - 1];
      r
  }

  /** `answer_index`: the position of the reply's letter. */
  function ReplyIndex(content: string): (r: Option<nat>)
    ensures r.Some? <==> Upper(content) in Letters
    ensures r.Some? ==> r.value < |Letters| && Letters[r.value] == Upper(content)
  {
    if Upper(content) in Letters then Some(IndexOf(Letters, Upper(content))) else None
  }

  const LowerLetters: string := "abcd"
  const UpperLetters: string := "ABCD"

  /** A reply is accepted exactly when it is one character, a letter A-D in
      either case; the index it picks is that letter's position. */
  lemma ReplyIndexExactly(content: string, k: nat)
    requires k < |Letters|
    ensures ReplyIndex(content) == Some(k) <==>
              content == [UpperLetters[k]] || content == [LowerLetters[k]]
  {
    var u := Upper(content);
    if ReplyIndex(content) == Some(k) {
      assert u == Letters[k] && |content| == 1;
      assert UpperChar(content[0]) == UpperLetters[k];
      assert content == [content[0]];
    }
    if content == [UpperLetters[k]] || content == [LowerLetters[k]] {
      assert u == [UpperChar(content[0])];
      assert u == Letters[k];
    }
  }

  lemma ReplyAcceptedExactly(content: string)
    ensures ReplyIndex(content).Some? <==>
              |content| == 1 && (content[0] in UpperLetters || content[0] in LowerLetters)
  {
    if ReplyIndex(content).Some? {
      ReplyIndexExactly(content, ReplyIndex(content).value);
    }
    if |content| == 1 && (content[0] in UpperLetters || content[0] in LowerLetters) {
      var k :| 0 <= k < 4 && (content[0] == UpperLetters[k] || content[0] == LowerLetters[k]);
      assert content == [content[0]];
      ReplyIndexExactly(content, k);
    }
  }
}
