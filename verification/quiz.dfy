/** Quizzes attached to videos and the grading of a submitted attempt.
    A quiz stores its questions as JSON objects; an attempt maps the string
    form of a question's id to the submitted answer. Grading walks the
    questions in order: an unanswered question scores nothing; a
    multiple-choice question scores when the answer equals the id of the
    first choice flagged correct; any other question scores when the answer,
    stripped of whitespace, is non-empty. The score is the percentage of
    scoring questions among ALL questions, and 0 for a quiz without any. */
module Quizzes {
  import opened Wrappers
  import Text
  import Listing
  import Percent

  /** One choice of a multiple-choice question. */
  datatype Choice = Choice(id: Value, text: string, isCorrect: bool)

  /** `choices` is absent (`None`) for a short-answer question. */
  datatype Question = Question(id: Value, text: string, questionType: string, choices: Option<seq<Choice>>)

  datatype Quiz = Quiz(title: string, videoId: Id, questions: seq<Question>)

  /** The `responses` object of an attempt: question id (as a string) to
      answer. */
  type Responses = map<string, Value>

  const MultipleChoice: string := "multiple_choice"

  /** `str(question['id'])`. */
  function Key(q: Question): string {
    match q.id
    case VInt(i) => Text.IntToString(i)
    case VStr(s) => s
  }

  /** The position of the first choice flagged correct, if any. */
  function FirstCorrectAt(cs: seq<Choice>): (r: Option<nat>)
    ensures r.None? <==> forall i :: 0 <= i < |cs| ==> !cs[i].isCorrect
    ensures r.Some? ==> r.value < |cs| && cs[r.value].isCorrect &&
                        forall j :: 0 <= j < r.value ==> !cs[j].isCorrect
  {
    if cs == [] then None
    else if cs[0].isCorrect then Some(0)
    else
      match FirstCorrectAt(cs[1..])
      case None => None
      case Some(i) => Some(i + 1)
  }

  /** `next(c for c in choices if c['is_correct'], None)`. */
  function FirstCorrect(cs: seq<Choice>): (r: Option<Choice>)
    ensures r.None? <==> forall i :: 0 <= i < |cs| ==> !cs[i].isCorrect
    ensures r.Some? ==> exists i :: 0 <= i < |cs| && cs[i] == r.value && cs[i].isCorrect &&
                          forall j :: 0 <= j < i ==> !cs[j].isCorrect
  {
    match FirstCorrectAt(cs)
    case None => None
    case Some(i) => Some(cs[i])
  }

  /** Grading this question raises: a multiple-choice question answered
      while its `choices` is null (iterating `None`), or another question
      answered with a non-string (`.strip()` on a number). */
  predicate Malformed(q: Question, responses: Responses) {
    && Key(q) in responses
    && (if q.questionType == MultipleChoice then q.choices.None? else responses[Key(q)].VInt?)
  }

  /** Whether one question scores, or the error grading it raises. */
  function Grade(q: Question, responses: Responses): (r: Result<bool>)
    ensures r.Err? <==> Malformed(q, responses)
    ensures r.Err? ==> r.error == ServerError
  {
    if Key(q) !in responses then Ok(false)
    else if q.questionType == MultipleChoice then
      match q.choices
      case None => Err(ServerError)
      case Some(cs) =>
        match FirstCorrect(cs)
        case None => Ok(false)
        case Some(c) => Ok(responses[Key(q)] == c.id)
    else
      match responses[Key(q)]
      case VStr(s) => Ok(Text.Strip(s) != [])
      case VInt(_) => Err(ServerError)
  }

  /** The number of scoring questions among `qs`, or the error of the first
      question whose grading raises. */
  function CountCorrect(qs: seq<Question>, responses: Responses): (r: Result<nat>)
    ensures r.Ok? ==> r.value <= |qs|
    ensures r.Err? ==> r.error == ServerError
    decreases |qs|
  {
    if qs == [] then Ok(0)
    else
      match CountCorrect(qs[..|qs| - 1], responses)
      case Err(e) => Err(e)
      case Ok(n) =>
        match Grade(qs[|qs| - 1], responses)
        case Err(e) => Err(e)
        case Ok(b) => Ok(if b then n + 1 else n)
  }

  /** The score of an attempt: 0 for a quiz without questions, otherwise
      `(correct / total) * 100` with `total` counting every question. */
  function Score(quiz: Quiz, responses: Responses): (r: Result<real>)
    ensures r.Ok? ==> 0.0 <= r.value <= 100.0
    ensures |quiz.questions| == 0 ==> r == Ok(0.0)
    ensures |quiz.questions| > 0 ==>
              (r.Ok? <==> CountCorrect(quiz.questions, responses).Ok?) &&
              (r.Ok? ==> Percent.Is(r.value, CountCorrect(quiz.questions, responses).value, |quiz.questions|))
  {
    var total := |quiz.questions|;
    var c := CountCorrect(quiz.questions, responses);
    if total == 0 then Ok(0.0)
    else if c.Err? then Err(c.error)
    else
      Percent.Bounds(c.value, total);
      Ok(Percent.Of(c.value, total))
  }

  /** Once a prefix of the questions raises, grading the whole list raises
      the same error. */
  lemma {:induction false} ErrorPersists(qs: seq<Question>, responses: Responses, k: nat)
    requires k <= |qs|
    requires CountCorrect(qs[..k], responses).Err?
    ensures CountCorrect(qs, responses) == CountCorrect(qs[..k], responses)
    decreases |qs| - k
  {
    if k < |qs| {
      var n := |qs| - 1;
      assert qs[..k + 1][..k] == qs[..k];
      ErrorPersistsStep(qs[..k + 1], responses, k);
      if k + 1 == |qs| {
        assert qs[..k + 1] == qs;
      } else {
        ErrorPersists(qs, responses, k + 1);
      }
    } else {
      assert qs[..k] == qs;
    }
  }

  lemma ErrorPersistsStep(qs: seq<Question>, responses: Responses, k: nat)
    requires k + 1 == |qs|
    requires CountCorrect(qs[..k], responses).Err?
    ensures CountCorrect(qs, responses) == CountCorrect(qs[..k], responses)
  {
  }

  /** The loop of `calculate_quiz_score` over the questions, counting
      scoring ones and stopping at the first one whose grading raises. */
  method CountLoop(qs: seq<Question>, responses: Responses) returns (r: Result<nat>)
    ensures r == CountCorrect(qs, responses)
  {
    var correct := 0;
    var i := 0;
    while i < |qs|
      invariant 0 <= i <= |qs|
      invariant CountCorrect(qs[..i], responses) == Ok(correct)
    {
      var g := Grade(qs[i], responses);
      if g.Err? {
        FailingStep(qs, responses, i);
        ErrorPersists(qs, responses, i + 1);
        return Err(g.error);
      }
      if g.value {
        ScoringStep(qs, responses, i, correct);
        correct := correct + 1;
      } else {
        MissingStep(qs, responses, i, correct);
      }
      i := i + 1;
    }
    assert qs[..|qs|] == qs;
    r := Ok(correct);
  }

  /** `calculate_quiz_score`: 0 for a quiz without questions, otherwise the
      percentage of scoring questions, or the first grading error. */
  method CalculateQuizScore(quiz: Quiz, responses: Responses) returns (r: Result<real>)
    ensures r == Score(quiz, responses)
    ensures r.Ok? ==> 0.0 <= r.value <= 100.0
  {
    var c := CountLoop(quiz.questions, responses);
    if c.Err? {
      r := Err(c.error);
    } else if |quiz.questions| > 0 {
      r := Ok(Percent.Of(c.value, |quiz.questions|));
    } else {
      r := Ok(0.0);
    }
  }

  /** Grading one more question extends the count of a prefix, or raises. */
  lemma CountStep(qs: seq<Question>, responses: Responses, i: nat)
    requires i < |qs| && CountCorrect(qs[..i], responses).Ok?
    ensures var (n, g) := (CountCorrect(qs[..i], responses).value, Grade(qs[i], responses));
      CountCorrect(qs[..i + 1], responses) ==
        match g
        case Err(e) => Err(e)
        case Ok(b) => Ok(if b then n + 1 else n)
  {
    assert qs[..i + 1][..i] == qs[..i];
    assert qs[..i + 1][i] == qs[i];
  }

  /** A scoring question adds one to the count of the prefix before it. */
  lemma ScoringStep(qs: seq<Question>, responses: Responses, i: nat, n: nat)
    requires i < |qs| && CountCorrect(qs[..i], responses) == Ok(n) && Grade(qs[i], responses) == Ok(true)
    ensures CountCorrect(qs[..i + 1], responses) == Ok(n + 1)
  {
    CountStep(qs, responses, i);
  }

  /** A question that does not score keeps the count of the prefix. */
  lemma MissingStep(qs: seq<Question>, responses: Responses, i: nat, n: nat)
    requires i < |qs| && CountCorrect(qs[..i], responses) == Ok(n) && Grade(qs[i], responses) == Ok(false)
    ensures CountCorrect(qs[..i + 1], responses) == Ok(n)
  {
    CountStep(qs, responses, i);
  }

  /** A question whose grading raises makes the count raise that error. */
  lemma FailingStep(qs: seq<Question>, responses: Responses, i: nat)
    requires i < |qs| && CountCorrect(qs[..i], responses).Ok? && Grade(qs[i], responses).Err?
    ensures CountCorrect(qs[..i + 1], responses) == Err(Grade(qs[i], responses).error)
  {
    CountStep(qs, responses, i);
  }

  /** An unanswered question never scores and never raises. */
  lemma UnansweredNeverCounts(q: Question, responses: Responses)
    requires Key(q) !in responses
    ensures Grade(q, responses) == Ok(false)
  {
  }

  /** An answered multiple-choice question with choices scores exactly when
      the answer is the id of the first choice flagged correct. */
  lemma MultipleChoiceIff(q: Question, responses: Responses)
    requires Key(q) in responses && q.questionType == MultipleChoice && q.choices.Some?
    ensures Grade(q, responses).Ok?
    ensures var cs := q.choices.value;
      Grade(q, responses).value <==>
        exists i :: 0 <= i < |cs| && cs[i].isCorrect && (forall j :: 0 <= j < i ==> !cs[j].isCorrect) &&
                    responses[Key(q)] == cs[i].id
  {
    var cs := q.choices.value;
    var fc := FirstCorrect(cs);
    if fc.Some? {
      var i :| 0 <= i < |cs| && cs[i] == fc.value && cs[i].isCorrect &&
        forall j :: 0 <= j < i ==> !cs[j].isCorrect;
      forall i' | 0 <= i' < |cs| && cs[i'].isCorrect && (forall j :: 0 <= j < i' ==> !cs[j].isCorrect)
        ensures i' == i
      {
      }
    }
  }

  /** A multiple-choice question without a choice flagged correct never
      scores. */
  lemma NoFlaggedNeverScores(q: Question, responses: Responses)
    requires q.questionType == MultipleChoice && q.choices.Some?
    requires forall i :: 0 <= i < |q.choices.value| ==> !q.choices.value[i].isCorrect
    ensures Grade(q, responses) == Ok(false)
  {
  }

  /** An answered short-answer question scores exactly when the answer has
      a character that is not whitespace. */
  lemma ShortAnswerIff(q: Question, responses: Responses, s: string)
    requires q.questionType != MultipleChoice && Key(q) in responses && responses[Key(q)] == VStr(s)
    ensures Grade(q, responses).Ok?
    ensures Grade(q, responses).value <==> exists i :: 0 <= i < |s| && !Text.IsSpace(s[i])
  {
    Text.StripEmptyIff(s);
  }

  /** Grading raises exactly when some question is malformed for these
      responses. */
  lemma {:induction false} CountErrorIff(qs: seq<Question>, responses: Responses)
    ensures CountCorrect(qs, responses).Err? <==> exists i :: 0 <= i < |qs| && Malformed(qs[i], responses)
    decreases |qs|
  {
    if qs != [] {
      var init := qs[..|qs| - 1];
      CountErrorIff(init, responses);
      assert forall i :: 0 <= i < |init| ==> init[i] == qs[i];
      if exists i :: 0 <= i < |qs| && Malformed(qs[i], responses) {
        var i :| 0 <= i < |qs| && Malformed(qs[i], responses);
        if i < |init| {
          assert Malformed(init[i], responses);
        }
      }
    }
  }

  /** With no question answered the score is 0. */
  lemma {:induction false} NothingAnsweredCountsZero(qs: seq<Question>, responses: Responses)
    requires forall i :: 0 <= i < |qs| ==> Key(qs[i]) !in responses
    ensures CountCorrect(qs, responses) == Ok(0)
    decreases |qs|
  {
    if qs != [] {
      var n := |qs| - 1;
      var init := qs[..n];
      assert forall i :: 0 <= i < |init| ==> init[i] == qs[i];
      NothingAnsweredCountsZero(init, responses);
      CountStep(qs, responses, n);
      assert Grade(qs[n], responses) == Ok(false);
      assert qs[..n + 1] == qs;
    }
  }

  lemma NothingAnsweredScoresZero(quiz: Quiz, responses: Responses)
    requires forall i :: 0 <= i < |quiz.questions| ==> Key(quiz.questions[i]) !in responses
    ensures Score(quiz, responses) == Ok(0.0)
  {
    NothingAnsweredCountsZero(quiz.questions, responses);
  }

  /** Every question scoring gives exactly 100. */
  lemma {:induction false} AllScoringCountsAll(qs: seq<Question>, responses: Responses)
    requires forall i :: 0 <= i < |qs| ==> Grade(qs[i], responses) == Ok(true)
    ensures CountCorrect(qs, responses) == Ok(|qs|)
    decreases |qs|
  {
    if qs != [] {
      var n := |qs| - 1;
      var init := qs[..n];
      assert forall i :: 0 <= i < |init| ==> init[i] == qs[i];
      AllScoringCountsAll(init, responses);
      ScoringStep(qs, responses, n, n);
      assert qs[..n + 1] == qs;
    }
  }

  lemma AllScoringScoresHundred(quiz: Quiz, responses: Responses)
    requires |quiz.questions| > 0
    requires forall i :: 0 <= i < |quiz.questions| ==> Grade(quiz.questions[i], responses) == Ok(true)
    ensures Score(quiz, responses) == Ok(100.0)
  {
    AllScoringCountsAll(quiz.questions, responses);
    Percent.Whole(|quiz.questions|);
  }

  /** A quiz with one multiple-choice question, answered with the id of the
      first choice flagged correct, scores 100, wherever that choice sits
      among the others. */
  lemma OneCorrectChoiceScoresHundred(title: string, videoId: Id, qid: int, text: string, cs: seq<Choice>, k: nat)
    requires k < |cs| && cs[k].isCorrect && forall j :: 0 <= j < k ==> !cs[j].isCorrect
    ensures var q := Question(VInt(qid), text, MultipleChoice, Some(cs));
      Score(Quiz(title, videoId, [q]), map[Text.IntToString(qid) := cs[k].id]) == Ok(100.0)
  {
    var q := Question(VInt(qid), text, MultipleChoice, Some(cs));
    var responses := map[Text.IntToString(qid) := cs[k].id];
    MultipleChoiceIff(q, responses);
    assert Grade(q, responses) == Ok(true);
    AllScoringScoresHundred(Quiz(title, videoId, [q]), responses);
  }

  /** The quiz a video's quiz endpoints use: the query's first match, taken
      here as the quiz with the smallest id among those of the video. */
  function VideoQuiz(quizzes: map<Id, Quiz>, videoId: Id): (r: Option<Id>)
    ensures r.None? <==> forall id :: id in quizzes ==> quizzes[id].videoId != videoId
    ensures r.Some? ==> r.value in quizzes && quizzes[r.value].videoId == videoId
    ensures r.Some? ==> forall id :: id in quizzes && quizzes[id].videoId == videoId ==> r.value <= id
  {
    var ids := set id | id in quizzes && quizzes[id].videoId == videoId;
    if ids == {} then
      assert forall id :: id in quizzes ==> id !in ids;
      None
    else
      var a := Listing.Ascending(ids);
      assert |a| > 0 by {
        var x := Listing.Member(ids);
        assert x in a;
      }
      assert forall id :: id in ids ==> a[0] <= id by {
        forall id | id in ids ensures a[0] <= id {
          var k :| 0 <= k < |a| && a[k] == id;
          assert k == 0 || a[0] < a[k];
        }
      }
      assert forall id :: id in quizzes && quizzes[id].videoId == videoId ==> id in ids;
      Some(a[0])
  }

  /** `GET /videos/{id}/quiz`. */
  function GetVideoQuiz(quizzes: map<Id, Quiz>, videoId: Id): (r: Result<(Id, Quiz)>)
    ensures r.Err? <==> forall id :: id in quizzes ==> quizzes[id].videoId != videoId
    ensures r.Err? ==> r.error == NotFound
    ensures r.Ok? ==> r.value.0 in quizzes && r.value.1 == quizzes[r.value.0] && r.value.1.videoId == videoId
  {
    match VideoQuiz(quizzes, videoId)
    case None => Err(NotFound)
    case Some(id) => Ok((id, quizzes[id]))
  }

  /** The body of an attempt. Its `quiz_id` is not used by the handler. */
  datatype AttemptCreate = AttemptCreate(quizId: Id, responses: Responses)

  /** A stored attempt. */
  datatype Attempt = Attempt(userId: Id, quizId: Id, responses: Responses, score: real)

  /** `POST /videos/{id}/quiz/attempt` by user `userId`: 404 when the video
      has no quiz; otherwise the attempt is graded against the video's quiz
      and stored under the new key `id`, with that quiz's id whatever the
      body said. */
  function SubmitQuizAttempt(quizzes: map<Id, Quiz>, attempts: map<Id, Attempt>, userId: Id,
                             videoId: Id, req: AttemptCreate, id: Id): (r: Result<(map<Id, Attempt>, Attempt)>)
    requires id !in attempts
    ensures r == Err(NotFound) <==> VideoQuiz(quizzes, videoId).None?
    ensures r.Ok? <==> VideoQuiz(quizzes, videoId).Some? &&
                       Score(quizzes[VideoQuiz(quizzes, videoId).value], req.responses).Ok?
    ensures r.Ok? ==> r.value.1.quizId == VideoQuiz(quizzes, videoId).value
    ensures r.Ok? ==> var a := r.value.1;
              && r.value.0 == attempts[id := a]
              && a.userId == userId && a.responses == req.responses
              && a.quizId in quizzes && quizzes[a.quizId].videoId == videoId
              && Score(quizzes[a.quizId], req.responses) == Ok(a.score)
              && 0.0 <= a.score <= 100.0
    ensures r.Err? && r.error != NotFound ==>
              r.error == ServerError && exists q :: q in quizzes && quizzes[q].videoId == videoId &&
                                                  Score(quizzes[q], req.responses).Err?
  {
    match GetVideoQuiz(quizzes, videoId)
    case Err(e) => Err(e)
    case Ok((qid, quiz)) =>
      match Score(quiz, req.responses)
      case Err(e) => Err(e)
      case Ok(s) =>
        var a := Attempt(userId, qid, req.responses, s);
        Ok((attempts[id := a], a))
  }

  /** The attempt of the handler's own test: a video whose only quiz has one
      multiple-choice question with choices 1 (correct) and 2, answered
      `{"1": 1}`, is stored with score 100 and the quiz's id. */
  lemma SubmitCorrectAnswerScoresHundred(videoId: Id, quizId: Id, userId: Id, id: Id, sentQuizId: Id)
    ensures var q := Question(VInt(1), "Test question", MultipleChoice,
                              Some([Choice(VInt(1), "Choice 1", true), Choice(VInt(2), "Choice 2", false)]));
      var quizzes := map[quizId := Quiz("Test Quiz", videoId, [q])];
      var r := SubmitQuizAttempt(quizzes, map[], userId, videoId, AttemptCreate(sentQuizId, map["1" := VInt(1)]), id);
      r.Ok? && r.value.1.score == 100.0 && r.value.1.quizId == quizId
  {
    var cs := [Choice(VInt(1), "Choice 1", true), Choice(VInt(2), "Choice 2", false)];
    var q := Question(VInt(1), "Test question", MultipleChoice, Some(cs));
    var quizzes := map[quizId := Quiz("Test Quiz", videoId, [q])];
    assert Text.IntToString(1) == "1";
    OneCorrectChoiceScoresHundred("Test Quiz", videoId, 1, "Test question", cs, 0);
    assert quizId in quizzes && quizzes[quizId].videoId == videoId;
    var found := VideoQuiz(quizzes, videoId);
    assert found.value in quizzes && quizzes.Keys == {quizId};
  }
}
