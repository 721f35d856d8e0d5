/** The quiz submission route of `app/api/quiz/submit/route.ts`: validate the
    body, find the module and its question bank, score every submitted
    answer against the bank, derive the percentage and the 80% pass flag,
    keep the best result, and answer the score sheet. */
module QuizSubmit {
  import opened Wrappers
  import opened AuthGate
  import opened Auth
  import opened QuizModel
  import ModuleModel
  import ResultModel

  datatype Answer = Answer(quizId: int, selectedOption: int)

  /** The fields the schema reads: `module_id`, `answers`, `time_spent_minutes`. */
  datatype Submission = Submission(moduleId: int, answers: seq<Answer>, timeSpentMinutes: real)

  /** The request body: not JSON at all, or JSON that has the schema's shape
      (`Some`) or not (`None`). */
  datatype Body = NotJson | Json(parsed: Option<Submission>)

  /** One entry of `detailed_results`. */
  datatype Detail = Detail(
    quizId: int, question: string, selectedOption: int, correctOption: int,
    isCorrect: bool, pointsEarned: int, explanation: string)

  /** The running totals of the scoring loop. */
  datatype Tally = Tally(totalPoints: int, earnedPoints: int, details: seq<Detail>)

  /** `quizzes.find((q) => q.id === answer.quiz_id)`: the first question of the
      bank with that id. */
  function FindQuiz(bank: seq<Quiz>, id: int): (r: Option<Quiz>)
    ensures r.Some? ==> r.value in bank && r.value.id == id
    decreases |bank|
  {
    if bank == [] then None
    else if bank[0].id == id then Some(bank[0])
    else FindQuiz(bank[1..], id)
  }

  /** An answer is unmatched exactly when no question of the bank has its id. */
  lemma {:induction false} FindQuizNone(bank: seq<Quiz>, id: int)
    ensures FindQuiz(bank, id).None? <==> forall q :: q in bank ==> q.id != id
    decreases |bank|
  {
    if bank != [] {
      FindQuizNone(bank[1..], id);
      assert forall q :: q in bank ==> q == bank[0] || q in bank[1..];
    }
  }

  /** The detail recorded for an answer to question `q`. */
  function Mark(q: Quiz, a: Answer): Detail {
    var isCorrect := a.selectedOption == q.correctOption;
    Detail(q.id, q.question, a.selectedOption, q.correctOption, isCorrect,
           if isCorrect then q.points else 0, q.explanation)
  }

  const NoPoints: Tally := Tally(0, 0, [])

  /** What one answer adds to the totals: nothing when it matches no question
      of the bank; otherwise the question's points to the total, the points
      earned, and its detail. */
  function Contribution(bank: seq<Quiz>, a: Answer): Tally {
    match FindQuiz(bank, a.quizId)
    case None => NoPoints
    case Some(q) => Tally(q.points, Mark(q, a).pointsEarned, [Mark(q, a)])
  }

  function Plus(s: Tally, t: Tally): Tally {
    Tally(s.totalPoints + t.totalPoints, s.earnedPoints + t.earnedPoints, s.details + t.details)
  }

  /** The totals of a submission: every answer's contribution, added up in order. */
  function TallyOf(bank: seq<Quiz>, answers: seq<Answer>): Tally
    decreases |answers|
  {
    if answers == [] then NoPoints
    else Plus(Contribution(bank, answers[0]), TallyOf(bank, answers[1..]))
  }

  /** The totals of two batches of answers are the sums of their totals. */
  lemma {:induction false} TallyAppend(bank: seq<Quiz>, a: seq<Answer>, b: seq<Answer>)
    ensures TallyOf(bank, a + b) == Plus(TallyOf(bank, a), TallyOf(bank, b))
    decreases |a|
  {
    if a == [] {
      assert a + b == b;
    } else {
      assert (a + b)[0] == a[0];
      assert (a + b)[1..] == a[1..] + b;
      TallyAppend(bank, a[1..], b);
      var c := Contribution(bank, a[0]);
      assert c.details + (TallyOf(bank, a[1..]).details + TallyOf(bank, b).details)
          == (c.details + TallyOf(bank, a[1..]).details) + TallyOf(bank, b).details;
    }
  }

  /** The scoring loop. */
  method ScoreAnswers(bank: seq<Quiz>, answers: seq<Answer>) returns (totalPoints: int, earnedPoints: int, details: seq<Detail>)
    ensures Tally(totalPoints, earnedPoints, details) == TallyOf(bank, answers)
  {
    totalPoints, earnedPoints, details := 0, 0, [];
    for i := 0 to |answers|
      invariant Tally(totalPoints, earnedPoints, details) == TallyOf(bank, answers[..i])
    {
      TallyAppend(bank, answers[..i], [answers[i]]);
      assert answers[..i + 1] == answers[..i] + [answers[i]];
      var answer := answers[i];
      var quiz := FindQuiz(bank, answer.quizId);
      if quiz.None? {
        continue;
      }
      var isCorrect := answer.selectedOption == quiz.value.correctOption;
      var pointsEarned := if isCorrect then quiz.value.points else 0;
      totalPoints := totalPoints + quiz.value.points;
      earnedPoints := earnedPoints + pointsEarned;
      details := details + [Detail(quiz.value.id, quiz.value.question, answer.selectedOption,
                                   quiz.value.correctOption, isCorrect, pointsEarned, quiz.value.explanation)];
    }
    assert answers[..|answers|] == answers;
  }

  lemma TallySingle(bank: seq<Quiz>, x: Answer)
    ensures TallyOf(bank, [x]) == Contribution(bank, x)
  {
    var c := Contribution(bank, x);
    assert [x][1..] == [];
    assert TallyOf(bank, [x]) == Plus(c, TallyOf(bank, []));
    assert c.details + [] == c.details;
  }

  /** An answer matching no question of the bank changes nothing, wherever
      it stands; a matched one adds its question's points to the total, those
      points to the earned total exactly when the selected option is the
      correct one (no partial or negative credit), and one detail. */
  lemma EachAnswerScoredAlone(bank: seq<Quiz>, a: seq<Answer>, x: Answer, b: seq<Answer>)
    ensures FindQuiz(bank, x.quizId).None? ==> TallyOf(bank, a + [x] + b) == TallyOf(bank, a + b)
    ensures FindQuiz(bank, x.quizId).Some? ==>
      var q := FindQuiz(bank, x.quizId).value;
      var t := TallyOf(bank, a + [x] + b);
      var rest := TallyOf(bank, a + b);
      && t.totalPoints == rest.totalPoints + q.points
      && t.earnedPoints == rest.earnedPoints + (if x.selectedOption == q.correctOption then q.points else 0)
      && t.details == TallyOf(bank, a).details + [Mark(q, x)] + TallyOf(bank, b).details
  {
    TallyAppend(bank, a + [x], b);
    TallyAppend(bank, a, [x]);
    TallyAppend(bank, a, b);
    TallySingle(bank, x);
  }

  /** An answer given twice is scored twice. */
  lemma DuplicateCountsTwice(bank: seq<Quiz>, a: seq<Answer>, x: Answer)
    ensures TallyOf(bank, a + [x, x]).totalPoints == TallyOf(bank, a).totalPoints + 2 * Contribution(bank, x).totalPoints
    ensures TallyOf(bank, a + [x, x]).earnedPoints == TallyOf(bank, a).earnedPoints + 2 * Contribution(bank, x).earnedPoints
  {
    TallyAppend(bank, a, [x, x]);
    TallyAppend(bank, [x], [x]);
    assert [x] + [x] == [x, x];
    TallySingle(bank, x);
  }

  /** With non-negative points, the earned points lie between 0 and the
      total, and the total counts matched answers only. */
  lemma {:induction false} EarnedWithinTotal(bank: seq<Quiz>, answers: seq<Answer>)
    requires forall q :: q in bank ==> q.points >= 0
    ensures 0 <= TallyOf(bank, answers).earnedPoints <= TallyOf(bank, answers).totalPoints
    decreases |answers|
  {
    if answers != [] {
      EarnedWithinTotal(bank, answers[1..]);
    }
  }

  /** Every detail belongs to a question of the bank, is correct exactly when
      the selected option is that question's correct option, and carries the
      question's points when correct and 0 otherwise; there is at most one
      detail per answer. */
  lemma {:induction false} DetailsFaithful(bank: seq<Quiz>, answers: seq<Answer>)
    ensures |TallyOf(bank, answers).details| <= |answers|
    ensures forall d :: d in TallyOf(bank, answers).details ==>
      && (d.isCorrect <==> d.selectedOption == d.correctOption)
      && exists q :: q in bank && q.id == d.quizId && q.correctOption == d.correctOption
                     && d.pointsEarned == (if d.isCorrect then q.points else 0)
    decreases |answers|
  {
    if answers != [] {
      DetailsFaithful(bank, answers[1..]);
      var c := Contribution(bank, answers[0]);
      forall d | d in c.details
        ensures && (d.isCorrect <==> d.selectedOption == d.correctOption)
                && exists q :: q in bank && q.id == d.quizId && q.correctOption == d.correctOption
                               && d.pointsEarned == (if d.isCorrect then q.points else 0)
      {
        var q := FindQuiz(bank, answers[0].quizId).value;
        assert d == Mark(q, answers[0]);
      }
    }
  }

  /** `earnedPoints / totalPoints * 100`, or 0 without points, as an exact
      rational. */
  function Percentage(t: Tally): real {
    if t.totalPoints > 0 then (t.earnedPoints as real / t.totalPoints as real) * 100.0 else 0.0
  }

  predicate Passed(t: Tally) {
    Percentage(t) >= 80.0
  }

  /** The 80% threshold on a ratio of integers, without division. */
  lemma RatioThreshold(e: int, n: int)
    requires n > 0
    ensures (e as real / n as real) * 100.0 >= 80.0 <==> 5 * e >= 4 * n
  {
    var r := e as real / n as real;
    assert r * (n as real) == e as real;
    assert r * 100.0 >= 80.0 <==> r * (n as real) * 100.0 >= 80.0 * (n as real);
  }

  /** A ratio of a part to a positive whole, as a percentage, lies in [0, 100]. */
  lemma RatioRange(e: int, n: int)
    requires 0 <= e <= n && n > 0
    ensures 0.0 <= (e as real / n as real) * 100.0 <= 100.0
  {
    var r := e as real / n as real;
    assert r * (n as real) == e as real;
  }

  /** The pass flag is the integer test `5 * earned >= 4 * total` over a
      positive total; with non-negative points the percentage lies in
      [0, 100]; and a submission with no matched answer (an empty one
      included) scores 0 and fails. */
  lemma PassIff(bank: seq<Quiz>, answers: seq<Answer>)
    ensures var t := TallyOf(bank, answers);
      Passed(t) <==> t.totalPoints > 0 && 5 * t.earnedPoints >= 4 * t.totalPoints
    ensures (forall q :: q in bank ==> q.points >= 0) ==> 0.0 <= Percentage(TallyOf(bank, answers)) <= 100.0
    ensures NoneMatch(bank, answers) ==>
      Percentage(TallyOf(bank, answers)) == 0.0 && !Passed(TallyOf(bank, answers))
  {
    var t := TallyOf(bank, answers);
    if t.totalPoints > 0 {
      RatioThreshold(t.earnedPoints, t.totalPoints);
    }
    if forall q :: q in bank ==> q.points >= 0 {
      EarnedWithinTotal(bank, answers);
      if t.totalPoints > 0 {
        RatioRange(t.earnedPoints, t.totalPoints);
      }
    }
    if NoneMatch(bank, answers) {
      NothingMatched(bank, answers);
    }
  }

  /** No answer of the submission matches a question of the bank. */
  predicate NoneMatch(bank: seq<Quiz>, answers: seq<Answer>) {
    forall i :: 0 <= i < |answers| ==> FindQuiz(bank, answers[i].quizId).None?
  }

  lemma PlusNone()
    ensures Plus(NoPoints, NoPoints) == NoPoints
  {
  }

  lemma {:induction false} NothingMatched(bank: seq<Quiz>, answers: seq<Answer>)
    requires NoneMatch(bank, answers)
    ensures TallyOf(bank, answers) == NoPoints
    decreases |answers|
  {
    if answers != [] {
      assert FindQuiz(bank, answers[0].quizId).None?;
      assert NoneMatch(bank, answers[1..]) by {
        forall i | 0 <= i < |answers| - 1
          ensures FindQuiz(bank, answers[1..][i].quizId).None?
        {
          assert answers[1..][i] == answers[i + 1];
        }
      }
      NothingMatched(bank, answers[1..]);
      PlusNone();
    }
  }

  /** `detailedResults.filter((r) => r.is_correct).length`. */
  function CountCorrect(details: seq<Detail>): (n: nat)
    ensures n <= |details|
    decreases |details|
  {
    if details == [] then 0 else (if details[0].isCorrect then 1 else 0) + CountCorrect(details[1..])
  }

  // ---------------------------------------------------------------------
  // the route

  /** The `result` object of the response, with `detailed_results` and the
      module's id and title. */
  datatype ScoreSheet = ScoreSheet(
    score: real, passed: bool, totalQuestions: int, correctAnswers: int,
    totalPoints: int, earnedPoints: int, timeSpentMinutes: real, certificateEligible: bool,
    details: seq<Detail>, moduleId: int, moduleTitle: string)

  datatype SubmitReply = SubmitError(status: int, error: string) | Submitted(sheet: ScoreSheet)

  const InvalidSubmission: string := "Invalid submission data"
  const ModuleNotFound: string := "Module not found"
  const NoQuestions: string := "No quiz questions found"
  const SubmitFailed: string := "Failed to submit quiz"

  /** The schema's verdict: the right shape and `time_spent_minutes >= 0`. */
  predicate SchemaAccepts(body: Body) {
    body.Json? && body.parsed.Some? && body.parsed.value.timeSpentMinutes >= 0.0
  }

  /** The result stored for a scored submission. */
  function ResultData(userId: int, sub: Submission, bank: seq<Quiz>): ResultModel.CreateResultData {
    var t := TallyOf(bank, sub.answers);
    ResultModel.CreateResultData(userId, sub.moduleId, Percentage(t), |bank|,
                                 CountCorrect(t.details), Passed(t), sub.timeSpentMinutes)
  }

  /** The response for a scored submission: `total_questions` is the size of
      the whole bank, and `certificate_eligible` is the pass flag. */
  function Sheet(sub: Submission, bank: seq<Quiz>, m: ModuleModel.Module): ScoreSheet {
    var t := TallyOf(bank, sub.answers);
    ScoreSheet(Percentage(t), Passed(t), |bank|, CountCorrect(t.details), t.totalPoints, t.earnedPoints,
               sub.timeSpentMinutes, Passed(t), t.details, m.id, m.title)
  }

  /** What the response reports: eligibility is the pass flag, which holds
      exactly at 80% of a non-zero total; at most one detail per answer and
      at most one correct count per detail; the question count is the bank's. */
  lemma SheetMeaning(sub: Submission, bank: seq<Quiz>, m: ModuleModel.Module)
    ensures var s := Sheet(sub, bank, m);
      && s.certificateEligible == s.passed
      && (s.passed <==> s.totalPoints > 0 && 5 * s.earnedPoints >= 4 * s.totalPoints)
      && s.correctAnswers <= |s.details| <= |sub.answers|
      && s.totalQuestions == |bank|
  {
    PassIff(bank, sub.answers);
    DetailsFaithful(bank, sub.answers);
  }

  /** `POST /api/quiz/submit` behind `requireAuth`. The checks run in order:
      authentication (401), a body that is not JSON (the `request.json()`
      failure caught as 500), the schema (400), the active module (404), a
      non-empty bank (404). Only then is anything scored or stored. */
  method Submit(modules: ModuleModel.ModuleTable, quizzes: QuizTable, results: ResultModel.ResultTable,
                cookie: Option<string>, authorization: Option<string>, verify: TokenVerifier,
                body: Body, now: int) returns (reply: SubmitReply)
    requires results.Valid()
    modifies results
    ensures results.Valid()
    ensures var auth := AuthenticateRequest(cookie, authorization, verify);
      && (auth.Unauthenticated? ==> reply == SubmitError(401, auth.error))
      && (auth.Authenticated? && body.NotJson? ==> reply == SubmitError(500, SubmitFailed))
      && (auth.Authenticated? && body.Json? && !SchemaAccepts(body) ==> reply == SubmitError(400, InvalidSubmission))
      && (auth.Authenticated? && SchemaAccepts(body) && modules.FindById(body.parsed.value.moduleId).None? ==>
            reply == SubmitError(404, ModuleNotFound))
      && (auth.Authenticated? && SchemaAccepts(body) && modules.FindById(body.parsed.value.moduleId).Some?
          && quizzes.FindByModuleId(body.parsed.value.moduleId) == [] ==>
            reply == SubmitError(404, NoQuestions))
      && (auth.Authenticated? && SchemaAccepts(body) && modules.FindById(body.parsed.value.moduleId).Some?
          && quizzes.FindByModuleId(body.parsed.value.moduleId) != [] ==>
            reply.Submitted?)
    ensures reply.SubmitError? ==> results.rows == old(results.rows) && results.nextId == old(results.nextId)
    ensures reply.Submitted? ==>
      var auth := AuthenticateRequest(cookie, authorization, verify);
      var sub := body.parsed.value;
      var bank := quizzes.FindByModuleId(sub.moduleId);
      && auth.Authenticated? && SchemaAccepts(body)
      && modules.FindById(sub.moduleId).Some? && bank != []
      && reply.sheet == Sheet(sub, bank, modules.FindById(sub.moduleId).value)
      && ResultModel.Snapshot(results.rows, results.nextId)
         == ResultModel.Upserted(old(ResultModel.Snapshot(results.rows, results.nextId)),
                                 ResultData(auth.user.userId, sub, bank), now)
  {
    var auth := AuthenticateRequest(cookie, authorization, verify);
    if auth.Unauthenticated? {
      return SubmitError(401, auth.error);
    }
    if body.NotJson? {
      return SubmitError(500, SubmitFailed);
    }
    if !SchemaAccepts(body) {
      return SubmitError(400, InvalidSubmission);
    }
    var sub := body.parsed.value;
    var m := modules.FindById(sub.moduleId);
    if m.None? {
      return SubmitError(404, ModuleNotFound);
    }
    var bank := quizzes.FindByModuleId(sub.moduleId);
    if |bank| == 0 {
      return SubmitError(404, NoQuestions);
    }
    var totalPoints, earnedPoints, details := ScoreAnswers(bank, sub.answers);
    var t := Tally(totalPoints, earnedPoints, details);
    var percentage := Percentage(t);
    var passed := percentage >= 80.0;
    var correct := CountCorrect(details);
    var _ := results.CreateOrUpdate(ResultModel.CreateResultData(auth.user.userId, sub.moduleId, percentage, |bank|,
                                                                 correct, passed, sub.timeSpentMinutes), now);
    reply := Submitted(ScoreSheet(percentage, passed, |bank|, correct, totalPoints, earnedPoints,
                                  sub.timeSpentMinutes, passed, details, m.value.id, m.value.title));
  }
}
