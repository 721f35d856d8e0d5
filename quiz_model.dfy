/** The `quizzes` table of `lib/models/Quiz.ts`: the question bank of each
    module, its creation defaults, the answer-free projection served to quiz
    takers, and the field list of `update`. */
module QuizModel {
  import opened Wrappers
  import opened JsString
  import opened Sql

  /** A question row; `options` is stored as JSON text and parsed on read, so
      the model keeps the parsed list. */
  datatype Quiz = Quiz(
    id: int, moduleId: int, question: string, options: seq<string>,
    correctOption: int, explanation: string, points: int,
    createdAt: int, updatedAt: int)

  /** `Omit<Quiz, "correct_option" | "explanation">`: what a quiz taker sees. */
  datatype PublicQuestion = PublicQuestion(
    id: int, moduleId: int, question: string, options: seq<string>,
    points: int, createdAt: int, updatedAt: int)

  function Publish(q: Quiz): PublicQuestion {
    PublicQuestion(q.id, q.moduleId, q.question, q.options, q.points, q.createdAt, q.updatedAt)
  }

  /** `CreateQuizData`; `None` is an omitted optional field. */
  datatype CreateQuizData = CreateQuizData(
    moduleId: int, question: string, options: seq<string>, correctOption: int,
    explanation: Option<string>, points: Option<int>)

  /** `Partial<CreateQuizData>`: every field may be omitted. */
  datatype QuizUpdate = QuizUpdate(
    moduleId: Option<int>, question: Option<string>, options: Option<seq<string>>,
    correctOption: Option<int>, explanation: Option<string>, points: Option<int>)

  datatype QuizColumn = QuestionColumn | OptionsColumn | CorrectOptionColumn | ExplanationColumn | PointsColumn

  function QuizColumnName(c: QuizColumn): string {
    match c
    case QuestionColumn => "question"
    case OptionsColumn => "options"
    case CorrectOptionColumn => "correct_option"
    case ExplanationColumn => "explanation"
    case PointsColumn => "points"
  }

  /** The question part of the `SET` list: `question` when truthy, `options`
      (an array, truthy even when empty) as JSON, and `correct_option` whenever
      defined. */
  function QuestionAssignments(u: QuizUpdate): seq<Assignment<QuizColumn>> {
    (if Truthy(u.question) then [Assignment(QuestionColumn, SqlText(u.question.value))] else [])
    + (if u.options.Some? then [Assignment(OptionsColumn, SqlJson(u.options.value))] else [])
    + (if u.correctOption.Some? then [Assignment(CorrectOptionColumn, SqlInt(u.correctOption.value))] else [])
  }

  /** The answer part: `explanation` and `points` whenever defined. */
  function AnswerAssignments(u: QuizUpdate): seq<Assignment<QuizColumn>> {
    (if u.explanation.Some? then [Assignment(ExplanationColumn, SqlText(u.explanation.value))] else [])
    + (if u.points.Some? then [Assignment(PointsColumn, SqlInt(u.points.value))] else [])
  }

  /** The `SET` list `update` builds, in the order of the source's checks;
      `module_id` is never written. */
  function QuizAssignments(u: QuizUpdate): seq<Assignment<QuizColumn>> {
    QuestionAssignments(u) + AnswerAssignments(u)
  }

  const QuestionColumns: seq<QuizColumn> := [QuestionColumn, OptionsColumn, CorrectOptionColumn]
  const AnswerColumns: seq<QuizColumn> := [ExplanationColumn, PointsColumn]
  const QuizColumns: seq<QuizColumn> := QuestionColumns + AnswerColumns

  /** Whether `update` writes column `c` for these updates. */
  predicate QuizWrites(u: QuizUpdate, c: QuizColumn) {
    match c
    case QuestionColumn => Truthy(u.question)
    case OptionsColumn => u.options.Some?
    case CorrectOptionColumn => u.correctOption.Some?
    case ExplanationColumn => u.explanation.Some?
    case PointsColumn => u.points.Some?
  }

  lemma QuestionAssignmentColumns(u: QuizUpdate)
    ensures Columns(QuestionAssignments(u)) == Written(QuizWrites, u, QuestionColumns)
  {
    var cs := QuestionColumns;
    assert cs[1..] == [OptionsColumn, CorrectOptionColumn];
    assert cs[1..][1..] == [CorrectOptionColumn];
    assert cs[1..][1..][1..] == [];
  }

  lemma AnswerAssignmentColumns(u: QuizUpdate)
    ensures Columns(AnswerAssignments(u)) == Written(QuizWrites, u, AnswerColumns)
  {
    var cs := AnswerColumns;
    assert cs[1..] == [PointsColumn];
    assert cs[1..][1..] == [];
  }

  /** The columns written are exactly those `u` supplies (`question` only when
      non-empty, 0 and "" included for the others), in the fixed order
      question, options, correct_option, explanation, points. */
  lemma QuizAssignmentColumns(u: QuizUpdate)
    ensures Columns(QuizAssignments(u)) == Written(QuizWrites, u, QuizColumns)
  {
    QuestionAssignmentColumns(u);
    AnswerAssignmentColumns(u);
    WrittenAppend(QuizWrites, u, QuestionColumns, AnswerColumns);
    ColumnsAppend(QuestionAssignments(u), AnswerAssignments(u));
  }

  /** The effect of one `SET` assignment on a row. */
  function SetQuizColumn(q: Quiz, a: Assignment<QuizColumn>): Quiz {
    match (a.column, a.value)
    case (QuestionColumn, SqlText(t)) => q.(question := t)
    case (OptionsColumn, SqlJson(items)) => q.(options := items)
    case (CorrectOptionColumn, SqlInt(n)) => q.(correctOption := n)
    case (ExplanationColumn, SqlText(t)) => q.(explanation := t)
    case (PointsColumn, SqlInt(n)) => q.(points := n)
    case _ => q
  }

  /** The row as the updates should leave it, field by field. */
  function QuizPatched(q: Quiz, u: QuizUpdate): Quiz {
    q.(question := if Truthy(u.question) then u.question.value else q.question,
       options := u.options.GetOr(q.options),
       correctOption := u.correctOption.GetOr(q.correctOption),
       explanation := u.explanation.GetOr(q.explanation),
       points := u.points.GetOr(q.points))
  }

  lemma QuestionAssignmentsApply(q: Quiz, u: QuizUpdate)
    ensures ApplyAll(q, QuestionAssignments(u), SetQuizColumn) ==
      q.(question := if Truthy(u.question) then u.question.value else q.question,
         options := u.options.GetOr(q.options),
         correctOption := u.correctOption.GetOr(q.correctOption))
  {
    var a1 := if Truthy(u.question) then [Assignment(QuestionColumn, SqlText(u.question.value))] else [];
    var a2 := if u.options.Some? then [Assignment(OptionsColumn, SqlJson(u.options.value))] else [];
    var a3 := if u.correctOption.Some? then [Assignment(CorrectOptionColumn, SqlInt(u.correctOption.value))] else [];
    ApplyAllAppend(q, a1 + a2, a3, SetQuizColumn);
    ApplyAllAppend(q, a1, a2, SetQuizColumn);
  }

  lemma AnswerAssignmentsApply(q: Quiz, u: QuizUpdate)
    ensures ApplyAll(q, AnswerAssignments(u), SetQuizColumn) ==
      q.(explanation := u.explanation.GetOr(q.explanation),
         points := u.points.GetOr(q.points))
  {
    var a1 := if u.explanation.Some? then [Assignment(ExplanationColumn, SqlText(u.explanation.value))] else [];
    var a2 := if u.points.Some? then [Assignment(PointsColumn, SqlInt(u.points.value))] else [];
    ApplyAllAppend(q, a1, a2, SetQuizColumn);
  }

  /** Executing the `SET` list on a row changes exactly the supplied fields to
      the supplied values and leaves id, module and timestamps alone. */
  lemma QuizAssignmentsApply(q: Quiz, u: QuizUpdate)
    ensures ApplyAll(q, QuizAssignments(u), SetQuizColumn) == QuizPatched(q, u)
  {
    ApplyAllAppend(q, QuestionAssignments(u), AnswerAssignments(u), SetQuizColumn);
    QuestionAssignmentsApply(q, u);
    AnswerAssignmentsApply(ApplyAll(q, QuestionAssignments(u), SetQuizColumn), u);
  }

  class QuizTable {
    var rows: map<int, Quiz>
    var nextId: nat

    /** Ids are auto-increment keys below `nextId`, stored in their rows. */
    ghost predicate Valid()
      reads this
    {
      nextId >= 1 && forall k :: k in rows ==> 1 <= k < nextId && rows[k].id == k
    }

    constructor()
      ensures Valid() && rows == map[] && nextId == 1
    {
      rows := map[];
      nextId := 1;
    }

    /** `findByModuleId`: the module's questions in creation order. */
    function FindByModuleId(moduleId: int): seq<Quiz>
      reads this
    {
      Select(rows, (q: Quiz) => q.moduleId == moduleId, nextId)
    }

    /** `findQuestionsForModule`: the same query over the projected columns. */
    function FindQuestionsForModule(moduleId: int): seq<PublicQuestion>
      reads this
    {
      Select(map k | k in rows :: Publish(rows[k]), (p: PublicQuestion) => p.moduleId == moduleId, nextId)
    }

    /** `findById`. */
    function FindById(id: int): (r: Option<Quiz>)
      reads this
      ensures r.Some? <==> id in rows
      ensures r.Some? ==> r.value == rows[id]
    {
      if id in rows then Some(rows[id]) else None
    }

    /** A module's bank holds exactly the rows of that module, in strictly
        ascending id order. */
    lemma FindByModuleIdSpec(moduleId: int)
      requires Valid()
      ensures forall q :: q in FindByModuleId(moduleId) <==> q in rows.Values && q.moduleId == moduleId
      ensures forall i, j :: 0 <= i < j < |FindByModuleId(moduleId)| ==> FindByModuleId(moduleId)[i].id < FindByModuleId(moduleId)[j].id
    {
      var keep := (q: Quiz) => q.moduleId == moduleId;
      SelectIdsSpec(rows, keep, nextId);
      SelectIdsInRows(rows, keep, nextId);
      var ids := SelectIds(rows, keep, nextId);
      var r := FindByModuleId(moduleId);
      assert forall i :: 0 <= i < |r| ==> r[i] == rows[ids[i]] && r[i].id == ids[i];
      forall q | q in rows.Values && q.moduleId == moduleId
        ensures q in r
      {
        var k :| k in rows && rows[k] == q;
        assert k in ids;
        var i :| 0 <= i < |ids| && ids[i] == k;
        assert r[i] == q;
      }
    }

    /** The quiz taker's list is the bank with `correct_option` and
        `explanation` cut from every question, question for question. */
    lemma QuestionsAreBankWithoutAnswers(moduleId: int)
      ensures |FindQuestionsForModule(moduleId)| == |FindByModuleId(moduleId)|
      ensures forall i :: 0 <= i < |FindByModuleId(moduleId)| ==>
        FindQuestionsForModule(moduleId)[i] == Publish(FindByModuleId(moduleId)[i])
    {
      var published := map k | k in rows :: Publish(rows[k]);
      var keep := (q: Quiz) => q.moduleId == moduleId;
      var keepP := (p: PublicQuestion) => p.moduleId == moduleId;
      SameSelection(rows, published, keep, keepP, nextId);
    }

    /** `create`: inserts with `explanation` defaulting to "" and `points` to
        1 and returns the stored row (the re-read finds it, so the
        `"Failed to create quiz"` error cannot occur). */
    method Create(data: CreateQuizData, now: int) returns (q: Quiz)
      requires Valid()
      modifies this
      ensures Valid()
      ensures q == Quiz(old(nextId), data.moduleId, data.question, data.options, data.correctOption,
                        data.explanation.GetOr(""), data.points.GetOr(1), now, now)
      ensures rows == old(rows)[q.id := q] && nextId == old(nextId) + 1
    {
      var explanation := if data.explanation.Some? then data.explanation.value else "";
      var points := if data.points.Some? then data.points.value else 1;
      q := Quiz(nextId, data.moduleId, data.question, data.options, data.correctOption, explanation, points, now, now);
      rows := rows[nextId := q];
      nextId := nextId + 1;
    }

    /** `update(id, updates)`: with nothing to set no statement is issued;
        otherwise the statement binds the values and then the id, and the row
        (if there is one) takes the new values and `updated_at`. */
    method Update(id: int, u: QuizUpdate, now: int) returns (issued: Option<UpdateStatement>)
      requires Valid()
      modifies this
      ensures Valid() && nextId == old(nextId)
      ensures issued.None? <==> QuizAssignments(u) == []
      ensures issued.Some? ==> issued.value == Statement(QuizAssignments(u), QuizColumnName, id)
      ensures rows == if issued.None? || id !in old(rows) then old(rows)
                      else old(rows)[id := QuizPatched(old(rows)[id], u).(updatedAt := now)]
    {
      var fields, values, a := BuildQuizUpdate(u);
      if |fields| == 0 {
        return None;
      }
      values := values + [SqlInt(id)];
      issued := Some(UpdateStatement(fields, values));
      if id in rows {
        QuizAssignmentsApply(rows[id], u);
        rows := rows[id := ApplyAll(rows[id], a, SetQuizColumn).(updatedAt := now)];
      }
    }

    /** `delete(id)`: removes that row only. */
    method Delete(id: int)
      requires Valid()
      modifies this
      ensures Valid() && nextId == old(nextId)
      ensures rows == old(rows) - {id}
    {
      rows := rows - {id};
    }
  }

  /** The pushes for `question`, `options` and `correct_option`. */
  method PushQuestionUpdates(u: QuizUpdate) returns (fields: seq<string>, values: seq<SqlValue>, a: seq<Assignment<QuizColumn>>)
    ensures a == QuestionAssignments(u)
    ensures fields == SetClauses(a, QuizColumnName) && values == Values(a)
  {
    ghost var a1 := if Truthy(u.question) then [Assignment(QuestionColumn, SqlText(u.question.value))] else [];
    ghost var a2 := if u.options.Some? then [Assignment(OptionsColumn, SqlJson(u.options.value))] else [];
    fields, values, a := [], [], [];
    if Truthy(u.question) {
      fields, values, a := Push(fields, values, a, Assignment(QuestionColumn, SqlText(u.question.value)), QuizColumnName);
    }
    assert a == a1;
    if u.options.Some? {
      fields, values, a := Push(fields, values, a, Assignment(OptionsColumn, SqlJson(u.options.value)), QuizColumnName);
    }
    assert a == a1 + a2;
    if u.correctOption.Some? {
      fields, values, a := Push(fields, values, a, Assignment(CorrectOptionColumn, SqlInt(u.correctOption.value)), QuizColumnName);
    }
  }

  /** The pushes for `explanation` and `points`, after those already made. */
  method PushAnswerUpdates(fields0: seq<string>, values0: seq<SqlValue>, a0: seq<Assignment<QuizColumn>>, u: QuizUpdate)
    returns (fields: seq<string>, values: seq<SqlValue>, a: seq<Assignment<QuizColumn>>)
    requires fields0 == SetClauses(a0, QuizColumnName) && values0 == Values(a0)
    ensures a == a0 + AnswerAssignments(u)
    ensures fields == SetClauses(a, QuizColumnName) && values == Values(a)
  {
    ghost var b1 := if u.explanation.Some? then [Assignment(ExplanationColumn, SqlText(u.explanation.value))] else [];
    ghost var b2 := if u.points.Some? then [Assignment(PointsColumn, SqlInt(u.points.value))] else [];
    fields, values, a := fields0, values0, a0;
    if u.explanation.Some? {
      fields, values, a := Push(fields, values, a, Assignment(ExplanationColumn, SqlText(u.explanation.value)), QuizColumnName);
    }
    assert a == a0 + b1;
    if u.points.Some? {
      fields, values, a := Push(fields, values, a, Assignment(PointsColumn, SqlInt(u.points.value)), QuizColumnName);
    }
    assert a == a0 + (b1 + b2);
  }

  /** The field-by-field part of `update`: one `column = ?` and one value
      pushed per included field, in source order; `a` pairs them up. */
  method BuildQuizUpdate(u: QuizUpdate) returns (fields: seq<string>, values: seq<SqlValue>, a: seq<Assignment<QuizColumn>>)
    ensures a == QuizAssignments(u)
    ensures fields == SetClauses(a, QuizColumnName) && values == Values(a)
  {
    fields, values, a := PushQuestionUpdates(u);
    fields, values, a := PushAnswerUpdates(fields, values, a, u);
  }

  /** Selecting over a column projection picks the same ids as selecting over
      the full rows, when the filter reads only projected columns. */
  lemma {:induction false} SameSelection(rows: map<int, Quiz>, published: map<int, PublicQuestion>,
                                         keep: Quiz -> bool, keepP: PublicQuestion -> bool, n: nat)
    requires published.Keys == rows.Keys
    requires forall k :: k in rows ==> published[k] == Publish(rows[k]) && keepP(published[k]) == keep(rows[k])
    ensures SelectIds(published, keepP, n) == SelectIds(rows, keep, n)
    ensures |Select(published, keepP, n)| == |Select(rows, keep, n)|
    ensures forall i :: 0 <= i < |Select(rows, keep, n)| ==> Select(published, keepP, n)[i] == Publish(Select(rows, keep, n)[i])
    decreases n
  {
    if n > 0 {
      SameSelection(rows, published, keep, keepP, n - 1);
    }
    SelectIdsInRows(rows, keep, n);
  }
}
