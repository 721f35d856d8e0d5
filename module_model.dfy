/** The `modules` table of `lib/models/Module.ts`: training modules, which
    are deleted softly by clearing `is_active`, looked up among active rows
    only, listed with the user's progress, created with defaults and updated
    through a field list. */
module ModuleModel {
  import opened Wrappers
  import opened JsString
  import opened Sql

  datatype Difficulty = Beginner | Intermediate | Advanced

  function DifficultyName(d: Difficulty): string {
    match d
    case Beginner => "beginner"
    case Intermediate => "intermediate"
    case Advanced => "advanced"
  }

  function ParseDifficulty(s: string): (r: Option<Difficulty>)
    ensures r.Some? ==> DifficultyName(r.value) == s
  {
    if s == "beginner" then Some(Beginner)
    else if s == "intermediate" then Some(Intermediate)
    else if s == "advanced" then Some(Advanced)
    else None
  }

  datatype Module = Module(
    id: int, title: string, description: string, content: string,
    durationMinutes: int, difficulty: Difficulty, isActive: bool,
    createdAt: int, updatedAt: int)

  /** `CreateModuleData`; `None` is an omitted optional field. */
  datatype CreateModuleData = CreateModuleData(
    title: string, description: string, content: string,
    durationMinutes: Option<int>, difficulty: Option<Difficulty>, isActive: Option<bool>)

  /** `Partial<CreateModuleData>`. */
  datatype ModuleUpdate = ModuleUpdate(
    title: Option<string>, description: Option<string>, content: Option<string>,
    durationMinutes: Option<int>, difficulty: Option<Difficulty>, isActive: Option<bool>)

  /** The row `create` inserts: defaults of 30 minutes, `"beginner"` and active. */
  function NewModule(id: int, data: CreateModuleData, now: int): Module {
    Module(id, data.title, data.description, data.content,
           data.durationMinutes.GetOr(30), data.difficulty.GetOr(Beginner), data.isActive.GetOr(true),
           now, now)
  }

  /** `SELECT * FROM modules WHERE id = ? AND is_active = TRUE`. */
  function ActiveById(rows: map<int, Module>, id: int): (r: Option<Module>)
    ensures r.Some? <==> id in rows && rows[id].isActive
    ensures r.Some? ==> r.value == rows[id]
  {
    if id in rows && rows[id].isActive then Some(rows[id]) else None
  }

  const CreateError: string := "Failed to create module"

  /** What `create` answers after its insert: the re-read through `findById`,
      which sees active rows only, and the error when it finds nothing. */
  function CreateOutcome(rows: map<int, Module>, id: int): Result<Module, string> {
    match ActiveById(rows, id)
    case Some(m) => Success(m)
    case None => Failure(CreateError)
  }

  /** A module created inactive is stored, and yet `create` reports failure:
      the re-read cannot see an inactive row. */
  lemma CreateInactiveFailsAfterInsert(rows: map<int, Module>, id: int, data: CreateModuleData, now: int)
    requires data.isActive == Some(false)
    ensures var after := rows[id := NewModule(id, data, now)];
      id in after && after[id] == NewModule(id, data, now) && CreateOutcome(after, id) == Failure(CreateError)
  {
  }

  /** The evidently intended answer of `create`: the row just inserted,
      whatever its `is_active`. */
  function CreateOutcomeIntended(rows: map<int, Module>, id: int): Result<Module, string> {
    if id in rows then Success(rows[id]) else Failure(CreateError)
  }

  /** Read back by id alone, every created module is returned as inserted,
      and it agrees with the active-only re-read whenever the module is active. */
  lemma CreateIntendedReturnsInserted(rows: map<int, Module>, id: int, data: CreateModuleData, now: int)
    ensures var after := rows[id := NewModule(id, data, now)];
      && CreateOutcomeIntended(after, id) == Success(NewModule(id, data, now))
      && (NewModule(id, data, now).isActive ==> CreateOutcome(after, id) == CreateOutcomeIntended(after, id))
  {
  }

  /** `delete(id)`: the row stays, with `is_active` false. */
  function SoftDeleted(rows: map<int, Module>, id: int): map<int, Module> {
    if id in rows then rows[id := rows[id].(isActive := false)] else rows
  }

  /** After a soft delete the module is stored but no longer found, and every
      other module is found exactly as before. */
  lemma SoftDeleteHides(rows: map<int, Module>, id: int)
    ensures SoftDeleted(rows, id).Keys == rows.Keys
    ensures ActiveById(SoftDeleted(rows, id), id) == None
    ensures forall k :: k != id ==> ActiveById(SoftDeleted(rows, id), k) == ActiveById(rows, k)
    ensures id in rows ==> SoftDeleted(rows, id)[id] == rows[id].(isActive := false)
  {
  }

  // ---------------------------------------------------------------------
  // update

  datatype ModuleColumn = TitleColumn | DescriptionColumn | ContentColumn | DurationColumn | DifficultyColumn | ActiveColumn

  function ModuleColumnName(c: ModuleColumn): string {
    match c
    case TitleColumn => "title"
    case DescriptionColumn => "description"
    case ContentColumn => "content"
    case DurationColumn => "duration_minutes"
    case DifficultyColumn => "difficulty_level"
    case ActiveColumn => "is_active"
  }

  /** The text part of the `SET` list: `title`, `description` and `content`,
      each only when truthy (so an empty string leaves the column alone). */
  function TextAssignments(u: ModuleUpdate): seq<Assignment<ModuleColumn>> {
    (if Truthy(u.title) then [Assignment(TitleColumn, SqlText(u.title.value))] else [])
    + (if Truthy(u.description) then [Assignment(DescriptionColumn, SqlText(u.description.value))] else [])
    + (if Truthy(u.content) then [Assignment(ContentColumn, SqlText(u.content.value))] else [])
  }

  /** The settings part: `duration_minutes`, `difficulty_level` and
      `is_active`, each whenever defined (so 0 and false are written). */
  function SettingAssignments(u: ModuleUpdate): seq<Assignment<ModuleColumn>> {
    (if u.durationMinutes.Some? then [Assignment(DurationColumn, SqlInt(u.durationMinutes.value))] else [])
    + (if u.difficulty.Some? then [Assignment(DifficultyColumn, SqlText(DifficultyName(u.difficulty.value)))] else [])
    + (if u.isActive.Some? then [Assignment(ActiveColumn, SqlBool(u.isActive.value))] else [])
  }

  /** The `SET` list `update` builds, in the order of the source's checks. */
  function ModuleAssignments(u: ModuleUpdate): seq<Assignment<ModuleColumn>> {
    TextAssignments(u) + SettingAssignments(u)
  }

  const TextColumns: seq<ModuleColumn> := [TitleColumn, DescriptionColumn, ContentColumn]
  const SettingColumns: seq<ModuleColumn> := [DurationColumn, DifficultyColumn, ActiveColumn]
  const ModuleColumns: seq<ModuleColumn> := TextColumns + SettingColumns

  /** Whether `u` supplies a value that `update` writes to column `c`. */
  predicate ModuleWrites(u: ModuleUpdate, c: ModuleColumn) {
    match c
    case TitleColumn => Truthy(u.title)
    case DescriptionColumn => Truthy(u.description)
    case ContentColumn => Truthy(u.content)
    case DurationColumn => u.durationMinutes.Some?
    case DifficultyColumn => u.difficulty.Some?
    case ActiveColumn => u.isActive.Some?
  }

  lemma TextAssignmentColumns(u: ModuleUpdate)
    ensures Columns(TextAssignments(u)) == Written(ModuleWrites, u, TextColumns)
  {
    var cs := TextColumns;
    assert cs[1..] == [DescriptionColumn, ContentColumn];
    assert cs[1..][1..] == [ContentColumn];
    assert cs[1..][1..][1..] == [];
  }

  lemma SettingAssignmentColumns(u: ModuleUpdate)
    ensures Columns(SettingAssignments(u)) == Written(ModuleWrites, u, SettingColumns)
  {
    var cs := SettingColumns;
    assert cs[1..] == [DifficultyColumn, ActiveColumn];
    assert cs[1..][1..] == [ActiveColumn];
    assert cs[1..][1..][1..] == [];
  }

  /** The columns written are exactly those `u` supplies, in the fixed order
      title, description, content, duration_minutes, difficulty_level, is_active. */
  lemma ModuleAssignmentColumns(u: ModuleUpdate)
    ensures Columns(ModuleAssignments(u)) == Written(ModuleWrites, u, ModuleColumns)
  {
    TextAssignmentColumns(u);
    SettingAssignmentColumns(u);
    WrittenAppend(ModuleWrites, u, TextColumns, SettingColumns);
    ColumnsAppend(TextAssignments(u), SettingAssignments(u));
  }

  /** The effect of one `SET` assignment on a row; a difficulty is stored by
      its name and read back through `ParseDifficulty`. */
  function SetModuleColumn(m: Module, a: Assignment<ModuleColumn>): Module {
    match (a.column, a.value)
    case (TitleColumn, SqlText(t)) => m.(title := t)
    case (DescriptionColumn, SqlText(t)) => m.(description := t)
    case (ContentColumn, SqlText(t)) => m.(content := t)
    case (DurationColumn, SqlInt(n)) => m.(durationMinutes := n)
    case (DifficultyColumn, SqlText(t)) => if ParseDifficulty(t).Some? then m.(difficulty := ParseDifficulty(t).value) else m
    case (ActiveColumn, SqlBool(b)) => m.(isActive := b)
    case _ => m
  }

  /** The row as the updates should leave it, field by field. */
  function ModulePatched(m: Module, u: ModuleUpdate): Module {
    m.(title := if Truthy(u.title) then u.title.value else m.title,
       description := if Truthy(u.description) then u.description.value else m.description,
       content := if Truthy(u.content) then u.content.value else m.content,
       durationMinutes := u.durationMinutes.GetOr(m.durationMinutes),
       difficulty := u.difficulty.GetOr(m.difficulty),
       isActive := u.isActive.GetOr(m.isActive))
  }

  lemma DifficultyRoundTrip(d: Difficulty)
    ensures ParseDifficulty(DifficultyName(d)) == Some(d)
  {
  }

  lemma TextAssignmentsApply(m: Module, u: ModuleUpdate)
    ensures ApplyAll(m, TextAssignments(u), SetModuleColumn) ==
      m.(title := if Truthy(u.title) then u.title.value else m.title,
         description := if Truthy(u.description) then u.description.value else m.description,
         content := if Truthy(u.content) then u.content.value else m.content)
  {
    var a1 := if Truthy(u.title) then [Assignment(TitleColumn, SqlText(u.title.value))] else [];
    var a2 := if Truthy(u.description) then [Assignment(DescriptionColumn, SqlText(u.description.value))] else [];
    var a3 := if Truthy(u.content) then [Assignment(ContentColumn, SqlText(u.content.value))] else [];
    ApplyAllAppend(m, a1 + a2, a3, SetModuleColumn);
    ApplyAllAppend(m, a1, a2, SetModuleColumn);
  }

  lemma SettingAssignmentsApply(m: Module, u: ModuleUpdate)
    ensures ApplyAll(m, SettingAssignments(u), SetModuleColumn) ==
      m.(durationMinutes := u.durationMinutes.GetOr(m.durationMinutes),
         difficulty := u.difficulty.GetOr(m.difficulty),
         isActive := u.isActive.GetOr(m.isActive))
  {
    var a1 := if u.durationMinutes.Some? then [Assignment(DurationColumn, SqlInt(u.durationMinutes.value))] else [];
    var a2 := if u.difficulty.Some? then [Assignment(DifficultyColumn, SqlText(DifficultyName(u.difficulty.value)))] else [];
    var a3 := if u.isActive.Some? then [Assignment(ActiveColumn, SqlBool(u.isActive.value))] else [];
    if u.difficulty.Some? {
      DifficultyRoundTrip(u.difficulty.value);
    }
    ApplyAllAppend(m, a1 + a2, a3, SetModuleColumn);
    ApplyAllAppend(m, a1, a2, SetModuleColumn);
  }

  /** Executing the `SET` list on a row changes exactly the supplied fields,
      so an update can also re-activate a soft-deleted module. */
  lemma ModuleAssignmentsApply(m: Module, u: ModuleUpdate)
    ensures ApplyAll(m, ModuleAssignments(u), SetModuleColumn) == ModulePatched(m, u)
  {
    ApplyAllAppend(m, TextAssignments(u), SettingAssignments(u), SetModuleColumn);
    TextAssignmentsApply(m, u);
    SettingAssignmentsApply(ApplyAll(m, TextAssignments(u), SetModuleColumn), u);
  }

  /** The pushes for `title`, `description` and `content`. */
  method PushTextUpdates(u: ModuleUpdate) returns (fields: seq<string>, values: seq<SqlValue>, a: seq<Assignment<ModuleColumn>>)
    ensures a == TextAssignments(u)
    ensures fields == SetClauses(a, ModuleColumnName) && values == Values(a)
  {
    ghost var a1 := if Truthy(u.title) then [Assignment(TitleColumn, SqlText(u.title.value))] else [];
    ghost var a2 := if Truthy(u.description) then [Assignment(DescriptionColumn, SqlText(u.description.value))] else [];
    fields, values, a := [], [], [];
    if Truthy(u.title) {
      fields, values, a := Push(fields, values, a, Assignment(TitleColumn, SqlText(u.title.value)), ModuleColumnName);
    }
    assert a == a1;
    if Truthy(u.description) {
      fields, values, a := Push(fields, values, a, Assignment(DescriptionColumn, SqlText(u.description.value)), ModuleColumnName);
    }
    assert a == a1 + a2;
    if Truthy(u.content) {
      fields, values, a := Push(fields, values, a, Assignment(ContentColumn, SqlText(u.content.value)), ModuleColumnName);
    }
  }

  /** The pushes for `duration_minutes`, `difficulty_level` and `is_active`,
      after those already made. */
  method PushSettingUpdates(fields0: seq<string>, values0: seq<SqlValue>, a0: seq<Assignment<ModuleColumn>>, u: ModuleUpdate)
    returns (fields: seq<string>, values: seq<SqlValue>, a: seq<Assignment<ModuleColumn>>)
    requires fields0 == SetClauses(a0, ModuleColumnName) && values0 == Values(a0)
    ensures a == a0 + SettingAssignments(u)
    ensures fields == SetClauses(a, ModuleColumnName) && values == Values(a)
  {
    ghost var b1 := if u.durationMinutes.Some? then [Assignment(DurationColumn, SqlInt(u.durationMinutes.value))] else [];
    ghost var b2 := if u.difficulty.Some? then [Assignment(DifficultyColumn, SqlText(DifficultyName(u.difficulty.value)))] else [];
    ghost var b3 := if u.isActive.Some? then [Assignment(ActiveColumn, SqlBool(u.isActive.value))] else [];
    fields, values, a := fields0, values0, a0;
    if u.durationMinutes.Some? {
      fields, values, a := Push(fields, values, a, Assignment(DurationColumn, SqlInt(u.durationMinutes.value)), ModuleColumnName);
    }
    assert a == a0 + b1;
    if u.difficulty.Some? {
      fields, values, a := Push(fields, values, a, Assignment(DifficultyColumn, SqlText(DifficultyName(u.difficulty.value))), ModuleColumnName);
    }
    assert a == a0 + b1 + b2;
    if u.isActive.Some? {
      fields, values, a := Push(fields, values, a, Assignment(ActiveColumn, SqlBool(u.isActive.value)), ModuleColumnName);
    }
    assert a == a0 + (b1 + b2 + b3);
  }

  /** The field-by-field part of `update`. */
  method BuildModuleUpdate(u: ModuleUpdate) returns (fields: seq<string>, values: seq<SqlValue>, a: seq<Assignment<ModuleColumn>>)
    ensures a == ModuleAssignments(u)
    ensures fields == SetClauses(a, ModuleColumnName) && values == Values(a)
  {
    fields, values, a := PushTextUpdates(u);
    fields, values, a := PushSettingUpdates(fields, values, a, u);
  }

  // ---------------------------------------------------------------------
  // progress

  /** The user's result row joined to a module: its score, pass flag and time. */
  datatype ResultSummary = ResultSummary(score: real, passed: bool, completedAt: int)

  /** `ModuleProgress`. */
  datatype ModuleProgress = ModuleProgress(moduleId: int, userId: int, completed: bool, score: real, passed: bool, completedAt: int)

  datatype ModuleWithProgress = ModuleWithProgress(entry: Module, progress: Option<ModuleProgress>)

  /** The row mapping of `findAllWithProgress`: `completed` is whether the
      left join found a result row. */
  function WithProgress(m: Module, userId: int, joined: Option<ResultSummary>): ModuleWithProgress {
    ModuleWithProgress(m,
      if joined.Some? then Some(ModuleProgress(m.id, userId, true, joined.value.score, joined.value.passed, joined.value.completedAt))
      else None)
  }

  class ModuleTable {
    var rows: map<int, Module>
    var nextId: nat

    ghost predicate Valid()
      reads this
    {
      nextId >= 1 && forall k :: k in rows ==> 1 <= k < nextId && rows[k].id == k
    }

    constructor()
      ensures Valid() && rows == map[] && nextId == 1
    {
      rows := map[];
      nextId := 1;
    }

    /** `findById`: active modules only. */
    function FindById(id: int): Option<Module>
      reads this
    {
      ActiveById(rows, id)
    }

    /** `findAll`: the active modules. */
    function FindAll(): seq<Module>
      reads this
    {
      Select(rows, (m: Module) => m.isActive, nextId)
    }

    /** `findAll` lists every active module once and nothing else. */
    lemma FindAllSpec()
      requires Valid()
      ensures forall m :: m in FindAll() <==> m in rows.Values && m.isActive
      ensures forall i, j :: 0 <= i < j < |FindAll()| ==> FindAll()[i].id < FindAll()[j].id
    {
      var keep := (m: Module) => m.isActive;
      SelectIdsSpec(rows, keep, nextId);
      SelectIdsInRows(rows, keep, nextId);
      var ids := SelectIds(rows, keep, nextId);
      var r := FindAll();
      assert forall i :: 0 <= i < |r| ==> r[i] == rows[ids[i]] && r[i].id == ids[i];
      forall m | m in rows.Values && m.isActive
        ensures m in r
      {
        var k :| k in rows && rows[k] == m;
        assert k in ids;
        var i :| 0 <= i < |ids| && ids[i] == k;
        assert r[i] == m;
      }
    }

    /** `findAllWithProgress(userId)`, given the user's result for each module
        id as the left join finds it. */
    function FindAllWithProgress(userId: int, resultFor: int -> Option<ResultSummary>): (r: seq<ModuleWithProgress>)
      reads this
      ensures |r| == |FindAll()|
      ensures forall i :: 0 <= i < |r| ==> r[i] == WithProgress(FindAll()[i], userId, resultFor(FindAll()[i].id))
    {
      var ms := FindAll();
      seq(|ms|, i requires 0 <= i < |ms| => WithProgress(ms[i], userId, resultFor(ms[i].id)))
    }

    /** One entry per active module; progress is present exactly when the user
        has a result for the module, and then it names that module and user,
        is completed, and carries the result's score, pass flag and time. */
    lemma FindAllWithProgressSpec(userId: int, resultFor: int -> Option<ResultSummary>)
      ensures |FindAllWithProgress(userId, resultFor)| == |FindAll()|
      ensures forall i :: 0 <= i < |FindAll()| ==>
        var e := FindAllWithProgress(userId, resultFor)[i];
        var m := FindAll()[i];
        && e.entry == m
        && (e.progress.Some? <==> resultFor(m.id).Some?)
        && (e.progress.Some? ==>
              && e.progress.value.moduleId == m.id && e.progress.value.userId == userId
              && e.progress.value.completed
              && e.progress.value.score == resultFor(m.id).value.score
              && e.progress.value.passed == resultFor(m.id).value.passed)
    {
    }

    /** `create`: inserts the row with its defaults, then answers the row
        re-read by id. The re-read here is the corrected one, which does not
        skip an inactive row (see `CreateInactiveFailsAfterInsert`). */
    method Create(data: CreateModuleData, now: int) returns (r: Result<Module, string>)
      requires Valid()
      modifies this
      ensures Valid() && nextId == old(nextId) + 1
      ensures rows == old(rows)[old(nextId) := NewModule(old(nextId), data, now)]
      ensures r == CreateOutcomeIntended(rows, old(nextId))
      ensures r == Success(NewModule(old(nextId), data, now))
    {
      var id := nextId;
      rows := rows[id := NewModule(id, data, now)];
      nextId := nextId + 1;
      if id !in rows {
        return Failure(CreateError);
      }
      r := Success(rows[id]);
    }

    /** `update(id, updates)`. */
    method Update(id: int, u: ModuleUpdate, now: int) returns (issued: Option<UpdateStatement>)
      requires Valid()
      modifies this
      ensures Valid() && nextId == old(nextId)
      ensures issued.None? <==> ModuleAssignments(u) == []
      ensures issued.Some? ==> issued.value == Statement(ModuleAssignments(u), ModuleColumnName, id)
      ensures rows == if issued.None? || id !in old(rows) then old(rows)
                      else old(rows)[id := ModulePatched(old(rows)[id], u).(updatedAt := now)]
    {
      var fields, values, a := BuildModuleUpdate(u);
      if |fields| == 0 {
        return None;
      }
      values := values + [SqlInt(id)];
      issued := Some(UpdateStatement(fields, values));
      if id in rows {
        ModuleAssignmentsApply(rows[id], u);
        rows := rows[id := ApplyAll(rows[id], a, SetModuleColumn).(updatedAt := now)];
      }
    }

    /** `delete(id)`: the soft delete. */
    method Delete(id: int)
      requires Valid()
      modifies this
      ensures Valid() && nextId == old(nextId)
      ensures rows == SoftDeleted(old(rows), id)
    {
      if id in rows {
        rows := rows[id := rows[id].(isActive := false)];
      }
    }
  }
}
