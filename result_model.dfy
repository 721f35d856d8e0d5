/** The `results` table of `lib/models/Result.ts`: one quiz result per user
    and module, overwritten only by a strictly better score; the certificate
    flag; deletion of a user's results; the user's results joined to their
    module titles, newest first; and the zero-defaulted progress summary. */
module ResultModel {
  import opened Wrappers
  import opened Sql
  import ModuleModel

  /** A result row. `score` is the exact percentage. */
  datatype QuizResult = QuizResult(
    id: int, userId: int, moduleId: int, score: real,
    totalQuestions: int, correctAnswers: int, passed: bool,
    timeSpentMinutes: real, certificateGenerated: bool, completedAt: int)

  /** `CreateResultData`. */
  datatype CreateResultData = CreateResultData(
    userId: int, moduleId: int, score: real, totalQuestions: int,
    correctAnswers: int, passed: bool, timeSpentMinutes: real)

  predicate Owns(r: QuizResult, userId: int, moduleId: int) {
    r.userId == userId && r.moduleId == moduleId
  }

  /** `SELECT * FROM results WHERE user_id = ? AND module_id = ?`, the first
      row found in id order. */
  function FirstForPair(rows: map<int, QuizResult>, n: nat, userId: int, moduleId: int): Option<QuizResult> {
    var ids := SelectIds(rows, (r: QuizResult) => Owns(r, userId, moduleId), n);
    SelectIdsInRows(rows, (r: QuizResult) => Owns(r, userId, moduleId), n);
    if ids == [] then None else Some(rows[ids[0]])
  }

  /** At most one row per (user, module). */
  ghost predicate UniquePairs(rows: map<int, QuizResult>) {
    forall j, k :: j in rows && k in rows && Owns(rows[j], rows[k].userId, rows[k].moduleId) ==> j == k
  }

  /** Ids are auto-increment keys below `n`, stored in their rows, and each
      (user, module) pair has at most one row. */
  ghost predicate WellFormed(rows: map<int, QuizResult>, n: nat) {
    && n >= 1
    && (forall k :: k in rows ==> 1 <= k < n && rows[k].id == k)
    && UniquePairs(rows)
  }

  /** The lookup finds a row iff the pair has one, and then that row. */
  lemma FirstForPairSpec(rows: map<int, QuizResult>, n: nat, userId: int, moduleId: int)
    requires WellFormed(rows, n)
    ensures FirstForPair(rows, n, userId, moduleId).Some? <==> exists k :: k in rows && Owns(rows[k], userId, moduleId)
    ensures forall k :: k in rows && Owns(rows[k], userId, moduleId) ==> FirstForPair(rows, n, userId, moduleId) == Some(rows[k])
  {
    var keep := (r: QuizResult) => Owns(r, userId, moduleId);
    SelectIdsSpec(rows, keep, n);
    var ids := SelectIds(rows, keep, n);
    if ids != [] {
      assert ids[0] in ids;
    }
    forall k | k in rows && Owns(rows[k], userId, moduleId)
      ensures FirstForPair(rows, n, userId, moduleId) == Some(rows[k])
    {
      assert k in ids;
    }
  }

  /** The row `createOrUpdate` inserts: certificate not generated, completed now. */
  function Inserted(id: int, d: CreateResultData, now: int): QuizResult {
    QuizResult(id, d.userId, d.moduleId, d.score, d.totalQuestions, d.correctAnswers,
               d.passed, d.timeSpentMinutes, false, now)
  }

  /** The overwrite of a stored row by a better attempt: every scoring field
      and `completed_at`, nothing else. */
  function Improved(r: QuizResult, d: CreateResultData, now: int): QuizResult {
    r.(score := d.score, totalQuestions := d.totalQuestions, correctAnswers := d.correctAnswers,
       passed := d.passed, timeSpentMinutes := d.timeSpentMinutes, completedAt := now)
  }

  /** The table's contents and its next auto-increment id. */
  datatype Snapshot = Snapshot(rows: map<int, QuizResult>, nextId: nat)

  /** What `createOrUpdate` leaves in the table. */
  function Upserted(s: Snapshot, d: CreateResultData, now: int): Snapshot {
    match FirstForPair(s.rows, s.nextId, d.userId, d.moduleId)
    case Some(e) =>
      if d.score > e.score then Snapshot(s.rows[e.id := Improved(e, d, now)], s.nextId)
      else s
    case None => Snapshot(s.rows[s.nextId := Inserted(s.nextId, d, now)], s.nextId + 1)
  }

  /** The row stored for the pair; `None` when there is none. */
  function Stored(s: Snapshot, userId: int, moduleId: int): Option<QuizResult> {
    FirstForPair(s.rows, s.nextId, userId, moduleId)
  }

  function Max(a: real, b: real): real {
    if a >= b then a else b
  }

  /** `createOrUpdate` keeps the table well formed and leaves exactly one row
      for the pair. With no earlier row it is the given result, just
      completed. With a worse (strictly lower) earlier score every scoring
      field and `completed_at` are replaced. Otherwise, ties included, the
      earlier row stays as it was. The stored score is the maximum of the two
      and the certificate flag is never changed. */
  lemma UpsertStoresBest(s: Snapshot, d: CreateResultData, now: int)
    requires WellFormed(s.rows, s.nextId)
    ensures var after := Upserted(s, d, now);
            var prior := Stored(s, d.userId, d.moduleId);
            var stored := Stored(after, d.userId, d.moduleId);
      && WellFormed(after.rows, after.nextId)
      && stored.Some?
      && (prior.None? ==> stored.value == Inserted(s.nextId, d, now) && after.nextId == s.nextId + 1)
      && (prior.Some? && d.score > prior.value.score ==> stored.value == Improved(prior.value, d, now))
      && (prior.Some? && d.score <= prior.value.score ==> after == s)
      && (prior.Some? ==> stored.value.score == Max(prior.value.score, d.score)
                          && stored.value.certificateGenerated == prior.value.certificateGenerated
                          && stored.value.id == prior.value.id
                          && after.nextId == s.nextId)
  {
    var u, m := d.userId, d.moduleId;
    FirstForPairSpec(s.rows, s.nextId, u, m);
    var after := Upserted(s, d, now);
    match FirstForPair(s.rows, s.nextId, u, m)
    case None =>
      var x := Inserted(s.nextId, d, now);
      assert after.rows == s.rows[s.nextId := x];
      assert UniquePairs(after.rows);
      FirstForPairSpec(after.rows, after.nextId, u, m);
    case Some(e) =>
      var k :| k in s.rows && Owns(s.rows[k], u, m);
      assert s.rows[k] == e && k == e.id;
      if d.score > e.score {
        assert after.rows == s.rows[k := Improved(e, d, now)];
        assert UniquePairs(after.rows);
        FirstForPairSpec(after.rows, after.nextId, u, m);
        assert after.rows[k] == Improved(e, d, now);
      }
  }

  /** Rows of other pairs are untouched, and the only possible new key is the
      next id. */
  lemma UpsertOthersUnchanged(s: Snapshot, d: CreateResultData, now: int)
    requires WellFormed(s.rows, s.nextId)
    ensures var after := Upserted(s, d, now);
      && s.rows.Keys <= after.rows.Keys <= s.rows.Keys + {s.nextId}
      && forall k :: k in s.rows && !Owns(s.rows[k], d.userId, d.moduleId) ==> after.rows[k] == s.rows[k]
  {
    FirstForPairSpec(s.rows, s.nextId, d.userId, d.moduleId);
  }

  /** Submitting the same result again, at any time, changes nothing. */
  lemma UpsertIdempotent(s: Snapshot, d: CreateResultData, t1: int, t2: int)
    requires WellFormed(s.rows, s.nextId)
    ensures Upserted(Upserted(s, d, t1), d, t2) == Upserted(s, d, t1)
  {
    UpsertStoresBest(s, d, t1);
    var after := Upserted(s, d, t1);
    UpsertStoresBest(after, d, t2);
  }

  /** A result whose pass flag is the 80% threshold on its own score. */
  predicate PassConsistent(r: QuizResult) {
    r.passed == (r.score >= 80.0)
  }

  /** When every pass flag follows the threshold, a passed module stays
      passed: the stored score never decreases. */
  lemma PassedNeverReverts(s: Snapshot, d: CreateResultData, now: int)
    requires WellFormed(s.rows, s.nextId)
    requires d.passed == (d.score >= 80.0)
    requires Stored(s, d.userId, d.moduleId).Some? ==> PassConsistent(Stored(s, d.userId, d.moduleId).value)
    ensures var stored := Stored(Upserted(s, d, now), d.userId, d.moduleId);
      && stored.Some? && PassConsistent(stored.value)
      && (Stored(s, d.userId, d.moduleId).Some? && Stored(s, d.userId, d.moduleId).value.passed ==> stored.value.passed)
  {
    UpsertStoresBest(s, d, now);
  }

  /** `UPDATE results SET certificate_generated = TRUE WHERE user_id = ? AND module_id = ?`. */
  function Marked(rows: map<int, QuizResult>, userId: int, moduleId: int): map<int, QuizResult> {
    map k | k in rows :: if Owns(rows[k], userId, moduleId) then rows[k].(certificateGenerated := true) else rows[k]
  }

  /** Marking sets the flag on that pair's row only, changes nothing else,
      keeps the table well formed, and marking twice is marking once. */
  lemma MarkedSpec(rows: map<int, QuizResult>, n: nat, userId: int, moduleId: int)
    requires WellFormed(rows, n)
    ensures WellFormed(Marked(rows, userId, moduleId), n)
    ensures Marked(rows, userId, moduleId).Keys == rows.Keys
    ensures forall k :: k in rows && Owns(rows[k], userId, moduleId) ==>
      Marked(rows, userId, moduleId)[k] == rows[k].(certificateGenerated := true)
    ensures forall k :: k in rows && !Owns(rows[k], userId, moduleId) ==> Marked(rows, userId, moduleId)[k] == rows[k]
    ensures Marked(Marked(rows, userId, moduleId), userId, moduleId) == Marked(rows, userId, moduleId)
  {
    var once := Marked(rows, userId, moduleId);
    assert forall k :: k in rows ==> Owns(once[k], rows[k].userId, rows[k].moduleId);
  }

  /** `DELETE FROM results WHERE user_id = ?`. */
  function WithoutUser(rows: map<int, QuizResult>, userId: int): map<int, QuizResult> {
    map k | k in rows && rows[k].userId != userId :: rows[k]
  }

  /** No row of the user remains; every other user's row is kept as it was. */
  lemma WithoutUserSpec(rows: map<int, QuizResult>, n: nat, userId: int)
    requires WellFormed(rows, n)
    ensures WellFormed(WithoutUser(rows, userId), n)
    ensures forall k :: k in WithoutUser(rows, userId) ==> WithoutUser(rows, userId)[k].userId != userId
    ensures forall k :: k in rows && rows[k].userId != userId <==> k in WithoutUser(rows, userId)
    ensures forall k :: k in WithoutUser(rows, userId) ==> WithoutUser(rows, userId)[k] == rows[k]
    ensures forall m :: FirstForPair(WithoutUser(rows, userId), n, userId, m) == None
  {
    forall m
      ensures FirstForPair(WithoutUser(rows, userId), n, userId, m) == None
    {
      FirstForPairSpec(WithoutUser(rows, userId), n, userId, m);
    }
  }

  // ---------------------------------------------------------------------
  // the user's results with module titles

  /** `r.*, m.title as module_title`. */
  datatype ResultWithTitle = ResultWithTitle(result: QuizResult, moduleTitle: string)

  /** The join on `modules` (any row, active or not) in id order. */
  function Joined(rows: map<int, QuizResult>, n: nat, modules: map<int, ModuleModel.Module>, userId: int): seq<ResultWithTitle> {
    var keep := (r: QuizResult) => r.userId == userId && r.moduleId in modules;
    var rs := Select(rows, keep, n);
    SelectKeeps(rows, keep, n);
    seq(|rs|, i requires 0 <= i < |rs| => ResultWithTitle(rs[i], modules[rs[i].moduleId].title))
  }

  /** Inserting `x` before the first entry completed no later than it. */
  function InsertNewestFirst(x: ResultWithTitle, s: seq<ResultWithTitle>): seq<ResultWithTitle>
    decreases |s|
  {
    if s == [] || s[0].result.completedAt <= x.result.completedAt then [x] + s
    else [s[0]] + InsertNewestFirst(x, s[1..])
  }

  /** `ORDER BY completed_at DESC`; entries completed at the same time keep
      their id order (the database leaves that order open). */
  function SortNewestFirst(s: seq<ResultWithTitle>): seq<ResultWithTitle>
    decreases |s|
  {
    if s == [] then [] else InsertNewestFirst(s[0], SortNewestFirst(s[1..]))
  }

  ghost predicate NewestFirst(s: seq<ResultWithTitle>) {
    forall i, j :: 0 <= i < j < |s| ==> s[i].result.completedAt >= s[j].result.completedAt
  }

  /** Inserting adds exactly `x`. */
  lemma {:induction false} InsertNewestFirstCount(x: ResultWithTitle, s: seq<ResultWithTitle>)
    ensures multiset(InsertNewestFirst(x, s)) == multiset(s) + multiset{x}
    decreases |s|
  {
    if !(s == [] || s[0].result.completedAt <= x.result.completedAt) {
      InsertNewestFirstCount(x, s[1..]);
      assert s == [s[0]] + s[1..];
    }
  }

  /** Every entry completed no later than `t`. */
  ghost predicate NoLaterThan(s: seq<ResultWithTitle>, t: int) {
    forall j :: 0 <= j < |s| ==> s[j].result.completedAt <= t
  }

  lemma {:induction false} InsertNoLaterThan(x: ResultWithTitle, s: seq<ResultWithTitle>, t: int)
    requires NoLaterThan(s, t) && x.result.completedAt <= t
    ensures NoLaterThan(InsertNewestFirst(x, s), t)
    decreases |s|
  {
    if !(s == [] || s[0].result.completedAt <= x.result.completedAt) {
      assert NoLaterThan(s[1..], t) by {
        forall j | 0 <= j < |s| - 1 ensures s[1..][j].result.completedAt <= t {
          assert s[1..][j] == s[j + 1];
        }
      }
      InsertNoLaterThan(x, s[1..], t);
    }
  }

  /** Inserting into a newest-first list keeps it newest first. */
  lemma {:induction false} InsertNewestFirstOrder(x: ResultWithTitle, s: seq<ResultWithTitle>)
    requires NewestFirst(s)
    ensures NewestFirst(InsertNewestFirst(x, s))
    decreases |s|
  {
    if s == [] || s[0].result.completedAt <= x.result.completedAt {
      assert forall j :: 0 <= j < |s| ==> s[j].result.completedAt <= s[0].result.completedAt;
    } else {
      var tail := s[1..];
      assert NewestFirst(tail);
      assert NoLaterThan(tail, s[0].result.completedAt) by {
        forall j | 0 <= j < |tail| ensures tail[j].result.completedAt <= s[0].result.completedAt {
          assert tail[j] == s[j + 1];
        }
      }
      InsertNewestFirstOrder(x, tail);
      InsertNoLaterThan(x, tail, s[0].result.completedAt);
      var t := InsertNewestFirst(x, tail);
      assert InsertNewestFirst(x, s) == [s[0]] + t;
    }
  }

  /** Sorting leaves the entries newest first. */
  lemma {:induction false} SortNewestFirstOrder(s: seq<ResultWithTitle>)
    ensures NewestFirst(SortNewestFirst(s))
    decreases |s|
  {
    if s != [] {
      SortNewestFirstOrder(s[1..]);
      InsertNewestFirstOrder(s[0], SortNewestFirst(s[1..]));
    }
  }

  /** Sorting neither adds nor drops an entry. */
  lemma {:induction false} SortNewestFirstCount(s: seq<ResultWithTitle>)
    ensures multiset(SortNewestFirst(s)) == multiset(s)
    decreases |s|
  {
    if s != [] {
      SortNewestFirstCount(s[1..]);
      InsertNewestFirstCount(s[0], SortNewestFirst(s[1..]));
      assert s == [s[0]] + s[1..];
    }
  }

  /** `findByUserId`. */
  function UserResults(rows: map<int, QuizResult>, n: nat, modules: map<int, ModuleModel.Module>, userId: int): seq<ResultWithTitle> {
    SortNewestFirst(Joined(rows, n, modules, userId))
  }

  /** The entry of one joined row. */
  ghost predicate JoinedEntry(e: ResultWithTitle, rows: map<int, QuizResult>, modules: map<int, ModuleModel.Module>, userId: int) {
    && (exists k :: k in rows && rows[k] == e.result)
    && e.result.userId == userId && e.result.moduleId in modules
    && e.moduleTitle == modules[e.result.moduleId].title
  }

  /** The join holds each of the user's rows whose module exists, with that
      module's title, in strictly ascending id order. */
  lemma JoinedSpec(rows: map<int, QuizResult>, n: nat, modules: map<int, ModuleModel.Module>, userId: int)
    requires WellFormed(rows, n)
    ensures forall a, b :: 0 <= a < b < |Joined(rows, n, modules, userId)| ==>
      Joined(rows, n, modules, userId)[a].result.id < Joined(rows, n, modules, userId)[b].result.id
    ensures forall e :: e in Joined(rows, n, modules, userId) <==> JoinedEntry(e, rows, modules, userId)
  {
    var keep := (r: QuizResult) => r.userId == userId && r.moduleId in modules;
    SelectIdsSpec(rows, keep, n);
    SelectKeeps(rows, keep, n);
    var ids := SelectIds(rows, keep, n);
    var rs := Select(rows, keep, n);
    var j := Joined(rows, n, modules, userId);
    SelectIdsInRows(rows, keep, n);
    assert forall i :: 0 <= i < |rs| ==> rs[i] == rows[ids[i]] && rs[i].id == ids[i];
    assert forall i :: 0 <= i < |j| ==> j[i].result == rs[i];
    forall e: ResultWithTitle | JoinedEntry(e, rows, modules, userId)
      ensures e in j
    {
      var k :| k in rows && rows[k] == e.result;
      assert k in ids;
      var i :| 0 <= i < |ids| && ids[i] == k;
      assert j[i] == e;
    }
  }

  /** The user's results are listed newest first. */
  lemma UserResultsOrder(rows: map<int, QuizResult>, n: nat, modules: map<int, ModuleModel.Module>, userId: int)
    ensures NewestFirst(UserResults(rows, n, modules, userId))
  {
    SortNewestFirstOrder(Joined(rows, n, modules, userId));
  }

  /** The user's results are exactly their rows whose module exists, each
      with its module's title. */
  lemma UserResultsMembers(rows: map<int, QuizResult>, n: nat, modules: map<int, ModuleModel.Module>, userId: int)
    requires WellFormed(rows, n)
    ensures forall e :: e in UserResults(rows, n, modules, userId) <==> JoinedEntry(e, rows, modules, userId)
  {
    var j := Joined(rows, n, modules, userId);
    JoinedSpec(rows, n, modules, userId);
    SortNewestFirstCount(j);
    var out := UserResults(rows, n, modules, userId);
    assert forall x :: x in out <==> x in multiset(out);
    assert forall x :: x in j <==> x in multiset(j);
  }

  /** Each of the user's results is listed once. */
  lemma UserResultsOnce(rows: map<int, QuizResult>, n: nat, modules: map<int, ModuleModel.Module>, userId: int)
    requires WellFormed(rows, n)
    ensures forall e :: e in UserResults(rows, n, modules, userId) ==> multiset(UserResults(rows, n, modules, userId))[e] == 1
  {
    var j := Joined(rows, n, modules, userId);
    JoinedSpec(rows, n, modules, userId);
    SortNewestFirstCount(j);
    var out := UserResults(rows, n, modules, userId);
    assert forall x :: x in out <==> x in multiset(out);
    assert forall x :: x in j <==> x in multiset(j);
    forall e | e in j
      ensures multiset(j)[e] == 1
    {
      var i :| 0 <= i < |j| && j[i] == e;
      DistinctCount(j, i);
    }
  }

  /** A sequence whose entries have strictly ascending ids holds each once. */
  lemma DistinctCount(j: seq<ResultWithTitle>, i: int)
    requires 0 <= i < |j|
    requires forall a, b :: 0 <= a < b < |j| ==> j[a].result.id < j[b].result.id
    ensures multiset(j)[j[i]] == 1
  {
    var x := j[i];
    var before, after := j[..i], j[i + 1..];
    assert j == before + [x] + after;
    assert forall a :: 0 <= a < |before| ==> before[a] == j[a];
    assert forall a :: 0 <= a < |after| ==> after[a] == j[i + 1 + a];
    assert x !in before;
    assert x !in after;
    assert multiset(j) == multiset(before) + multiset{x} + multiset(after);
  }

  /** The result the module listing joins to module `moduleId` for the user. */
  function SummaryOf(r: Option<QuizResult>): Option<ModuleModel.ResultSummary> {
    if r.Some? then Some(ModuleModel.ResultSummary(r.value.score, r.value.passed, r.value.completedAt)) else None
  }

  /** `LEFT JOIN results r ON m.id = r.module_id AND r.user_id = ?`, as the
      lookup `findAllWithProgress` consumes. */
  function ProgressLookup(rows: map<int, QuizResult>, n: nat, userId: int): int -> Option<ModuleModel.ResultSummary> {
    (moduleId: int) => SummaryOf(FirstForPair(rows, n, userId, moduleId))
  }

  /** In the module listing, a module carries progress iff the user has a
      result for it, and then that result's score, pass flag and time. */
  lemma ModuleListingShowsResults(modules: ModuleModel.ModuleTable, rows: map<int, QuizResult>, n: nat, userId: int)
    requires WellFormed(rows, n)
    ensures var listing := modules.FindAllWithProgress(userId, ProgressLookup(rows, n, userId));
      && |listing| == |modules.FindAll()|
      && forall i :: 0 <= i < |listing| ==>
        && listing[i].entry == modules.FindAll()[i]
        && (listing[i].progress.Some? <==> exists k :: k in rows && Owns(rows[k], userId, listing[i].entry.id))
        && forall k :: k in rows && Owns(rows[k], userId, listing[i].entry.id) ==>
             && listing[i].progress.Some? && listing[i].progress.value.userId == userId
             && listing[i].progress.value.score == rows[k].score
             && listing[i].progress.value.passed == rows[k].passed
             && listing[i].progress.value.completedAt == rows[k].completedAt
  {
    var lookup := ProgressLookup(rows, n, userId);
    modules.FindAllWithProgressSpec(userId, lookup);
    forall m: int
      ensures lookup(m) == SummaryOf(FirstForPair(rows, n, userId, m))
    {
    }
    forall m: int
      ensures FirstForPair(rows, n, userId, m).Some? <==> exists k :: k in rows && Owns(rows[k], userId, m)
      ensures forall k :: k in rows && Owns(rows[k], userId, m) ==> FirstForPair(rows, n, userId, m) == Some(rows[k])
    {
      FirstForPairSpec(rows, n, userId, m);
    }
  }

  class ResultTable {
    var rows: map<int, QuizResult>
    var nextId: nat

    ghost predicate Valid()
      reads this
    {
      WellFormed(rows, nextId)
    }

    constructor()
      ensures Valid() && rows == map[] && nextId == 1
    {
      rows := map[];
      nextId := 1;
    }

    /** `findByUserAndModule`. */
    function FindByUserAndModule(userId: int, moduleId: int): Option<QuizResult>
      reads this
    {
      FirstForPair(rows, nextId, userId, moduleId)
    }

    /** `findByUserId`, joined to the modules table's rows. */
    function FindByUserId(userId: int, modules: map<int, ModuleModel.Module>): seq<ResultWithTitle>
      reads this
    {
      UserResults(rows, nextId, modules, userId)
    }

    /** `createOrUpdate`: inserts when the pair has no row, overwrites the
        row when the new score is strictly higher, and answers the row then
        stored for the pair. */
    method CreateOrUpdate(d: CreateResultData, now: int) returns (r: QuizResult)
      requires Valid()
      modifies this
      ensures Valid()
      ensures Snapshot(rows, nextId) == Upserted(old(Snapshot(rows, nextId)), d, now)
      ensures FindByUserAndModule(d.userId, d.moduleId) == Some(r)
    {
      UpsertStoresBest(Snapshot(rows, nextId), d, now);
      var existing := FindByUserAndModule(d.userId, d.moduleId);
      if existing.Some? {
        if d.score > existing.value.score {
          rows := rows[existing.value.id := Improved(existing.value, d, now)];
        }
      } else {
        rows := rows[nextId := Inserted(nextId, d, now)];
        nextId := nextId + 1;
      }
      var stored := FindByUserAndModule(d.userId, d.moduleId);
      r := stored.value;
    }

    /** `markCertificateGenerated`. */
    method MarkCertificateGenerated(userId: int, moduleId: int)
      requires Valid()
      modifies this
      ensures Valid() && nextId == old(nextId)
      ensures rows == Marked(old(rows), userId, moduleId)
    {
      MarkedSpec(rows, nextId, userId, moduleId);
      rows := map k | k in rows :: if Owns(rows[k], userId, moduleId) then rows[k].(certificateGenerated := true) else rows[k];
    }

    /** `deleteByUserId`. */
    method DeleteByUserId(userId: int)
      requires Valid()
      modifies this
      ensures Valid() && nextId == old(nextId)
      ensures rows == WithoutUser(old(rows), userId)
    {
      WithoutUserSpec(rows, nextId, userId);
      rows := map k | k in rows && rows[k].userId != userId :: rows[k];
    }
  }

  // ---------------------------------------------------------------------
  // progress summary

  /** The single aggregate row of `getUserProgress`; `None` is SQL `NULL`. */
  datatype Aggregates = Aggregates(
    totalModules: Option<real>, completedModules: Option<real>, passedModules: Option<real>,
    averageScore: Option<real>, certificatesEarned: Option<real>, totalTimeSpent: Option<real>)

  datatype UserProgress = UserProgress(
    userId: int, totalModules: real, completedModules: real, passedModules: real,
    averageScore: real, certificatesEarned: real, totalTimeSpent: real)

  /** `result?.<field> || 0` for one numeric field. */
  function OrZero(row: Option<Aggregates>, field: Aggregates -> Option<real>): real {
    if row.Some? && field(row.value).Some? && field(row.value).value != 0.0 then field(row.value).value else 0.0
  }

  /** `getUserProgress`, given the aggregate row its query returns. */
  function GetUserProgress(userId: int, row: Option<Aggregates>): UserProgress {
    UserProgress(userId,
      OrZero(row, (a: Aggregates) => a.totalModules),
      OrZero(row, (a: Aggregates) => a.completedModules),
      OrZero(row, (a: Aggregates) => a.passedModules),
      OrZero(row, (a: Aggregates) => a.averageScore),
      OrZero(row, (a: Aggregates) => a.certificatesEarned),
      OrZero(row, (a: Aggregates) => a.totalTimeSpent))
  }

  /** Every field is the aggregate when the row and the field are present and
      0 otherwise (a missing row, or SQL `NULL`); the user is the one asked for. */
  lemma GetUserProgressDefaults(userId: int, row: Option<Aggregates>)
    ensures var p := GetUserProgress(userId, row);
      && p.userId == userId
      && p.totalModules == (if row.Some? && row.value.totalModules.Some? then row.value.totalModules.value else 0.0)
      && p.completedModules == (if row.Some? && row.value.completedModules.Some? then row.value.completedModules.value else 0.0)
      && p.passedModules == (if row.Some? && row.value.passedModules.Some? then row.value.passedModules.value else 0.0)
      && p.averageScore == (if row.Some? && row.value.averageScore.Some? then row.value.averageScore.value else 0.0)
      && p.certificatesEarned == (if row.Some? && row.value.certificatesEarned.Some? then row.value.certificatesEarned.value else 0.0)
      && p.totalTimeSpent == (if row.Some? && row.value.totalTimeSpent.Some? then row.value.totalTimeSpent.value else 0.0)
  {
  }
}
