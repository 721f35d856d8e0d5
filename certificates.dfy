/** The certificate routes: `GET /api/certificates` (`app/api/certificates/route.ts`),
    the user's passed results as certificate entries, and
    `POST /api/certificates/generate` (`app/api/certificates/generate/route.ts`),
    the eligibility checks before a certificate is issued and marked. */
module Certificates {
  import opened Wrappers
  import opened JsString
  import opened Auth
  import opened AuthGate
  import opened ResultModel
  import ModuleModel
  import UserModel
  import opened PdfGenerator

  // ---------------------------------------------------------------------
  // the listing

  /** One entry of the `certificates` array. */
  datatype CertificateEntry = CertificateEntry(
    id: int, moduleId: int, moduleTitle: string, score: real,
    completedAt: int, certificateGenerated: bool)

  /** The fields the listing keeps of a result. */
  function EntryOf(e: ResultWithTitle): CertificateEntry {
    CertificateEntry(e.result.id, e.result.moduleId, e.moduleTitle, e.result.score,
                     e.result.completedAt, e.result.certificateGenerated)
  }

  /** `results.filter((result) => result.passed)`. */
  function PassedOnly(s: seq<ResultWithTitle>): seq<ResultWithTitle>
    decreases |s|
  {
    if s == [] then []
    else if s[0].result.passed then [s[0]] + PassedOnly(s[1..])
    else PassedOnly(s[1..])
  }

  /** The filter keeps each passed result as often as it occurs and drops
      every other one. */
  lemma {:induction false} PassedOnlyCount(s: seq<ResultWithTitle>, e: ResultWithTitle)
    ensures multiset(PassedOnly(s))[e] == if e.result.passed then multiset(s)[e] else 0
    decreases |s|
  {
    if s != [] {
      PassedOnlyCount(s[1..], e);
      assert s == [s[0]] + s[1..];
    }
  }

  /** The filter keeps exactly the passed results. */
  lemma PassedOnlyMembers(s: seq<ResultWithTitle>)
    ensures forall e :: e in PassedOnly(s) <==> e in s && e.result.passed
  {
    forall e | true
      ensures e in PassedOnly(s) <==> e in s && e.result.passed
    {
      PassedOnlyCount(s, e);
      assert e in PassedOnly(s) <==> e in multiset(PassedOnly(s));
      assert e in s <==> e in multiset(s);
    }
  }

  /** The filter keeps the newest-first order. */
  lemma {:induction false} PassedOnlyOrder(s: seq<ResultWithTitle>)
    requires NewestFirst(s)
    ensures NewestFirst(PassedOnly(s))
    decreases |s|
  {
    if s != [] {
      var rest := PassedOnly(s[1..]);
      assert NewestFirst(s[1..]);
      PassedOnlyOrder(s[1..]);
      if s[0].result.passed {
        PassedOnlyMembers(s[1..]);
        forall j | 0 <= j < |rest|
          ensures s[0].result.completedAt >= rest[j].result.completedAt
        {
          assert rest[j] in s[1..];
          var i :| 0 <= i < |s[1..]| && s[1..][i] == rest[j];
          assert s[i + 1] == rest[j];
        }
      }
    }
  }

  /** The `certificates` array for a list of results. */
  function Listing(s: seq<ResultWithTitle>): (r: seq<CertificateEntry>)
    ensures |r| == |PassedOnly(s)|
    ensures forall i :: 0 <= i < |r| ==> r[i] == EntryOf(PassedOnly(s)[i])
  {
    var p := PassedOnly(s);
    seq(|p|, i requires 0 <= i < |p| => EntryOf(p[i]))
  }

  /** The listing holds an entry for each passed result and nothing else. */
  lemma ListingMembers(s: seq<ResultWithTitle>)
    ensures forall c :: c in Listing(s) <==> exists e :: e in s && e.result.passed && c == EntryOf(e)
  {
    PassedOnlyMembers(s);
    var p, r := PassedOnly(s), Listing(s);
    forall c | c in r
      ensures exists e :: e in s && e.result.passed && c == EntryOf(e)
    {
      var i :| 0 <= i < |r| && r[i] == c;
      assert p[i] in p;
    }
    forall c | exists e :: e in s && e.result.passed && c == EntryOf(e)
      ensures c in r
    {
      var e :| e in s && e.result.passed && c == EntryOf(e);
      var i :| 0 <= i < |p| && p[i] == e;
      assert r[i] == c;
    }
  }

  /** The listing of a newest-first list is newest first. */
  lemma ListingOrder(s: seq<ResultWithTitle>)
    requires NewestFirst(s)
    ensures forall i, j :: 0 <= i < j < |Listing(s)| ==> Listing(s)[i].completedAt >= Listing(s)[j].completedAt
  {
    PassedOnlyOrder(s);
  }

  /** `GET /api/certificates` behind `requireAuth`: the listing of the
      authenticated user's results. */
  function ListCertificates(results: ResultTable, modules: ModuleModel.ModuleTable,
                            cookie: Option<string>, authorization: Option<string>,
                            verify: TokenVerifier): Reply<seq<CertificateEntry>>
    reads results, modules
  {
    var rows, n, titles := results.rows, results.nextId, modules.rows;
    RequireAuth(cookie, authorization, verify,
                (p: Principal) => Listing(UserResults(rows, n, titles, p.userId)))
  }

  /** Without authentication the answer is 401 and nothing is listed. With
      it, the listing holds an entry for each passed result of that user and
      nothing else, projected to its six fields, newest first. */
  lemma ListCertificatesSpec(results: ResultTable, modules: ModuleModel.ModuleTable,
                             cookie: Option<string>, authorization: Option<string>, verify: TokenVerifier)
    requires results.Valid()
    ensures var a := AuthenticateRequest(cookie, authorization, verify);
            var reply := ListCertificates(results, modules, cookie, authorization, verify);
      && (a.Unauthenticated? ==> reply == Rejected(401, a.error))
      && (a.Authenticated? ==>
            var mine := results.FindByUserId(a.user.userId, modules.rows);
            && reply.Handled?
            && (forall c :: c in reply.response <==> exists e :: e in mine && e.result.passed && c == EntryOf(e))
            && (forall i, j :: 0 <= i < j < |reply.response| ==>
                  reply.response[i].completedAt >= reply.response[j].completedAt))
  {
    var a := AuthenticateRequest(cookie, authorization, verify);
    if a.Authenticated? {
      var mine := results.FindByUserId(a.user.userId, modules.rows);
      UserResultsOrder(results.rows, results.nextId, modules.rows, a.user.userId);
      assert ListCertificates(results, modules, cookie, authorization, verify).response == Listing(mine);
      ListingMembers(mine);
      ListingOrder(mine);
    }
  }

  // ---------------------------------------------------------------------
  // the generate route

  /** The request body: not JSON, or JSON whose `module_id` is a number
      (`Some`) or is missing or not a number (`None`). */
  datatype GenerateBody = NotJson | Json(moduleId: Option<int>)

  /** The data printed on the certificate. */
  datatype CertificateData = CertificateData(
    userName: string, userEmail: string, moduleName: string, score: real,
    completionDate: int, certificateId: string)

  /** A JSON error with its status, or the PDF with its download file name. */
  datatype GenerateReply = GenerateError(status: int, error: string) | Issued(data: CertificateData, fileName: string)

  const InvalidRequest: string := "Invalid request data"
  const UserNotFound: string := "User not found"
  const ModuleNotFound: string := "Module not found"
  const NoResult: string := "No quiz result found for this module"
  const NotPassed: string := "Certificate not available - quiz not passed"
  const GenerateFailed: string := "Failed to generate certificate"

  /** The string without its leading whitespace. */
  function DropSpaces(s: string): (r: string)
    ensures |r| <= |s|
    ensures r == [] || !IsJsWhitespace(r[0])
    decreases |s|
  {
    if s != [] && IsJsWhitespace(s[0]) then DropSpaces(s[1..]) else s
  }

  /** `s.replace(/\s+/g, "-")`: every maximal run of whitespace becomes one '-'. */
  function DashSpaces(s: string): string
    decreases |s|
  {
    if s == [] then []
    else if IsJsWhitespace(s[0]) then ['-'] + DashSpaces(DropSpaces(s[1..]))
    else [s[0]] + DashSpaces(s[1..])
  }

  /** The replacement leaves no whitespace and changes nothing in a string
      without whitespace; so applying it twice is applying it once. */
  lemma {:induction false} DashSpacesSpec(s: string)
    ensures forall i :: 0 <= i < |DashSpaces(s)| ==> !IsJsWhitespace(DashSpaces(s)[i])
    ensures (forall i :: 0 <= i < |s| ==> !IsJsWhitespace(s[i])) ==> DashSpaces(s) == s
    decreases |s|
  {
    if s != [] {
      if IsJsWhitespace(s[0]) {
        DashSpacesSpec(DropSpaces(s[1..]));
        var t := DashSpaces(DropSpaces(s[1..]));
        assert forall i :: 1 <= i < |DashSpaces(s)| ==> DashSpaces(s)[i] == t[i - 1];
      } else {
        DashSpacesSpec(s[1..]);
        var t := DashSpaces(s[1..]);
        assert forall i :: 1 <= i < |DashSpaces(s)| ==> DashSpaces(s)[i] == t[i - 1];
        assert forall i :: 0 <= i < |s| - 1 ==> s[1..][i] == s[i + 1];
      }
    }
  }

  lemma DashSpacesIdempotent(s: string)
    ensures DashSpaces(DashSpaces(s)) == DashSpaces(s)
  {
    DashSpacesSpec(s);
    DashSpacesSpec(DashSpaces(s));
  }

  /** The `Content-Disposition` file name. */
  function FileName(moduleTitle: string, certificateId: string): string {
    "SMSI-Certificate-" + DashSpaces(moduleTitle) + "-" + certificateId + ".pdf"
  }

  /** The user is the authenticated one, the module an active one, and the
      stored result of that pair is passed: a certificate may be issued. */
  predicate Eligible(users: UserModel.UserTable, modules: ModuleModel.ModuleTable, results: ResultTable,
                     userId: int, moduleId: int)
    reads users, modules, results
  {
    && users.FindById(userId).Some?
    && modules.FindById(moduleId).Some?
    && results.FindByUserAndModule(userId, moduleId).Some?
    && results.FindByUserAndModule(userId, moduleId).value.passed
  }

  /** `POST /api/certificates/generate` behind `requireAuth`. The checks run
      in order: authentication (401), a body that is not JSON (the
      `request.json()` failure caught as 500), the schema (400), the user
      (404), the active module (404), the pair's result (404), its pass flag
      (400). Only a passed result is issued a certificate, which is then
      marked generated; the id is built from the user, the module and the
      result's completion date, given its calendar fields and the random
      number's base-36 text. */
  method Generate(users: UserModel.UserTable, modules: ModuleModel.ModuleTable, results: ResultTable,
                  cookie: Option<string>, authorization: Option<string>, verify: TokenVerifier,
                  body: GenerateBody, calendar: int -> CalendarDate, random36: string)
    returns (reply: GenerateReply)
    requires results.Valid()
    modifies results
    ensures results.Valid()
    ensures var a := AuthenticateRequest(cookie, authorization, verify);
      && (a.Unauthenticated? ==> reply == GenerateError(401, a.error))
      && (a.Authenticated? && body.NotJson? ==> reply == GenerateError(500, GenerateFailed))
      && (a.Authenticated? && body.Json? && body.moduleId.None? ==> reply == GenerateError(400, InvalidRequest))
      && (a.Authenticated? && body.Json? && body.moduleId.Some? ==>
            var u, m := a.user.userId, body.moduleId.value;
            var r := old(results.FindByUserAndModule(u, m));
            && (users.FindById(u).None? ==> reply == GenerateError(404, UserNotFound))
            && (users.FindById(u).Some? && modules.FindById(m).None? ==> reply == GenerateError(404, ModuleNotFound))
            && (users.FindById(u).Some? && modules.FindById(m).Some? && r.None? ==>
                  reply == GenerateError(404, NoResult))
            && (users.FindById(u).Some? && modules.FindById(m).Some? && r.Some? && !r.value.passed ==>
                  reply == GenerateError(400, NotPassed)))
    ensures var a := AuthenticateRequest(cookie, authorization, verify);
      (a.Authenticated? && body.Json? && body.moduleId.Some?
       && old(Eligible(users, modules, results, a.user.userId, body.moduleId.value))) ==> reply.Issued?
    ensures reply.GenerateError? ==> results.rows == old(results.rows) && results.nextId == old(results.nextId)
    ensures reply.Issued? ==>
      var a := AuthenticateRequest(cookie, authorization, verify);
      && a.Authenticated? && body.Json? && body.moduleId.Some?
      && var u, m := a.user.userId, body.moduleId.value;
      && old(Eligible(users, modules, results, u, m))
      && var user, course, r := users.FindById(u).value, modules.FindById(m).value, old(results.FindByUserAndModule(u, m)).value;
      && reply.data == CertificateData(user.name, user.email, course.title, r.score, r.completedAt,
                                       CertificateId(u, m, calendar(r.completedAt), random36))
      && reply.fileName == FileName(course.title, reply.data.certificateId)
      && results.rows == Marked(old(results.rows), u, m)
      && results.nextId == old(results.nextId)
      && results.FindByUserAndModule(u, m) == Some(r.(certificateGenerated := true))
  {
    var a := AuthenticateRequest(cookie, authorization, verify);
    if a.Unauthenticated? {
      return GenerateError(401, a.error);
    }
    if body.NotJson? {
      return GenerateError(500, GenerateFailed);
    }
    if body.moduleId.None? {
      return GenerateError(400, InvalidRequest);
    }
    var u, m := a.user.userId, body.moduleId.value;
    var user := users.FindById(u);
    if user.None? {
      return GenerateError(404, UserNotFound);
    }
    var course := modules.FindById(m);
    if course.None? {
      return GenerateError(404, ModuleNotFound);
    }
    var r := results.FindByUserAndModule(u, m);
    if r.None? {
      return GenerateError(404, NoResult);
    }
    if !r.value.passed {
      return GenerateError(400, NotPassed);
    }
    var certificateId := CertificateId(u, m, calendar(r.value.completedAt), random36);
    var data := CertificateData(user.value.name, user.value.email, course.value.title,
                                r.value.score, r.value.completedAt, certificateId);
    MarkedFinds(results.rows, results.nextId, u, m);
    results.MarkCertificateGenerated(u, m);
    reply := Issued(data, FileName(course.value.title, certificateId));
  }

  /** After marking, the pair's lookup answers its row with the flag set. */
  lemma MarkedFinds(rows: map<int, QuizResult>, n: nat, userId: int, moduleId: int)
    requires WellFormed(rows, n)
    ensures FirstForPair(rows, n, userId, moduleId).Some? ==>
      FirstForPair(Marked(rows, userId, moduleId), n, userId, moduleId)
        == Some(FirstForPair(rows, n, userId, moduleId).value.(certificateGenerated := true))
  {
    MarkedSpec(rows, n, userId, moduleId);
    FirstForPairSpec(rows, n, userId, moduleId);
    FirstForPairSpec(Marked(rows, userId, moduleId), n, userId, moduleId);
    if FirstForPair(rows, n, userId, moduleId).Some? {
      var k :| k in rows && Owns(rows[k], userId, moduleId);
      assert Owns(Marked(rows, userId, moduleId)[k], userId, moduleId);
    }
  }

  /** Issuing a certificate again for the same pair leaves the table as the
      first issue left it. */
  lemma ReissueIdempotent(rows: map<int, QuizResult>, n: nat, userId: int, moduleId: int)
    requires WellFormed(rows, n)
    ensures Marked(Marked(rows, userId, moduleId), userId, moduleId) == Marked(rows, userId, moduleId)
  {
    MarkedSpec(rows, n, userId, moduleId);
  }
}
