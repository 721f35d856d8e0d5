# SMSI platform core in Dafny

The SMSI platform is a Next.js training site for information-security
awareness. Learners read modules, answer a quiz per module and download a PDF
certificate for each module they passed. This project models the decision
logic underneath and proves properties of that logic:

- **Quiz scoring and results.** `POST /api/quiz/submit` scores the submitted
  answers against the module's question bank and derives a percentage and the
  80% pass flag. `ResultModel.createOrUpdate` keeps one row per (user, module)
  and overwrites it only with a strictly better score. The results table also
  offers marking a certificate as generated, deleting a user's rows, the
  per-user listing joined with module titles, and the progress summary.
- **Certificates.** `POST /api/certificates/generate` runs a fixed chain of
  guards before it marks the certificate generated. `GET /api/certificates`
  lists the passed results. `generateCertificateId` formats the certificate
  number.
- **Request gating.**
  - The edge middleware runs a fixed-window rate limiter over a mutable map,
    then routes protected and admin pages.
  - The edge verifier `verifyJwtHS256` checks a JWS compact token. It follows
    section 7.1 of RFC 7515 (compact serialization), section 3.2 of RFC 7518
    (HS256), and sections 4.1.4 and 7.2 of RFC 7519 (`exp` and validation).
    It converts base64url to padded base64 as in section 5 of RFC 4648.
  - The API gates `authenticateRequest`, `requireAuth` and `requireRole` sit
    in front of the routes.
  - The bearer extractor follows section 2.1 of RFC 6750.
- **Validators and update builders.** The code models `validatePassword`,
  `validateEmail` and the register page's strength meter. It also models the
  `update` builders of the quiz, module and user models, which append
  `column = ?` clauses and values in a fixed order.

## Layout

| module (file) | models |
|---|---|
| `Wrappers` (`wrappers.dfy`) | `Option` and `Result` |
| `JsString` (`js_string.dfy`) | JavaScript string built-ins: `startsWith`, `substring`, `padStart`/`padEnd`, `split`, `length` in UTF-16 units, `toUpperCase` on ASCII, `String(n)`, `\s`, `Number(bool)` |
| `Sql` (`sql.dfy`) | `column = ?` assignments, the `fields`/`values` lists, an `UPDATE` statement, and a `SELECT` over a table as filtered rows in id order |
| `Auth` (`auth.dfy`) | `lib/auth.ts` |
| `AuthGate` (`auth_gate.dfy`) | `lib/middleware/auth.ts` |
| `EdgeJwt` (`edge_jwt.dfy`) | `lib/edge-jwt.ts` |
| `Middleware` (`middleware.dfy`) | `middleware.ts` |
| `UserModel`, `ModuleModel`, `QuizModel`, `ResultModel` | `lib/models/*.ts`, each table a class holding a `map` from id to row plus the next auto-increment id |
| `QuizSubmit` (`quiz_submit.dfy`) | `app/api/quiz/submit/route.ts` |
| `Certificates` (`certificates.dfy`) | `app/api/certificates/route.ts` and `app/api/certificates/generate/route.ts` |
| `PdfGenerator` (`certificate_id.dfy`) | `generateCertificateId` of `lib/pdf-generator.ts` |
| `RegisterPage` (`register_page.dfy`) | the strength meter, submit flag and mismatch warning of `app/register/page.tsx` |

Code that updates state step by step is imperative Dafny.
- The scoring loop, `validatePassword`, the byte-array fill and the update
  builders are methods with loops or successive pushes.
- The tables and the rate limiter are classes.
- Each such method is proved against a specification function.

The remaining code is functions and lemmas.

These calls become parameters:
- **Foreign code**: `jsonwebtoken`'s verify, bcrypt's hash and compare,
  `atob`, `TextDecoder`, `TextEncoder`, `JSON.parse` and Web Crypto's HMAC
  verify.
- **Clock and randomness**: `Date.now()` and `CURRENT_TIMESTAMP` become
  `now: int`. `Math.random().toString(36)` becomes its text. The local
  calendar fields of a `Date` come from a function.

### Behaviour of the code worth knowing
- A request body that is not JSON makes `request.json()` throw. The routes'
  `catch` then answers 500 (app/api/quiz/submit/route.ts:23,104-106 and
  app/api/certificates/generate/route.ts:17,84-86). Only a JSON body that
  fails the schema gets 400.
- In `verifyJwtHS256`, the expiry test `payload.exp && ...` treats
  `exp == 0` as falsy, so such a token is never expired (lib/edge-jwt.ts:49).
- `UserModel.verifyPassword` returns the row it read before `last_login` was
  written (lib/models/User.ts:62-71).
- The year in a certificate number is printed as `getFullYear()` gives it,
  without padding; only month, day, user and module are padded
  (lib/pdf-generator.ts:161-168).
- `password.length` counts UTF-16 code units, so a character above U+FFFF
  counts twice towards the 8-character rule (lib/auth.ts:50,
  app/register/page.tsx:35).

## Model

| member | source | states |
|---|---|---|
| `Auth.ExtractTokenFromHeader` | lib/auth.ts:38-44 | a token comes back exactly when the header is present and starts with the case-sensitive `Bearer `, and the header is then that prefix followed by the token |
| `Auth.ExtractBearerRoundTrip` | lib/auth.ts:43 | extracting from `"Bearer " + t` gives back `t` |
| `Auth.ValidatePassword` | lib/auth.ts:47-74 | the step-by-step `errors.push` sequence yields one message per failed rule, in rule order, and `valid` holds exactly when no message was produced |
| `Auth.PasswordErrors` | lib/auth.ts:50-68 | at most five failed rules; a rule is listed iff the password breaks it; listed rules keep the order length, uppercase, lowercase, digit, special; none listed iff every rule holds |
| `Auth.FailedAmongMembers` | lib/auth.ts:50-68 | over any rule list, a rule is reported iff it is in the list and the password breaks it |
| `Auth.FailedAmongOrder` | lib/auth.ts:50-68 | reported rules keep the order in which the rules are checked |
| `Auth.LengthAndSpecialRules` | lib/auth.ts:50-68 | the length rule fails iff the password has fewer than 8 UTF-16 code units; the special rule passes iff some character belongs to the fixed set of twenty punctuation characters of the rule's character class |
| `Auth.AstralPasswordMeetsLength` | lib/auth.ts:50 | four characters above U+FFFF meet the 8-unit length rule though the password has only four characters |
| `Auth.Messages` | lib/auth.ts:51-67 | each failed rule maps to its own message, position by position |
| `Auth.ValidateEmail` | lib/auth.ts:77-80 | accepts iff the address is `local@domain` with both parts non-empty and free of whitespace and `@`, and the domain has a `.` with text on both sides |
| `Auth.IndexOf` | lib/auth.ts:78 | the index found is the first occurrence; none found means the character does not occur |
| `AuthGate.ChooseTokenPrecedence` | lib/middleware/auth.ts:20-22 | a non-empty cookie wins, otherwise the header token is used; some token is chosen iff either is non-empty |
| `AuthGate.AuthenticateRequest` | lib/middleware/auth.ts:13-46 | failure carries only the no-token or invalid-token message |
| `AuthGate.AuthenticateCases` | lib/middleware/auth.ts:24-41 | "no token" iff neither cookie nor bearer header gives one; "invalid" iff a token was chosen and the verifier rejects it; success copies userId, email and role from the verified payload |
| `AuthGate.RequireAuth` | lib/middleware/auth.ts:48-67 | every rejection is a 401 |
| `AuthGate.RequireAuthIff` | lib/middleware/auth.ts:52-65 | the handler runs iff authentication succeeds, and then runs with that principal; otherwise 401 with the authentication error |
| `AuthGate.RequireRole` | lib/middleware/auth.ts:69-94 | every rejection is 401 or 403 |
| `AuthGate.RequireRoleCases` | lib/middleware/auth.ts:72-87 | 401 iff authentication fails, checked first; 403 iff authenticated, admin required and the role is not admin; a handled request ran the handler on the principal |
| `AuthGate.RequireRoleSpecialCases` | lib/middleware/auth.ts:81-87 | `requireRole("user")` behaves as `requireAuth`; `requireRole("admin")` admits exactly authenticated admins |
| `EdgeJwt.ToInt32` | lib/edge-jwt.ts:12 | the JavaScript 32-bit conversion of a shift operand lands in the signed 32-bit range and leaves values already in range unchanged |
| `EdgeJwt.PadTargetIsRoundUp` | lib/edge-jwt.ts:12 | `((n+3)>>2)<<2` is the least multiple of 4 not below `n` |
| `EdgeJwt.ToPaddedBase64` | lib/edge-jwt.ts:12 | each character is mapped `-`→`+`, `_`→`/`, then `=` fills up to the padded length |
| `EdgeJwt.PaddedLength` | lib/edge-jwt.ts:12 | the padded text is a multiple of 4 long and at most 3 characters longer |
| `EdgeJwt.CharCodes` | lib/edge-jwt.ts:13-15 | one byte per decoded character, each its char code |
| `EdgeJwt.BinaryToBytes` | lib/edge-jwt.ts:13-16 | the index loop fills an array of the decoded length with those char codes |
| `EdgeJwt.Base64UrlToUint8Array` | lib/edge-jwt.ts:11-17 | fails iff the decoder rejects the padded text; otherwise the array holds the decoded bytes |
| `EdgeJwt.VerifyAcceptsIff` | lib/edge-jwt.ts:23-55 | accepted iff there are three parts, the header decodes with `alg` "HS256", the payload decodes, the HMAC verifies, and the payload is not expired; the payload is returned unchanged |
| `EdgeJwt.VerifyNeedsTwoDots` | lib/edge-jwt.ts:25-26 | a token whose count of `.` is not 2 is rejected |
| `EdgeJwt.VerifyAcceptsThreeSegments` | lib/edge-jwt.ts:25-28 | an accepted token is exactly its three segments joined by `.` |
| `EdgeJwt.VerifyEarlierStillAccepts` | lib/edge-jwt.ts:49 | a token accepted at some time is accepted with the same payload at every earlier time; the verdict differs between two times only when a truthy `exp` falls between them |
| `EdgeJwt.ExpiredIff` | lib/edge-jwt.ts:49 | expired iff `exp` is present and non-zero and `floor(now/1000) >= exp` |
| `Middleware.RateStep` | middleware.ts:9-25 | only the `rate_limit:<ip>` record can change, it is present afterwards, and a denied request changes nothing |
| `Middleware.RateStepCases` | middleware.ts:14-24 | a missing or expired record (`now > resetTime`, strict) restarts at count 1 with reset `now + window` and allows; inside the window the request is allowed iff the count is below the limit, which then increments |
| `Middleware.RateStepKeepsCountsBounded` | middleware.ts:14-24 | every stored count stays between 1 and the larger of 1 and the limit |
| `Middleware.AllowedWithinWindow` | middleware.ts:19-24 | within one window, a series of requests is allowed `min(n, limit - count)` times |
| `Middleware.AllowedInFreshWindow` | middleware.ts:14-24 | a series opening a fresh window and staying inside it is allowed `min(n, max(1, limit))` times |
| `Middleware.RateLimiter.constructor` | middleware.ts:7 | the store starts empty |
| `Middleware.RateLimiter.RateLimit` | middleware.ts:9-25 | the in-place update of the store and the answer are those of one rate step |
| `Middleware.RateLimiter.Handle` | middleware.ts:27-78 | rate limiting runs first and a denial is 429; otherwise the routing decision applies |
| `Middleware.ClientIp` | middleware.ts:31 | `x-forwarded-for` if non-empty, else `x-real-ip` if non-empty, else `"unknown"` |
| `Middleware.JwtSecret` | middleware.ts:57 | the environment secret when non-empty, else the built-in default, never empty |
| `Middleware.Route` | middleware.ts:39-77 | routing after the limiter never answers 429 |
| `Middleware.ProtectedPathsIff` | middleware.ts:46-65 | protected iff the path starts with `/dashboard`, `/quiz`, `/certificates` or `/admin`; admin iff it starts with `/admin`; admin paths are protected |
| `Middleware.RouteCases` | middleware.ts:50-77 | unprotected paths pass with the security headers; a protected path redirects to `/login` iff no valid token; with one, it redirects to `/dashboard` iff the path is admin and the role is not; a pass adds `x-user-id` and `x-user-role` |
| `Middleware.AdminPagesNeedAdmin` | middleware.ts:60-67 | an `/admin` page passes iff a valid token with the admin role is presented |
| `PdfGenerator.RandomPart` | lib/pdf-generator.ts:166 | at most 4 characters, exactly 4 when the base-36 text is long enough, none of them a lower-case letter |
| `PdfGenerator.PaddedTwo` | lib/pdf-generator.ts:162-163 | a month or day below 100 prints as exactly two characters |
| `PdfGenerator.PaddedDigits` | lib/pdf-generator.ts:162-165 | a zero-padded number is made of digits only |
| `PdfGenerator.CertificateIdFields` | lib/pdf-generator.ts:159-169 | the number starts with `SMSI-` and splits on `-` into exactly prefix, date, padded user, padded module and random part |
| `PdfGenerator.CertificateIdInjective` | lib/pdf-generator.ts:159-169 | two numbers are equal iff they have the same user, module, printed date and random part |
| `JsString.Utf16Length` | lib/auth.ts:50 | `s.length` in UTF-16 code units lies between the number of characters and twice that |
| `JsString.Utf16LengthIff` | lib/auth.ts:50 | `s.length` equals the number of characters iff no character lies above U+FFFF |
| `JsString.PadStart` | lib/pdf-generator.ts:162-165 | the result has length max(length of s, target), ends with `s` and is filled with the pad character before it |
| `JsString.PaddedNatInjective` | lib/pdf-generator.ts:164-165 | distinct non-negative numbers stay distinct after zero-padding |
| `JsString.NatToStringInjective` | lib/pdf-generator.ts:164-165 | `String(n)` is injective on non-negative numbers |
| `JsString.Substring` | lib/pdf-generator.ts:166 | `substring` clamps its bounds: an in-range slice is returned as is and the result is never longer than the range or the text |
| `JsString.ToUpperAscii` | lib/pdf-generator.ts:166 | upper-casing keeps the length and maps every character on its own |
| `JsString.SplitCount` | lib/edge-jwt.ts:25 | `split` gives one more part than there are separators |
| `JsString.SplitPartsFree` | lib/edge-jwt.ts:25 | no part contains the separator |
| `JsString.SplitJoin` | lib/edge-jwt.ts:25 | joining the parts with the separator gives back the text |
| `JsString.PadEnd` | lib/edge-jwt.ts:12 | the result starts with `s`, has length max(length of s, target) and is filled after it |
| `Sql.SetClauses` | lib/models/Module.ts:129-162 | one `column = ?` clause per assignment, in order |
| `Sql.Values` | lib/models/Module.ts:129-161 | one bound value per assignment, in order |
| `Sql.Push` | lib/models/Module.ts:130-131 | one `fields.push` / `values.push` pair keeps the two lists in step with the assignment list |
| `Sql.WrittenAppend` | lib/models/Module.ts:129-157 | the columns an update writes from two column lists in a row are those it writes from each list in turn |
| `Sql.ApplyAllAppend` | lib/models/Module.ts:162 | applying two runs of assignments in turn is applying their concatenation |
| `Sql.SelectIdsSpec` | lib/models/Quiz.ts:44-50 | a `WHERE` selection holds exactly the stored ids whose row matches, in increasing id order |
| `Sql.SelectKeeps` | lib/models/Quiz.ts:44-57 | every selected row matches and is stored |
| `UserModel.UserTable.constructor` | lib/models/User.ts:25 | an empty users table |
| `UserModel.UserTable.Create` | lib/models/User.ts:27-46 | a taken e-mail leaves the table unchanged and fails; otherwise one row is added with the hashed password, role defaulting to `user`, and it is returned |
| `UserModel.FirstByEmailSpec` | lib/models/User.ts:49-52 | a user is found iff one has that e-mail; with unique e-mails it is that user |
| `UserModel.UserTable.FindById` | lib/models/User.ts:55-58 | found iff the id is stored, and then that row |
| `UserModel.UserTable.VerifyPassword` | lib/models/User.ts:61-72 | no user or a failed compare gives null and no change; success writes that user's `last_login` and returns the row as read before the write |
| `UserModel.UserTable.UpdateLastLogin` | lib/models/User.ts:75-78 | only that user's `last_login` changes |
| `UserModel.UserAssignmentColumns` | lib/models/User.ts:96-115 | the columns written are name, email, password, role in that order, each only when its value is truthy |
| `UserModel.UserAssignmentsApply` | lib/models/User.ts:96-120 | running the assignments on a row gives the patched user with the password replaced by its hash |
| `UserModel.UserAssignmentsIgnoreConsent` | lib/models/User.ts:92-123 | a supplied `consent_rgpd` does not change the statement |
| `UserModel.UpdateKeepsConsent` | lib/models/User.ts:92-123 | an update never changes `consent_rgpd` |
| `UserModel.BuildUserUpdate` | lib/models/User.ts:93-115 | the pushed fields and values are exactly those of the user assignments |
| `UserModel.UserTable.Update` | lib/models/User.ts:92-123 | no column means no statement and no change; an e-mail clash fails and changes nothing; otherwise the statement ends with `WHERE id = ?` and the row is patched with a fresh `updated_at` |
| `UserModel.UserTable.Delete` | lib/models/User.ts:126-129 | exactly that id is removed |
| `UserModel.DeleteRemovesOnlyThatUser` | lib/models/User.ts:126-129 | every other row stays as it was and the deleted user is no longer found by e-mail |
| `UserModel.RoleRoundTrip` | lib/models/User.ts:28 | a role's stored name parses back to that role |
| `ModuleModel.ParseDifficulty` | lib/models/Module.ts:98 | a parsed difficulty prints back as the text it came from |
| `ModuleModel.DifficultyRoundTrip` | lib/models/Module.ts:98 | each difficulty's name parses back to it |
| `ModuleModel.ActiveById` | lib/models/Module.ts:46-49 | found iff the id is stored and active, and then that row |
| `ModuleModel.CreateInactiveFailsAfterInsert` | lib/models/Module.ts:92-122 | created with `is_active` false, the module is stored and yet `create` reports failure |
| `ModuleModel.CreateIntendedReturnsInserted` | lib/models/Module.ts:92-122 | reading the new row back by id returns it as inserted, and that agrees with the code's re-read whenever the module is active |
| `ModuleModel.ModuleTable.constructor` | lib/models/Module.ts:34 | an empty modules table |
| `ModuleModel.ModuleTable.Create` | lib/models/Module.ts:92-122 | one row is added with `duration_minutes` 30, difficulty `beginner` and `is_active` true as defaults, and it is returned |
| `ModuleModel.SoftDeleteHides` | lib/models/Module.ts:168-171 | delete keeps the row but deactivates it; it is no longer found and every other lookup is unchanged |
| `ModuleModel.ModuleTable.Delete` | lib/models/Module.ts:168-171 | the table afterwards is the soft-deleted one |
| `ModuleModel.ModuleTable.FindAllSpec` | lib/models/Module.ts:36-43 | exactly the active modules, in increasing id order |
| `ModuleModel.ModuleTable.FindAllWithProgress` | lib/models/Module.ts:52-89 | one entry per active module, each that module with its progress |
| `ModuleModel.ModuleTable.FindAllWithProgressSpec` | lib/models/Module.ts:78-87 | progress is present iff the user has a result for the module, and then carries that module id, the user id, `completed` true and the result's score and pass flag |
| `ModuleModel.TextAssignmentColumns` | lib/models/Module.ts:129-142 | title, description, content are written in that order, each only when truthy |
| `ModuleModel.SettingAssignmentColumns` | lib/models/Module.ts:144-157 | `duration_minutes` and `is_active` are written whenever defined (0 and false included), `difficulty_level` whenever truthy, in that order |
| `ModuleModel.ModuleAssignmentColumns` | lib/models/Module.ts:129-157 | the full column order is title, description, content, duration_minutes, difficulty_level, is_active |
| `ModuleModel.TextAssignmentsApply` | lib/models/Module.ts:129-142 | running the text assignments replaces exactly the truthy text fields |
| `ModuleModel.SettingAssignmentsApply` | lib/models/Module.ts:144-157 | running the setting assignments replaces exactly the supplied settings |
| `ModuleModel.ModuleAssignmentsApply` | lib/models/Module.ts:129-162 | running all assignments gives the patched module |
| `ModuleModel.PushTextUpdates` | lib/models/Module.ts:129-142 | the successive pushes build exactly the text clauses and values |
| `ModuleModel.PushSettingUpdates` | lib/models/Module.ts:144-157 | the pushes extend the lists with exactly the setting clauses and values |
| `ModuleModel.BuildModuleUpdate` | lib/models/Module.ts:125-161 | the fields and values lists are exactly those of the module assignments |
| `ModuleModel.ModuleTable.Update` | lib/models/Module.ts:125-165 | no statement iff no column is written; otherwise the statement ends with `WHERE id = ?` and a stored row is patched with a fresh `updated_at` |
| `QuizModel.QuestionAssignmentColumns` | lib/models/Quiz.ts:126-139 | question when truthy, options when present, correct_option whenever defined, in that order |
| `QuizModel.AnswerAssignmentColumns` | lib/models/Quiz.ts:141-149 | explanation and points whenever defined (so "" and 0 are written), in that order |
| `QuizModel.QuizAssignmentColumns` | lib/models/Quiz.ts:126-149 | the full column order is question, options, correct_option, explanation, points |
| `QuizModel.QuestionAssignmentsApply` | lib/models/Quiz.ts:126-139 | running the question assignments replaces exactly those supplied fields |
| `QuizModel.AnswerAssignmentsApply` | lib/models/Quiz.ts:141-149 | running the answer assignments replaces exactly explanation and points when supplied |
| `QuizModel.QuizAssignmentsApply` | lib/models/Quiz.ts:126-154 | running all assignments gives the patched question |
| `QuizModel.PushQuestionUpdates` | lib/models/Quiz.ts:126-139 | the pushes build exactly the question clauses and values |
| `QuizModel.PushAnswerUpdates` | lib/models/Quiz.ts:141-149 | the pushes extend the lists with exactly the answer clauses and values |
| `QuizModel.BuildQuizUpdate` | lib/models/Quiz.ts:122-153 | the fields and values lists are exactly those of the quiz assignments |
| `QuizModel.QuizTable.constructor` | lib/models/Quiz.ts:42 | an empty quizzes table |
| `QuizModel.QuizTable.FindById` | lib/models/Quiz.ts:83-93 | found iff the id is stored, and then that row |
| `QuizModel.QuizTable.FindByModuleIdSpec` | lib/models/Quiz.ts:44-57 | exactly the questions of that module, in increasing id order |
| `QuizModel.QuizTable.QuestionsAreBankWithoutAnswers` | lib/models/Quiz.ts:61-80 | the questions served for a module are the bank, position by position, with `correct_option` and `explanation` removed |
| `QuizModel.SameSelection` | lib/models/Quiz.ts:61-80 | selecting over the published rows picks the same ids as selecting over the stored rows |
| `QuizModel.QuizTable.Create` | lib/models/Quiz.ts:96-119 | one row is added with `explanation` defaulting to "" and `points` to 1, and it is returned |
| `QuizModel.QuizTable.Update` | lib/models/Quiz.ts:122-157 | no statement iff no column is written; otherwise the statement ends with `WHERE id = ?` and a stored row is patched with a fresh `updated_at` |
| `QuizModel.QuizTable.Delete` | lib/models/Quiz.ts:160-163 | exactly that id is removed |
| `QuizSubmit.FindQuiz` | app/api/quiz/submit/route.ts:52 | a question found is in the bank and has the id asked for |
| `QuizSubmit.FindQuizNone` | app/api/quiz/submit/route.ts:52-53 | nothing is found iff no question of the bank has that id |
| `QuizSubmit.ScoreAnswers` | app/api/quiz/submit/route.ts:47-70 | the loop's totals and details are the tally of the answers, each answer scored on its own |
| `QuizSubmit.TallyAppend` | app/api/quiz/submit/route.ts:51-70 | the tally of two runs of answers is the sum of their tallies, details concatenated |
| `QuizSubmit.EachAnswerScoredAlone` | app/api/quiz/submit/route.ts:51-70 | an unmatched answer adds nothing; a matched one adds its question's points to the total, those points to earned iff the option is correct, and one detail in its place |
| `QuizSubmit.DuplicateCountsTwice` | app/api/quiz/submit/route.ts:51-70 | an answer submitted twice counts twice in total and earned points |
| `QuizSubmit.EarnedWithinTotal` | app/api/quiz/submit/route.ts:58-59 | with non-negative points, `0 <= earned <= total` |
| `QuizSubmit.DetailsFaithful` | app/api/quiz/submit/route.ts:55-69 | at most one detail per answer; each is correct iff the chosen option is the question's correct one and earns its points exactly then |
| `QuizSubmit.NothingMatched` | app/api/quiz/submit/route.ts:51-53 | when no answer matches the bank, nothing is scored |
| `QuizSubmit.RatioThreshold` | app/api/quiz/submit/route.ts:73-74 | `earned/total*100 >= 80` iff `5*earned >= 4*total` |
| `QuizSubmit.RatioRange` | app/api/quiz/submit/route.ts:73 | the percentage of `0 <= earned <= total` lies in 0..100 |
| `QuizSubmit.PassIff` | app/api/quiz/submit/route.ts:73-74 | passed iff total is positive and earned is at least 80% of it; the percentage lies in 0..100 for non-negative points; an empty or unmatched submission scores 0 and fails |
| `QuizSubmit.CountCorrect` | app/api/quiz/submit/route.ts:82 | the correct count never exceeds the number of details |
| `QuizSubmit.SheetMeaning` | app/api/quiz/submit/route.ts:87-103 | `certificate_eligible` equals the pass flag, which holds exactly at 80% of a non-zero total; correct answers ≤ details ≤ answers; `total_questions` is the bank size |
| `QuizSubmit.Submit` | app/api/quiz/submit/route.ts:21-108 | 401, non-JSON 500, schema 400, missing module 404 and empty bank 404 in that order, each leaving the results untouched; a scored submission stores the best-score upsert of its result and answers the score sheet; a request that passes all five checks is scored (never an error reply) |
| `ResultModel.FirstForPairSpec` | lib/models/Result.ts:89-92 | a row is found iff one belongs to that (user, module), and it is that row |
| `ResultModel.UpsertStoresBest` | lib/models/Result.ts:39-86 | with no row one is inserted with the given fields; a strictly better score overwrites the scoring fields and `completed_at`; a tie or worse changes nothing; the stored score is `max(old, new)`, and id and `certificate_generated` are kept |
| `ResultModel.UpsertOthersUnchanged` | lib/models/Result.ts:39-86 | rows of other (user, module) pairs are unchanged, and at most the next id is added |
| `ResultModel.UpsertIdempotent` | lib/models/Result.ts:39-86 | repeating the same submission changes nothing more |
| `ResultModel.PassedNeverReverts` | lib/models/Result.ts:43-66 | when pass flags follow the 80% threshold on the score, the stored row still does after the upsert, and a passed pair stays passed |
| `ResultModel.ResultTable.constructor` | lib/models/Result.ts:39 | an empty results table |
| `ResultModel.ResultTable.CreateOrUpdate` | lib/models/Result.ts:39-86 | the table becomes the best-score upsert and the call returns the row now stored for the pair |
| `ResultModel.MarkedSpec` | lib/models/Result.ts:135-138 | marking sets `certificate_generated` on that pair's rows only, keeps every key, and is idempotent |
| `ResultModel.ResultTable.MarkCertificateGenerated` | lib/models/Result.ts:135-138 | the table becomes the marked one |
| `ResultModel.WithoutUserSpec` | lib/models/Result.ts:184-187 | exactly the user's rows are removed, every other row is kept as it was, and no pair of that user is found afterwards |
| `ResultModel.ResultTable.DeleteByUserId` | lib/models/Result.ts:184-187 | the table becomes the one without that user |
| `ResultModel.JoinedSpec` | lib/models/Result.ts:95-103 | the join holds exactly the user's rows whose module exists, each with its module title, in increasing id order |
| `ResultModel.InsertNewestFirstCount` | lib/models/Result.ts:101 | inserting into the ordered listing adds exactly that entry |
| `ResultModel.InsertNewestFirstOrder` | lib/models/Result.ts:101 | inserting keeps `completed_at` descending |
| `ResultModel.SortNewestFirstOrder` | lib/models/Result.ts:101 | the sorted listing has `completed_at` descending |
| `ResultModel.SortNewestFirstCount` | lib/models/Result.ts:101 | sorting is a permutation |
| `ResultModel.UserResultsOrder` | lib/models/Result.ts:95-104 | `findByUserId` lists by `completed_at` descending |
| `ResultModel.UserResultsMembers` | lib/models/Result.ts:95-104 | it lists exactly the user's results joined with their module's title |
| `ResultModel.UserResultsOnce` | lib/models/Result.ts:95-104 | each listed entry occurs once |
| `ResultModel.ModuleListingShowsResults` | lib/models/Module.ts:52-89 | the modules page shows progress for a module iff the user has a result for it, with that result's score, pass flag and completion time |
| `ResultModel.GetUserProgressDefaults` | lib/models/Result.ts:123-131 | a missing row or a missing aggregate becomes 0, present aggregates are kept, and the user id is the one asked for |
| `Certificates.PassedOnlyCount` | app/api/certificates/route.ts:12 | the filter keeps every passed entry as often as it occurs and drops every other one |
| `Certificates.PassedOnlyMembers` | app/api/certificates/route.ts:12 | an entry is kept iff it is listed and passed |
| `Certificates.PassedOnlyOrder` | app/api/certificates/route.ts:12 | the filter keeps `completed_at` descending |
| `Certificates.Listing` | app/api/certificates/route.ts:15-22 | one entry per passed result, each projecting id, module id, module title, score, completion time and `certificate_generated` |
| `Certificates.ListingMembers` | app/api/certificates/route.ts:11-22 | the listing holds exactly the projections of the passed results |
| `Certificates.ListingOrder` | app/api/certificates/route.ts:12-22 | the listing keeps `completed_at` descending |
| `Certificates.ListCertificatesSpec` | app/api/certificates/route.ts:6-23 | unauthenticated gives 401 without running the handler; otherwise the listing is exactly the user's passed results, newest first |
| `Certificates.DropSpaces` | app/api/certificates/generate/route.ts:80 | the rest of the text after a run of whitespace does not start with whitespace |
| `Certificates.DashSpacesSpec` | app/api/certificates/generate/route.ts:80 | `replace(/\s+/g, "-")` leaves no whitespace, and a title without whitespace is unchanged |
| `Certificates.DashSpacesIdempotent` | app/api/certificates/generate/route.ts:80 | replacing twice is replacing once |
| `Certificates.Generate` | app/api/certificates/generate/route.ts:14-88 | 401, non-JSON 500, invalid body 400, user 404, module 404, result 404, not passed 400 in that order, each changing nothing; an issued certificate carries the stored score and completion date and a number built from user, module and `completed_at`, and marks exactly that pair; an authenticated JSON request naming a module whose user, active module and passed result exist is always issued |
| `Certificates.MarkedFinds` | app/api/certificates/generate/route.ts:71 | after marking, the pair's result is found with `certificate_generated` set |
| `Certificates.ReissueIdempotent` | app/api/certificates/generate/route.ts:40-71 | marking again on a re-issue changes nothing |
| `RegisterPage.CountTrue` | app/register/page.tsx:42 | the score counts at most the five checks |
| `RegisterPage.GetPasswordStrength` | app/register/page.tsx:33-44 | the score lies in 0..5; the length check counts UTF-16 code units |
| `RegisterPage.StrengthMatchesValidation` | app/register/page.tsx:33-44 | score plus the number of server-side failures is 5, so the score is 5 iff the password validates; length and special checks agree with the server rules |
| `RegisterPage.SubmitEnabledIff` | app/register/page.tsx:272 | the button is enabled iff not loading, consent given, and at most one server rule fails |
| `RegisterPage.StrengthBars` | app/register/page.tsx:184-199 | no bars for an empty password, five otherwise |
| `RegisterPage.StrengthBarsMeaning` | app/register/page.tsx:185-197 | the bars up to the score are coloured and the rest grey, all coloured bars share one colour, and it is green exactly when the server accepts the password |
| `RegisterPage.ShowMismatchCases` | app/register/page.tsx:243 | the warning never shows for an empty or equal confirmation, and always shows otherwise |

## Left out

- Floating point: every percentage is an exact `real`. JavaScript double rounding at ratios that are not exact is not reproduced.
- Concurrency: the read-then-write race in `createOrUpdate` and parallel access to the rate-limit map are not modelled. Every operation runs alone.
- SQL execution, connection pooling and query text (`lib/database.ts`): tables are maps and statements are ordered column lists with their values.
- `ORDER BY difficulty_level, created_at` (modules) and `ORDER BY created_at` (quizzes): the model uses increasing id as the creation order and leaves out the difficulty sort, because the column's sort order depends on the database schema.
- `users.email` is treated as unique: `UserModel.UserTable.Create` and `UserModel.UserTable.Update` fail on an e-mail clash, as a database `UNIQUE` constraint would.
- Foreign calls are parameters without bodies of their own: `jsonwebtoken` (`generateToken`, `verifyToken`), bcrypt, `atob` and `Buffer`, `TextDecoder`/`TextEncoder`, `JSON.parse` and the zod schemas (their verdicts), and Web Crypto's HMAC-SHA256. The two JWT verifiers are not proved equivalent.
- `Date.now()`, `CURRENT_TIMESTAMP` and the local calendar fields of a `Date` are parameters; `Math.random().toString(36)` is its text.
- `PdfGenerator.CertificateIdInjective`: states equality of the printed date, not of the calendar fields, because zero padding alone does not rule out that two different (year, month, day) triples print alike.
- `JsString.Substring`, `JsString.PadStart` and `JsString.PadEnd`: count characters, not UTF-16 code units. The two agree on text with no character above U+FFFF, The model applies them to digits, to base-36 text and to base64url token segments; `atob` rejects a segment holding such a character in either reading.
- `JsString.ToUpperAscii`: upper-cases ASCII letters only, not the full Unicode mapping of `toUpperCase`.
- `AuthGate.AuthenticateRequest`: the `catch` answering 500 is not modelled, because `verifyToken` never throws. The same holds for the middleware's `catch` redirect around `verifyJwtHS256`.
- `Certificates.Generate` and `QuizSubmit.Submit`: apart from a body that is not JSON, the `catch` paths answering 500 (database errors) are not modelled; the tables never fail, so a request that passes every check always succeeds.
- PDF drawing (`addBackground` … `generateCertificate`, jsPDF) and the PDF bytes of the response; only the data and file name of the certificate are modelled.
- `getLeaderboard`, `getModuleStats`, `getStats`, `findAll` of users and the progress query's SQL aggregates: only `getUserProgress`'s defaulting of missing aggregates is modelled.
- The rgpd, audit-log, `auth/me`, login and register routes, the admin pages, the dashboards and the rest of the UI: glue around the modelled operations.

## Findings

| source | as written | input that shows it | evidently intended | confidence | as-written member | corrected member |
|---|---|---|---|---|---|---|
| lib/models/Module.ts:92-122 | after the insert, `create` re-reads the module with `findById`, which only returns active modules, and throws "Failed to create module" when nothing comes back | `create({ ..., is_active: false })`: the row is inserted, then the call fails | return the module just inserted, inactive or not | not executed | `ModuleModel.CreateInactiveFailsAfterInsert` | `ModuleModel.CreateIntendedReturnsInserted`, used by `ModuleModel.ModuleTable.Create` |
