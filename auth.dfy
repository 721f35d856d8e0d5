/** Credential helpers of `lib/auth.ts`: the session-token claims, the
    "Bearer" header extractor, the password policy and the e-mail check. */
module Auth {
  import opened Wrappers
  import opened JsString

  datatype Role = UserRole | AdminRole

  /** The role's wire name, as compared and copied into headers. */
  function RoleName(r: Role): string {
    match r
    case UserRole => "user"
    case AdminRole => "admin"
  }

  /** The claims a session token carries; `iat` and `exp` are optional. */
  datatype JwtPayload = JwtPayload(userId: int, email: string, role: Role, iat: Option<int>, exp: Option<int>)

  /** `verifyToken`: signature and expiry check by the JSON Web Token library.
      It catches every failure and answers `null`, so it is a total function
      from the token text to an optional payload. */
  type TokenVerifier = string -> Option<JwtPayload>

  const BearerPrefix: string := "Bearer "

  /** `extractTokenFromHeader`: the credential of an `Authorization: Bearer`
      header (section 2.1 of RFC 6750), with the scheme matched exactly and
      case-sensitively, including its single space. */
  function ExtractTokenFromHeader(authHeader: Option<string>): (r: Option<string>)
    ensures r.Some? <==> authHeader.Some? && StartsWith(authHeader.value, BearerPrefix)
    ensures r.Some? ==> authHeader.value == BearerPrefix + r.value
  {
    if authHeader.None? || authHeader.value == "" || !StartsWith(authHeader.value, BearerPrefix) then None
    else Some(SubstringFrom(authHeader.value, 7))
  }

  /** Extracting from `"Bearer " + t` gives back exactly `t`. */
  lemma ExtractBearerRoundTrip(t: string)
    ensures ExtractTokenFromHeader(Some(BearerPrefix + t)) == Some(t)
  {
    assert StartsWith(BearerPrefix + t, BearerPrefix);
  }

  // ---------------------------------------------------------------------
  // Password policy

  /** The five rules of `validatePassword`, in the order it checks them. */
  datatype PasswordRule = MinLength | Uppercase | Lowercase | Digit | Special

  const PasswordRules: seq<PasswordRule> := [MinLength, Uppercase, Lowercase, Digit, Special]

  /** The character class `[!@#$%^&*(),.?":{}|<>]`. */
  const SpecialChars: string := "!@#$%^&*(),.?\":{}|<>"

  /** `/[lo-hi]/.test(p)`: some character of `p` lies in the range. */
  predicate HasCharIn(p: string, lo: char, hi: char) {
    exists i :: 0 <= i < |p| && lo <= p[i] <= hi
  }

  predicate HasSpecial(p: string) {
    exists i :: 0 <= i < |p| && p[i] in SpecialChars
  }

  predicate Satisfies(p: string, rule: PasswordRule) {
    match rule
    case MinLength => Utf16Length(p) >= 8
    case Uppercase => HasCharIn(p, 'A', 'Z')
    case Lowercase => HasCharIn(p, 'a', 'z')
    case Digit => HasCharIn(p, '0', '9')
    case Special => HasSpecial(p)
  }

  function RuleMessage(rule: PasswordRule): string {
    match rule
    case MinLength => "Password must be at least 8 characters long"
    case Uppercase => "Password must contain at least one uppercase letter"
    case Lowercase => "Password must contain at least one lowercase letter"
    case Digit => "Password must contain at least one number"
    case Special => "Password must contain at least one special character"
  }

  /** Position of a rule in the checking order. */
  function RuleIndex(rule: PasswordRule): nat {
    match rule
    case MinLength => 0
    case Uppercase => 1
    case Lowercase => 2
    case Digit => 3
    case Special => 4
  }

  /** The rules among `rules` that `p` fails, in the order given. */
  function FailedAmong(p: string, rules: seq<PasswordRule>): seq<PasswordRule> {
    if rules == [] then []
    else (if Satisfies(p, rules[0]) then [] else [rules[0]]) + FailedAmong(p, rules[1..])
  }

  /** The rules `p` fails, in checking order. */
  function FailedRules(p: string): seq<PasswordRule> {
    FailedAmong(p, PasswordRules)
  }

  function Messages(rules: seq<PasswordRule>): (ms: seq<string>)
    ensures |ms| == |rules|
    ensures forall i :: 0 <= i < |rules| ==> ms[i] == RuleMessage(rules[i])
  {
    seq(|rules|, i requires 0 <= i < |rules| => RuleMessage(rules[i]))
  }

  /** `validatePassword`: each failed rule pushes its message onto `errors`, in
      the fixed order length, uppercase, lowercase, digit, special; the password
      is valid when no message was pushed. */
  method ValidatePassword(password: string) returns (valid: bool, errors: seq<string>)
    ensures errors == Messages(FailedRules(password))
    ensures valid <==> errors == []
  {
    errors := [];
    ghost var failed: seq<PasswordRule> := [];
    ghost var failed0, errors0 := failed, errors;
    if !Satisfies(password, MinLength) {
      errors, failed := errors + [RuleMessage(MinLength)], failed + [MinLength];
    }
    Pushed(password, MinLength, failed0, errors0, failed, errors);
    failed0, errors0 := failed, errors;
    if !Satisfies(password, Uppercase) {
      errors, failed := errors + [RuleMessage(Uppercase)], failed + [Uppercase];
    }
    Pushed(password, Uppercase, failed0, errors0, failed, errors);
    failed0, errors0 := failed, errors;
    if !Satisfies(password, Lowercase) {
      errors, failed := errors + [RuleMessage(Lowercase)], failed + [Lowercase];
    }
    Pushed(password, Lowercase, failed0, errors0, failed, errors);
    failed0, errors0 := failed, errors;
    if !Satisfies(password, Digit) {
      errors, failed := errors + [RuleMessage(Digit)], failed + [Digit];
    }
    Pushed(password, Digit, failed0, errors0, failed, errors);
    failed0, errors0 := failed, errors;
    if !Satisfies(password, Special) {
      errors, failed := errors + [RuleMessage(Special)], failed + [Special];
    }
    Pushed(password, Special, failed0, errors0, failed, errors);
    assert [] + FailedOne(password, MinLength) == FailedOne(password, MinLength);
    FailedRulesUnfold(password);
    valid := |errors| == 0;
  }

  /** One check of `validatePassword`: the rule's message is pushed exactly
      when the rule fails, and the messages still follow the failed rules. */
  lemma Pushed(p: string, rule: PasswordRule, failed0: seq<PasswordRule>, errors0: seq<string>,
               failed: seq<PasswordRule>, errors: seq<string>)
    requires errors0 == Messages(failed0)
    requires Satisfies(p, rule) ==> failed == failed0 && errors == errors0
    requires !Satisfies(p, rule) ==> failed == failed0 + [rule] && errors == errors0 + [RuleMessage(rule)]
    ensures failed == failed0 + FailedOne(p, rule)
    ensures errors == Messages(failed)
  {
    MessagesSnoc(failed0, rule);
    assert failed0 + [] == failed0;
  }

  lemma MessagesSnoc(rules: seq<PasswordRule>, r: PasswordRule)
    ensures Messages(rules + [r]) == Messages(rules) + [RuleMessage(r)]
  {
  }

  function FailedOne(p: string, rule: PasswordRule): seq<PasswordRule> {
    if Satisfies(p, rule) then [] else [rule]
  }

  /** Filtering one more rule appends its verdict. */
  lemma {:induction false} FailedAmongSnoc(p: string, rules: seq<PasswordRule>, r: PasswordRule)
    ensures FailedAmong(p, rules + [r]) == FailedAmong(p, rules) + FailedOne(p, r)
    decreases |rules|
  {
    if rules == [] {
      assert [] + [r] == [r];
    } else {
      assert (rules + [r])[1..] == rules[1..] + [r];
      FailedAmongSnoc(p, rules[1..], r);
    }
  }

  /** The failed rules among the first `k + 1` rules. */
  lemma RulesStep(p: string, k: nat)
    requires k < |PasswordRules|
    ensures FailedAmong(p, PasswordRules[..k + 1]) == FailedAmong(p, PasswordRules[..k]) + FailedOne(p, PasswordRules[k])
  {
    assert PasswordRules[..k + 1] == PasswordRules[..k] + [PasswordRules[k]];
    FailedAmongSnoc(p, PasswordRules[..k], PasswordRules[k]);
  }

  lemma FailedRulesUnfold(p: string)
    ensures FailedRules(p) == FailedOne(p, MinLength) + FailedOne(p, Uppercase) + FailedOne(p, Lowercase)
                              + FailedOne(p, Digit) + FailedOne(p, Special)
  {
    assert PasswordRules[..0] == [];
    RulesStep(p, 0);
    RulesStep(p, 1);
    RulesStep(p, 2);
    RulesStep(p, 3);
    RulesStep(p, 4);
    assert PasswordRules[..5] == PasswordRules;
  }

  /** Filtering keeps exactly the failed rules of the list. */
  lemma {:induction false} FailedAmongMembers(p: string, rules: seq<PasswordRule>)
    ensures |FailedAmong(p, rules)| <= |rules|
    ensures forall r :: r in FailedAmong(p, rules) <==> r in rules && !Satisfies(p, r)
    decreases |rules|
  {
    if rules != [] {
      FailedAmongMembers(p, rules[1..]);
      assert rules == [rules[0]] + rules[1..];
    }
  }

  /** Filtering keeps the order of the rules. */
  lemma {:induction false} FailedAmongOrder(p: string, rules: seq<PasswordRule>)
    requires forall i, j :: 0 <= i < j < |rules| ==> RuleIndex(rules[i]) < RuleIndex(rules[j])
    ensures forall i, j :: 0 <= i < j < |FailedAmong(p, rules)| ==>
      RuleIndex(FailedAmong(p, rules)[i]) < RuleIndex(FailedAmong(p, rules)[j])
    decreases |rules|
  {
    if rules != [] {
      var tail := rules[1..];
      assert forall i, j :: 0 <= i < j < |tail| ==> RuleIndex(tail[i]) < RuleIndex(tail[j]) by {
        forall i, j | 0 <= i < j < |tail|
          ensures RuleIndex(tail[i]) < RuleIndex(tail[j])
        {
          assert tail[i] == rules[i + 1] && tail[j] == rules[j + 1];
        }
      }
      FailedAmongOrder(p, tail);
      FailedAmongMembers(p, tail);
      var rest := FailedAmong(p, tail);
      forall x | x in rest ensures RuleIndex(rules[0]) < RuleIndex(x) {
        var k :| 0 <= k < |tail| && tail[k] == x;
        assert x == rules[k + 1];
      }
    }
  }

  /** `validatePassword` reports one error per failed rule: at most five, each
      rule's message present exactly when the rule fails, in checking order. */
  lemma PasswordErrors(p: string)
    ensures |FailedRules(p)| <= 5
    ensures forall r :: r in FailedRules(p) <==> !Satisfies(p, r)
    ensures forall i, j :: 0 <= i < j < |FailedRules(p)| ==> RuleIndex(FailedRules(p)[i]) < RuleIndex(FailedRules(p)[j])
    ensures FailedRules(p) == [] <==> forall r :: Satisfies(p, r)
  {
    FailedAmongMembers(p, PasswordRules);
    FailedAmongOrder(p, PasswordRules);
    forall r ensures r in PasswordRules {
      match r
      case MinLength => assert PasswordRules[0] == r;
      case Uppercase => assert PasswordRules[1] == r;
      case Lowercase => assert PasswordRules[2] == r;
      case Digit => assert PasswordRules[3] == r;
      case Special => assert PasswordRules[4] == r;
    }
    if FailedRules(p) != [] {
      assert FailedRules(p)[0] in FailedRules(p);
    }
  }

  /** The length rule fails exactly on passwords shorter than 8 UTF-16 code
      units, and
      the special rule is met only by the listed punctuation characters. */
  lemma LengthAndSpecialRules(p: string)
    ensures MinLength in FailedRules(p) <==> Utf16Length(p) < 8
    ensures Special !in FailedRules(p) <==> exists i :: 0 <= i < |p| && p[i] in SpecialChars
  {
    PasswordErrors(p);
  }

  /** Four characters above U+FFFF are eight UTF-16 code units: they meet the
      length rule though the password has only four characters. */
  lemma AstralPasswordMeetsLength()
    ensures var p := "\U{1F600}\U{1F600}\U{1F600}\U{1F600}";
      |p| == 4 && Satisfies(p, MinLength)
  {
    var p := "\U{1F600}\U{1F600}\U{1F600}\U{1F600}";
    assert IsAstral(p[0]) && IsAstral(p[1]) && IsAstral(p[2]) && IsAstral(p[3]);
    assert p[1..][1..][1..][1..] == [];
  }

  // ---------------------------------------------------------------------
  // E-mail check

  /** The class `[^\s@]`. */
  predicate AtomChar(c: char) {
    !IsJsWhitespace(c) && c != '@'
  }

  predicate AllAtom(s: string) {
    forall i :: 0 <= i < |s| ==> AtomChar(s[i])
  }

  /** A '.' with at least one character on each side. */
  predicate HasInnerDot(d: string) {
    exists j :: 0 < j < |d| - 1 && d[j] == '.'
  }

  /** What `/^[^\s@]+@[^\s@]+\.[^\s@]+$/` matches, read as a shape:
      a non-empty local part and a domain, split by an '@', neither holding
      white space or '@', the domain containing a '.' that is neither its
      first nor its last character. */
  ghost predicate EmailShape(e: string) {
    exists k :: 0 < k < |e| && e[k] == '@' && AllAtom(e[..k]) && AllAtom(e[k + 1..]) && HasInnerDot(e[k + 1..])
  }

  /** Index of the first occurrence of `c`. */
  function IndexOf(s: string, c: char): (r: Option<nat>)
    ensures r.Some? ==> r.value < |s| && s[r.value] == c && forall j :: 0 <= j < r.value ==> s[j] != c
    ensures r.None? ==> forall j :: 0 <= j < |s| ==> s[j] != c
  {
    if s == [] then None
    else if s[0] == c then Some(0)
    else match IndexOf(s[1..], c)
      case None => None
      case Some(i) => Some(i + 1)
  }

  /** `validateEmail`: the regular-expression test, decided by splitting at the
      first '@'. It accepts exactly the strings of `EmailShape`. */
  function ValidateEmail(email: string): (ok: bool)
    ensures ok <==> EmailShape(email)
  {
    var at := IndexOf(email, '@');
    var ok := at.Some? && 0 < at.value && AllAtom(email[..at.value])
      && AllAtom(email[at.value + 1..]) && HasInnerDot(email[at.value + 1..]);
    assert ok ==> EmailShape(email) by {
      if ok {
        var k := at.value;
        assert 0 < k < |email| && email[k] == '@' && AllAtom(email[..k]) && AllAtom(email[k + 1..]) && HasInnerDot(email[k + 1..]);
      }
    }
    assert EmailShape(email) ==> ok by {
      if EmailShape(email) {
        var k :| 0 < k < |email| && email[k] == '@' && AllAtom(email[..k]) && AllAtom(email[k + 1..]) && HasInnerDot(email[k + 1..]);
        assert forall j :: 0 <= j < k ==> email[j] != '@' by {
          forall j | 0 <= j < k ensures email[j] != '@' {
            assert AtomChar(email[..k][j]);
          }
        }
        assert at == Some(k);
      }
    }
    ok
  }
}
