/** The registration form's client-side logic (`app/register/page.tsx`): the
    password strength score, the strength bar, the mismatch warning and the
    submit button's disabled flag. */
module RegisterPage {
  import opened JsString
  import opened Auth

  /** The `checks` object of `getPasswordStrength`, one flag per rule. */
  datatype StrengthChecks = StrengthChecks(length: bool, uppercase: bool, lowercase: bool, number: bool, special: bool)

  datatype PasswordStrength = PasswordStrength(checks: StrengthChecks, score: nat)

  /** `Object.values(checks).filter(Boolean).length`. */
  function CountTrue(c: StrengthChecks): (n: nat)
    ensures n <= 5
  {
    B2N(c.length) + B2N(c.uppercase) + B2N(c.lowercase) + B2N(c.number) + B2N(c.special)
  }

  /** `getPasswordStrength`: the five checks and the number that hold. */
  function GetPasswordStrength(password: string): (s: PasswordStrength)
    ensures s.score <= 5
  {
    var checks := StrengthChecks(
      Utf16Length(password) >= 8,
      HasCharIn(password, 'A', 'Z'),
      HasCharIn(password, 'a', 'z'),
      HasCharIn(password, '0', '9'),
      HasSpecial(password));
    PasswordStrength(checks, CountTrue(checks))
  }

  /** The client's checks are the server's rules: the score counts the rules
      `validatePassword` accepts, so it is 5 exactly when the server would
      report no error. */
  lemma StrengthMatchesValidation(p: string)
    ensures GetPasswordStrength(p).score + |FailedRules(p)| == 5
    ensures GetPasswordStrength(p).score == 5 <==> FailedRules(p) == []
    ensures GetPasswordStrength(p).checks.length <==> Satisfies(p, MinLength)
    ensures GetPasswordStrength(p).checks.special <==> Satisfies(p, Special)
  {
    FailedRulesUnfold(p);
  }

  /** `disabled={loading || !formData.consent_rgpd || passwordStrength.score < 4}`. */
  function SubmitDisabled(loading: bool, consent: bool, score: int): bool {
    loading || !consent || score < 4
  }

  /** The button is enabled exactly when nothing is loading, consent is given
      and at most one password rule fails; so a password the server rejects for
      one rule can still be submitted. */
  lemma SubmitEnabledIff(loading: bool, consent: bool, p: string)
    ensures !SubmitDisabled(loading, consent, GetPasswordStrength(p).score)
            <==> !loading && consent && |FailedRules(p)| <= 1
  {
    StrengthMatchesValidation(p);
  }

  datatype BarColour = Gray | Red | Yellow | Green

  /** Class of bar `level` (1 to 5): filled when the score reaches it; filled
      bars are red up to score 2, yellow for 3 and 4, green for 5. */
  function BarColourAt(score: int, level: int): BarColour {
    if score >= level then
      if score <= 2 then Red else if score <= 4 then Yellow else Green
    else Gray
  }

  /** The five bars `[1, 2, 3, 4, 5].map(...)`, shown only for a non-empty password. */
  function StrengthBars(password: string): (bars: seq<BarColour>)
    ensures password == "" ==> bars == []
    ensures password != "" ==> |bars| == 5
  {
    if password == "" then []
    else
      var s := GetPasswordStrength(password).score;
      seq(5, k requires 0 <= k < 5 => BarColourAt(s, k + 1))
  }

  /** The bars up to the score are coloured and the rest grey, all coloured
      bars share one colour, and that colour is green exactly when the server
      accepts the password. */
  lemma StrengthBarsMeaning(p: string)
    requires p != ""
    ensures forall k :: 0 <= k < 5 ==> (StrengthBars(p)[k] != Gray <==> k < GetPasswordStrength(p).score)
    ensures forall k :: 0 <= k < GetPasswordStrength(p).score ==> StrengthBars(p)[k] == StrengthBars(p)[0]
    ensures StrengthBars(p)[0] == Green <==> FailedRules(p) == []
  {
    StrengthMatchesValidation(p);
    var s := GetPasswordStrength(p).score;
    var bars := StrengthBars(p);
    assert forall k :: 0 <= k < 5 ==> bars[k] == BarColourAt(s, k + 1);
  }

  /** `formData.confirmPassword && formData.password !== formData.confirmPassword`. */
  function ShowMismatch(password: string, confirm: string): bool {
    confirm != "" && password != confirm
  }

  /** The warning never shows while the confirmation is empty or equal to the
      password, and always shows otherwise. */
  lemma ShowMismatchCases(password: string, confirm: string)
    ensures !ShowMismatch(password, password)
    ensures !ShowMismatch(password, "")
    ensures confirm != "" && confirm != password ==> ShowMismatch(password, confirm)
  {
  }
}
