/**
 * The password dialog used for both encryption and decryption: the strength
 * meter shown while choosing a new password, the encrypt/decrypt mode taken
 * from the dialog's title, and the submit guard that refuses blank
 * passwords and, when encrypting, a confirmation that differs.
 */
module PasswordModal {
  import opened Wrappers
  import opened Strings

  // ---------------------------------------------------------------------------
  // Strength

  /** The four character classes the meter tests with a regular expression
      each: `[a-z]`, `[A-Z]`, `[0-9]` and `[^a-zA-Z0-9]`. */
  datatype CharClass = LowerLetter | UpperLetter | Digit | Other

  predicate InClass(c: char, k: CharClass) {
    match k
    case LowerLetter => IsLower(c)
    case UpperLetter => IsUpper(c)
    case Digit => IsDigit(c)
    case Other => !IsLower(c) && !IsUpper(c) && !IsDigit(c)
  }

  /** `/[...]/.test(pwd)`: some character of the password is in the class. */
  predicate Has(pwd: string, k: CharClass) {
    exists i :: 0 <= i < |pwd| && InClass(pwd[i], k)
  }

  function Point(b: bool): nat {
    if b then 1 else 0
  }

  /** The raw score: one point for a length of 8 or more, one more for 12 or
      more, and one for each character class present. */
  function RawScore(pwd: string): (score: nat)
    ensures score <= 6
  {
    Point(|pwd| >= 8) + Point(|pwd| >= 12)
      + Point(Has(pwd, LowerLetter)) + Point(Has(pwd, UpperLetter))
      + Point(Has(pwd, Digit)) + Point(Has(pwd, Other))
  }

  /** The meter's reading: a bar count from 0 to 3, a label (its name) and a colour. */
  datatype Strength = Strength(score: nat, name: string, color: string)

  /** `getPasswordStrength`: nothing for an empty password; otherwise a raw
      score of at most 2 is weak, at most 4 medium, and above that strong. */
  function PasswordStrength(pwd: string): (r: Strength)
    ensures pwd == [] <==> r.score == 0
    ensures pwd == [] ==> r.name == "" && r.color == ""
    ensures r.score <= 3
    ensures pwd != [] ==> (r.score == 1 <==> RawScore(pwd) <= 2)
    ensures pwd != [] ==> (r.score == 3 <==> RawScore(pwd) >= 5)
  {
    if pwd == [] then Strength(0, "", "")
    else
      var score := RawScore(pwd);
      if score <= 2 then Strength(1, "Weak", "#ef4444")
      else if score <= 4 then Strength(2, "Medium", "#f59e0b")
      else Strength(3, "Strong", "#10b981")
  }

  /** A class present in a password is present after anything is appended. */
  lemma HasExtends(pwd: string, more: string, k: CharClass)
    requires Has(pwd, k)
    ensures Has(pwd + more, k)
  {
    var i :| 0 <= i < |pwd| && InClass(pwd[i], k);
    assert (pwd + more)[i] == pwd[i];
  }

  /** Typing more characters never lowers the raw score. */
  lemma AppendNeverLowersScore(pwd: string, more: string)
    ensures RawScore(pwd) <= RawScore(pwd + more)
  {
    if Has(pwd, LowerLetter) { HasExtends(pwd, more, LowerLetter); }
    if Has(pwd, UpperLetter) { HasExtends(pwd, more, UpperLetter); }
    if Has(pwd, Digit) { HasExtends(pwd, more, Digit); }
    if Has(pwd, Other) { HasExtends(pwd, more, Other); }
  }

  /** ... nor the number of bars the meter shows. */
  lemma AppendNeverLowersStrength(pwd: string, more: string)
    ensures PasswordStrength(pwd).score <= PasswordStrength(pwd + more).score
  {
    AppendNeverLowersScore(pwd, more);
    if pwd != [] {
      assert |pwd + more| > 0;
    }
  }

  /** Twelve or more characters drawn from all four classes is the highest
      raw score, and so strong. */
  lemma FullScore(pwd: string)
    requires |pwd| >= 12
    requires forall k: CharClass :: Has(pwd, k)
    ensures RawScore(pwd) == 6 && PasswordStrength(pwd).name == "Strong"
  {
    assert Has(pwd, LowerLetter) && Has(pwd, UpperLetter) && Has(pwd, Digit) && Has(pwd, Other);
  }

  /** Lower-case letters alone, however many, never get past "Medium", and
      fewer than eight of them are "Weak". */
  lemma LowerOnlyIsNotStrong(pwd: string)
    requires pwd != []
    requires forall i :: 0 <= i < |pwd| ==> IsLower(pwd[i])
    ensures RawScore(pwd) <= 3 && PasswordStrength(pwd).name != "Strong"
    ensures |pwd| < 8 ==> PasswordStrength(pwd).name == "Weak"
  {
    assert !Has(pwd, UpperLetter) && !Has(pwd, Digit) && !Has(pwd, Other);
  }

  // ---------------------------------------------------------------------------
  // Mode

  /** `title.toLowerCase().includes('encrypt')`. */
  predicate IsEncrypting(title: string) {
    Contains(Lower(title), "encrypt")
  }

  lemma LowerCharIdempotent(c: char)
    ensures LowerChar(LowerChar(c)) == LowerChar(c)
  {
  }

  /** The mode ignores the title's letter case. */
  lemma ModeIgnoresCase(title: string)
    ensures IsEncrypting(Lower(title)) <==> IsEncrypting(title)
  {
    forall i | 0 <= i < |title|
      ensures Lower(Lower(title))[i] == Lower(title)[i]
    {
      LowerCharIdempotent(title[i]);
    }
    assert Lower(Lower(title)) == Lower(title);
  }

  /** A title with "Encrypt" at the start puts the dialog in encrypt mode. */
  lemma EncryptTitle(rest: string)
    ensures IsEncrypting("Encrypt" + rest)
  {
    var t := Lower("Encrypt" + rest);
    assert t[..7] == "encrypt";
    ContainsAt(t, "encrypt", 0);
  }

  // ---------------------------------------------------------------------------
  // The form

  /** The dialog's fields: both passwords and whether each is shown in
      clear. */
  datatype PasswordForm = PasswordForm(password: string, confirm: string, showPassword: bool, showConfirm: bool)

  const EmptyForm: PasswordForm := PasswordForm("", "", false, false)

  /** `passwordsMatch`: always true when decrypting. */
  predicate PasswordsMatch(f: PasswordForm, encrypting: bool) {
    !encrypting || f.password == f.confirm
  }

  /** The submit button is disabled for a blank password or, when
      encrypting, an unmatched confirmation. */
  predicate SubmitDisabled(f: PasswordForm, encrypting: bool) {
    Trim(JavaScript, f.password) == [] || (encrypting && !PasswordsMatch(f, encrypting))
  }

  /** The dialog after a submit attempt, and the password handed on, if
      any. */
  datatype SubmitOutcome = SubmitOutcome(submitted: Option<string>, form: PasswordForm)

  /** `handleSubmit`: a blank password, or a mismatch while encrypting, does
      nothing; otherwise the password is handed on as typed (untrimmed) and
      every field is reset. */
  function Submit(f: PasswordForm, encrypting: bool): (r: SubmitOutcome)
    ensures r.submitted.Some? <==> !IsBlank(JavaScript, f.password) && (!encrypting || f.password == f.confirm)
    ensures r.submitted.Some? ==> r.submitted.value == f.password && r.form == EmptyForm
    ensures r.submitted.None? ==> r.form == f
  {
    TrimEmptyIffBlank(JavaScript, f.password);
    if Trim(JavaScript, f.password) == [] then SubmitOutcome(None, f)
    else if encrypting && f.password != f.confirm then SubmitOutcome(None, f)
    else SubmitOutcome(Some(f.password), EmptyForm)
  }

  /** The button is disabled exactly when pressing it would do nothing. */
  lemma DisabledIffRejected(f: PasswordForm, encrypting: bool)
    ensures SubmitDisabled(f, encrypting) <==> Submit(f, encrypting).submitted.None?
  {
    TrimEmptyIffBlank(JavaScript, f.password);
  }

  /** When decrypting, the confirmation field plays no part. */
  lemma DecryptIgnoresConfirm(f: PasswordForm, confirm: string)
    ensures Submit(f, false).submitted == Submit(f.(confirm := confirm), false).submitted
    ensures !SubmitDisabled(f, false) <==> !SubmitDisabled(f.(confirm := confirm), false)
  {
  }

  /** `handleClose`: every field is reset. */
  function Close(f: PasswordForm): (r: PasswordForm)
    ensures r.password == [] && r.confirm == [] && !r.showPassword && !r.showConfirm
  {
    EmptyForm
  }

  /** The meter is shown only while encrypting and once something is
      typed; the mismatch warning only once a confirmation is typed. */
  predicate ShowsMeter(f: PasswordForm, encrypting: bool) {
    encrypting && f.password != []
  }

  predicate ShowsMismatch(f: PasswordForm, encrypting: bool) {
    encrypting && f.confirm != [] && !PasswordsMatch(f, encrypting)
  }

  /** A typed, unmatched confirmation shows the warning and blocks the
      submit; decrypting never shows it. */
  lemma MismatchBlocksSubmit(f: PasswordForm, encrypting: bool)
    ensures ShowsMismatch(f, encrypting) ==> Submit(f, encrypting).submitted.None?
    ensures !encrypting ==> !ShowsMismatch(f, encrypting)
  {
  }
}
