/** `Register.jsx`: the sign-up form's validation rules and its submit handler. */
module RegisterPage {
  import opened Common
  import opened AuthController
  import opened Routes
  import opened Session

  datatype RegisterForm = RegisterForm(name: string, phone: string, email: string,
                                       password: string, confirmPassword: string)

  /** `Yup.string().required().min(2)`: at least two characters, which `required` adds
      nothing to. */
  function ValidName(name: string): (b: bool)
    ensures b <==> |name| >= 2
  {
    name != "" && |name| >= 2
  }

  predicate IsDigit(c: char) {
    '0' <= c <= '9'
  }

  /** The phone rule as stated: `^[0-9]{10}$`, exactly ten ASCII digits. */
  predicate TenDigits(phone: string) {
    |phone| == 10 && forall i :: 0 <= i < |phone| ==> IsDigit(phone[i])
  }

  /** How the pattern is matched: `n` more digits, then the end of the input. */
  function MatchDigits(s: string, n: nat): (b: bool)
    decreases n
  {
    if n == 0 then s == []
    else s != [] && IsDigit(s[0]) && MatchDigits(s[1..], n - 1)
  }

  /** The matcher accepts exactly the strings of `n` digits. */
  lemma {:induction false} MatchDigitsCorrect(s: string, n: nat)
    ensures MatchDigits(s, n) <==> |s| == n && forall i :: 0 <= i < |s| ==> IsDigit(s[i])
    decreases n
  {
    if n > 0 && s != [] {
      MatchDigitsCorrect(s[1..], n - 1);
      if |s| == n && forall i :: 0 <= i < |s| ==> IsDigit(s[i]) {
        assert forall i :: 0 <= i < |s[1..]| ==> IsDigit(s[1..][i]) by {
          forall i | 0 <= i < |s[1..]| ensures IsDigit(s[1..][i]) {
            assert s[1..][i] == s[i + 1];
          }
        }
      }
      if MatchDigits(s, n) {
        forall i | 0 <= i < |s| ensures IsDigit(s[i]) {
          if i > 0 {
            assert s[i] == s[1..][i - 1];
          }
        }
      }
    }
  }

  /** `Yup.string().required().matches(/^[0-9]{10}$/)`: exactly ten ASCII digits. */
  function ValidPhone(phone: string): (b: bool)
    ensures b <==> TenDigits(phone)
  {
    MatchDigitsCorrect(phone, 10);
    phone != "" && MatchDigits(phone, 10)
  }

  /** `Yup.string().required().min(8)`: at least eight characters. */
  function ValidPassword(password: string): (b: bool)
    ensures b <==> |password| >= 8
  {
    password != "" && |password| >= 8
  }

  /** `oneOf([Yup.ref('password'), null]).required()`: the confirmation is the password, and
      is not empty; with a valid password, equality alone decides. */
  function ValidConfirm(password: string, confirm: string): (b: bool)
    ensures b <==> confirm == password && password != ""
    ensures ValidPassword(password) ==> (b <==> confirm == password)
  {
    confirm != "" && confirm == password
  }

  /** The whole schema. `emailOk` stands for Yup's `.email()` check, whose pattern is defined
      in the library; `.required()` is checked here. */
  function ValidRegisterForm(form: RegisterForm, emailOk: string -> bool): (b: bool)
    ensures b <==>
      && |form.name| >= 2 && TenDigits(form.phone)
      && form.email != "" && emailOk(form.email)
      && |form.password| >= 8 && form.confirmPassword == form.password
  {
    && ValidName(form.name)
    && ValidPhone(form.phone)
    && form.email != "" && emailOk(form.email)
    && ValidPassword(form.password)
    && ValidConfirm(form.password, form.confirmPassword)
  }

  /** A valid form carries a password of at least 8 characters, typed the same way twice. */
  lemma ValidFormPasswords(form: RegisterForm, emailOk: string -> bool)
    requires ValidRegisterForm(form, emailOk)
    ensures |form.password| >= 8 && form.confirmPassword == form.password
  {
  }

  /** The body sent to `auth/register`. */
  datatype RegisterPayload = RegisterPayload(name: string, email: string, password: string)

  /** Only name, email and password are sent; phone and the confirmation stay in the form. */
  function PayloadOf(form: RegisterForm): (p: RegisterPayload)
    ensures p.name == form.name && p.email == form.email && p.password == form.password
  {
    RegisterPayload(form.name, form.email, form.password)
  }

  /** Two forms that differ only in phone and confirmation send the same request. */
  lemma PayloadIgnoresPhoneAndConfirm(a: RegisterForm, b: RegisterForm)
    requires a.name == b.name && a.email == b.email && a.password == b.password
    ensures PayloadOf(a) == PayloadOf(b)
  {
  }

  /** The observable effect of a submit: where the page navigates, and the error it shows. */
  datatype SubmitEffect = SubmitEffect(navigateTo: Option<string>, error: Option<string>)

  /** `onSubmit` as written. On success it stores `response.data.token`; the register reply's
      `data` has no `token`, so the text "undefined" is stored. It then navigates to `/login`.
      On failure it shows the server's message or 'Registration failed' and stores nothing. */
  method SubmitAsWritten(storage: BrowserStorage, outcome: ApiOutcome<AuthBody>) returns (e: SubmitEffect)
    modifies storage
    ensures outcome.Succeeded? ==>
      storage.token == Some(StorageText(None)) && storage.user == old(storage.user)
      && e == SubmitEffect(Some("/login"), None)
    ensures outcome.Failed? ==>
      unchanged(storage) && e == SubmitEffect(None, Some(ErrorText(outcome.message, "Registration failed")))
  {
    if outcome.Succeeded? {
      // `response.data` is `{ userId, name, email }`: reading `.token` gives undefined.
      var dataToken: Option<string> := None;
      storage.token := Some(StorageText(dataToken));
      e := SubmitEffect(Some("/login"), None);
    } else {
      e := SubmitEffect(None, Some(ErrorText(outcome.message, "Registration failed")));
    }
  }

  /** The "undefined" token written on sign-up counts as logged in: the `/login` page it
      navigates to bounces to `/dashboard`, and the private pages open without a real token. */
  lemma StoredUndefinedBlocksLogin()
    ensures HasToken(Some(StorageText(None)))
    ensures Resolve(Some(StorageText(None)), "/login") == Redirect("/dashboard")
    ensures Resolve(Some(StorageText(None)), "/my-blogs") == Render
  {
    PublicNeedsNoToken(Some(StorageText(None)), "/login");
    PrivateNeedsToken(Some(StorageText(None)), "/my-blogs");
  }

  /** `onSubmit` as intended: registration issues no token, so none is written, and the user
      lands on the login page. */
  method Submit(storage: BrowserStorage, outcome: ApiOutcome<AuthBody>) returns (e: SubmitEffect)
    modifies storage
    ensures unchanged(storage)
    ensures outcome.Succeeded? ==> e == SubmitEffect(Some("/login"), None)
    ensures outcome.Failed? ==> e == SubmitEffect(None, Some(ErrorText(outcome.message, "Registration failed")))
  {
    if outcome.Succeeded? {
      e := SubmitEffect(Some("/login"), None);
    } else {
      e := SubmitEffect(None, Some(ErrorText(outcome.message, "Registration failed")));
    }
  }

  /** After the intended submit, a visitor who had no token sees the login page it navigates to. */
  lemma SubmitThenLoginRenders(token: Option<string>)
    requires !HasToken(token)
    ensures Resolve(token, "/login") == Render
  {
    PublicNeedsNoToken(token, "/login");
  }
}
