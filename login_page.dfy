/** `Login.jsx`: the sign-in form's validation rules and its submit handler. */
module LoginPage {
  import opened Common
  import opened Models
  import opened AuthController
  import opened Routes
  import opened Session
  import opened RegisterPage

  datatype LoginForm = LoginForm(email: string, password: string)

  /** `email: Yup.string().email().required()`, `password: Yup.string().required().min(8)`;
      `emailOk` stands for the library's email pattern. */
  function ValidLoginForm(form: LoginForm, emailOk: string -> bool): (b: bool)
    ensures b <==> form.email != "" && emailOk(form.email) && |form.password| >= 8
  {
    form.email != "" && emailOk(form.email) && ValidPassword(form.password)
  }

  /** The sign-in rules are no stricter than the sign-up rules: the email and password a
      valid registration form carries also pass the login form. */
  lemma RegisteredCredentialsPassLogin(form: RegisterForm, emailOk: string -> bool)
    requires ValidRegisterForm(form, emailOk)
    ensures ValidLoginForm(LoginForm(form.email, form.password), emailOk)
  {
  }

  /** Conversely, the credentials of a login form that passes can be registered: a two-letter
      name, a ten-digit phone and the password typed again complete a valid sign-up form. */
  lemma LoginFormIsRegisterCredentials(form: LoginForm, emailOk: string -> bool)
    requires ValidLoginForm(form, emailOk)
    ensures ValidRegisterForm(RegisterForm("ab", "0123456789", form.email, form.password, form.password), emailOk)
  {
    assert TenDigits("0123456789");
  }

  /** `onSubmit`. On success the reply's token and `data` are stored and the page navigates to
      `/dashboard`; on failure nothing is stored and the server's message, or 'Login failed',
      is shown. */
  method Submit(storage: BrowserStorage, outcome: ApiOutcome<AuthBody>) returns (e: SubmitEffect)
    modifies storage
    ensures outcome.Succeeded? ==>
      && storage.token == Some(StorageText(outcome.body.token))
      && storage.user == Some(outcome.body.data)
      && e == SubmitEffect(Some("/dashboard"), None)
    ensures outcome.Failed? ==>
      unchanged(storage) && e == SubmitEffect(None, Some(ErrorText(outcome.message, "Login failed")))
  {
    if outcome.Succeeded? {
      storage.token := Some(StorageText(outcome.body.token));
      storage.user := Some(outcome.body.data);
      e := SubmitEffect(Some("/dashboard"), None);
    } else {
      e := SubmitEffect(None, Some(ErrorText(outcome.message, "Login failed")));
    }
  }

  /** A successful login reply carries a token, so after storing it the private pages render
      and the login page sends the user to the dashboard. */
  lemma LoginReplyOpensPrivatePages(users: seq<User>, email: string, password: string, path: string)
    requires LoginReply(users, email, password).status == 200
    requires IsPrivatePath(path)
    ensures var token := Some(StorageText(LoginReply(users, email, password).body.value.token));
            Resolve(token, path) == Render && Resolve(token, "/login") == Redirect("/dashboard")
  {
    var token := Some(StorageText(LoginReply(users, email, password).body.value.token));
    PrivateNeedsToken(token, path);
    PublicNeedsNoToken(token, "/login");
  }

  /** A failed login always shows a non-empty message. */
  lemma FailureMessageNonEmpty(message: Option<string>)
    ensures ErrorText(message, "Login failed") != ""
  {
  }
}
