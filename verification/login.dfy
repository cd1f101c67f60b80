/** The login page: an auth-check request on mount, and a credential form
    whose submit clears the previous error before the request settles. */
module Login {
  import opened Wrappers
  import AuthContext

  const InvalidCredentials: string := "Invalid credentials. Please try again."

  /** The page's own state: the error banner and the two input values. */
  datatype Form = Form(error: Option<string>, email: string, password: string)

  /** The page together with the provider it calls into. */
  datatype LoginState = LoginState(form: Form, session: AuthContext.Session)

  /** The page as first rendered: empty inputs, no error. */
  function InitialState(session: AuthContext.Session): (p: LoginState)
    ensures p.form.error.None? && p.form.email == "" && p.form.password == ""
    ensures p.session == session
  {
    LoginState(Form(None, "", ""), session)
  }

  /** `login()` followed by `navigate("/dashboard", { replace: true })`. */
  function LogInAndNavigate(p: LoginState): (p': LoginState)
    ensures p'.session.isAuthenticated
    ensures p'.session.location == AuthContext.DashboardPath
    ensures p'.session.cookieJar == p.session.cookieJar
    ensures p'.form == p.form
  {
    p.(session := AuthContext.Login(p.session).(location := AuthContext.DashboardPath))
  }

  /** The mount effect: a resolved auth check logs in and moves to the
      dashboard; a rejected one is swallowed. */
  function AuthCheck(p: LoginState, r: Response<()>): (p': LoginState)
    ensures r.Failure? ==> p' == p
    ensures r.Success? ==>
      && p'.session.isAuthenticated
      && p'.session.location == AuthContext.DashboardPath
      && p'.session.cookieJar == p.session.cookieJar
      && p'.form == p.form
  {
    match r
    case Success(_) => LogInAndNavigate(p)
    case Failure => p
  }

  /** `handleSubmit`: clear the error, then log in on success or show the one
      generic message on any failure. */
  function Submit(p: LoginState, r: Response<()>): (p': LoginState)
    ensures p'.form.email == p.form.email && p'.form.password == p.form.password
    ensures r.Success? ==>
      && p'.form.error.None?
      && p'.session.isAuthenticated
      && p'.session.location == AuthContext.DashboardPath
    ensures r.Failure? ==>
      && p'.form.error == Some(InvalidCredentials)
      && p'.session == p.session
  {
    var cleared := p.(form := p.form.(error := None));
    match r
    case Success(_) => LogInAndNavigate(cleared)
    case Failure => cleared.(form := cleared.form.(error := Some(InvalidCredentials)))
  }

  // ---------------------------------------------------------------------------
  // Properties

  /** The error a submit leaves depends only on the request's outcome, never
      on the error shown before. */
  lemma SubmitForgetsError(p: LoginState, q: LoginState, r: Response<()>)
    requires p.session == q.session
    requires p.form.email == q.form.email && p.form.password == q.form.password
    ensures Submit(p, r) == Submit(q, r)
  {
  }

  /** A failed attempt can be retried as is: the inputs survive, and a later
      successful attempt clears the message and logs in. */
  lemma RetryAfterFailure(p: LoginState)
    ensures var failed := Submit(p, Failure);
      && failed.form.email == p.form.email
      && failed.form.password == p.form.password
      && Submit(failed, Success(())).form.error.None?
      && Submit(failed, Success(())).session.isAuthenticated
  {
  }

  /** A resolved auth check on a fresh page lands on the dashboard with no
      submit and no error; a rejected one leaves the fresh page as it was. */
  lemma AutoLogin(session: AuthContext.Session)
    ensures var p := AuthCheck(InitialState(session), Success(()));
      && p.session.isAuthenticated
      && p.session.location == AuthContext.DashboardPath
      && p.form.error.None?
    ensures AuthCheck(InitialState(session), Failure) == InitialState(session)
    ensures AuthCheck(InitialState(session), Failure).session.isAuthenticated == session.isAuthenticated
  {
  }
}
