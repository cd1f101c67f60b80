/** The guard that wraps protected pages. */
module PrivateRoute {
  import AuthContext

  /** What the guard renders: its children, or a redirect element. */
  datatype Rendered<T> = Children(children: T) | Navigate(to: string)

  /** The guard reads the provider's value and shows its children only to an
      authenticated user; everyone else is sent home. */
  function Guard<T>(ctx: AuthContext.Session, children: T): (g: Rendered<T>)
    ensures ctx.isAuthenticated ==> g == Children(children)
    ensures !ctx.isAuthenticated ==> g == Navigate(AuthContext.Home)
  {
    if ctx.isAuthenticated then Children(children) else Navigate(AuthContext.Home)
  }

  /** The guard depends on the flag alone: two provider states that agree on
      it are guarded alike, whatever their location or cookies. */
  lemma GuardReadsOnlyFlag<T>(a: AuthContext.Session, b: AuthContext.Session, children: T)
    requires a.isAuthenticated == b.isAuthenticated
    ensures Guard(a, children) == Guard(b, children)
  {
  }
}

/** The application's route table, combined with the guard. */
module App {
  import opened Wrappers
  import AuthContext
  import PrivateRoute
  import Login

  datatype Page = LoginPage | DashboardPage

  /** A route's element: a page shown as is, or a page wrapped in the guard. */
  datatype Element = Public(page: Page) | Guarded(page: Page)

  /** The two-entry route table; exact path match. */
  function Route(path: string): (e: Option<Element>)
    ensures e == Some(Public(LoginPage)) <==> path == AuthContext.Home
    ensures e == Some(Guarded(DashboardPage)) <==> path == AuthContext.DashboardPath
    ensures e.None? <==> path != AuthContext.Home && path != AuthContext.DashboardPath
  {
    if path == AuthContext.Home then Some(Public(LoginPage))
    else if path == AuthContext.DashboardPath then Some(Guarded(DashboardPage))
    else None
  }

  /** The outcome of rendering one location. */
  datatype Screen = Shows(page: Page) | RedirectsTo(to: string) | NoMatch

  /** Look the path up and, for a guarded element, let the guard decide. */
  function Resolve(path: string, ctx: AuthContext.Session): (v: Screen)
    ensures v == Shows(LoginPage) <==> path == AuthContext.Home
    ensures v == Shows(DashboardPage) <==>
              path == AuthContext.DashboardPath && ctx.isAuthenticated
    ensures v.RedirectsTo? <==> path == AuthContext.DashboardPath && !ctx.isAuthenticated
    ensures v.RedirectsTo? ==> v.to == AuthContext.Home
    ensures v.NoMatch? <==> path != AuthContext.Home && path != AuthContext.DashboardPath
  {
    match Route(path)
    case None => NoMatch
    case Some(Public(p)) => Shows(p)
    case Some(Guarded(p)) =>
      match PrivateRoute.Guard(ctx, p)
      case Children(c) => Shows(c)
      case Navigate(to) => RedirectsTo(to)
  }

  /** A settled render: the location the browser ends on and what it shows. */
  datatype View = View(session: AuthContext.Session, screen: Screen)

  /** Render the current location, following a redirect by moving the
      location to its target. */
  function Render(s: AuthContext.Session): (v: View)
    ensures !v.screen.RedirectsTo?
    ensures v.session.isAuthenticated == s.isAuthenticated
    ensures v.session.cookieJar == s.cookieJar
    ensures v.screen == Shows(DashboardPage) <==>
              s.location == AuthContext.DashboardPath && s.isAuthenticated
    ensures v.screen == Shows(LoginPage) <==>
              s.location == AuthContext.Home
              || (s.location == AuthContext.DashboardPath && !s.isAuthenticated)
    ensures v.screen.Shows? ==> Resolve(v.session.location, v.session) == v.screen
    ensures v.session.location == s.location
            || (Resolve(s.location, s).RedirectsTo? && v.session.location == AuthContext.Home)
  {
    match Resolve(s.location, s)
    case RedirectsTo(to) =>
      var moved := s.(location := to);
      View(moved, Resolve(to, moved))
    case other => View(s, other)
  }

  // ---------------------------------------------------------------------------
  // Properties

  /** The login route is unguarded: it shows the login page whatever the
      flag. */
  lemma LoginAlwaysReachable(ctx: AuthContext.Session)
    ensures Resolve(AuthContext.Home, ctx) == Shows(LoginPage)
    ensures Resolve(AuthContext.Home, ctx.(isAuthenticated := !ctx.isAuthenticated))
            == Shows(LoginPage)
  {
  }

  /** An unauthenticated visit to the dashboard ends on the login page at "/"
      after exactly one redirect; an authenticated one shows the dashboard
      where it is. */
  lemma DashboardVisit(s: AuthContext.Session)
    requires s.location == AuthContext.DashboardPath
    ensures !s.isAuthenticated ==>
      && Resolve(s.location, s) == RedirectsTo(AuthContext.Home)
      && Render(s) == View(s.(location := AuthContext.Home), Shows(LoginPage))
    ensures s.isAuthenticated ==> Render(s) == View(s, Shows(DashboardPage))
  {
  }

  /** A successful login submit ends on the dashboard. */
  lemma LoginSubmitShowsDashboard(p: Login.LoginState)
    ensures Render(Login.Submit(p, Success(())).session).screen == Shows(DashboardPage)
  {
  }

  /** A failed login submit keeps a logged-out user out of the dashboard. */
  lemma FailedLoginStaysOut(p: Login.LoginState)
    requires !p.session.isAuthenticated
    requires p.session.location == AuthContext.DashboardPath
    ensures Render(Login.Submit(p, Failure).session).screen == Shows(LoginPage)
  {
  }

  /** A resolved logout shows the login page, and the dashboard is then
      guarded again; a rejected one leaves the dashboard on screen. */
  lemma LogoutFromDashboard(s: AuthContext.Session, status: nat)
    requires s.isAuthenticated && s.location == AuthContext.DashboardPath
    ensures var out := AuthContext.Logout(s, Success(status));
      && Render(out).screen == Shows(LoginPage)
      && Resolve(AuthContext.DashboardPath, out) == RedirectsTo(AuthContext.Home)
    ensures Render(AuthContext.Logout(s, Failure)).screen == Shows(DashboardPage)
  {
  }
}
