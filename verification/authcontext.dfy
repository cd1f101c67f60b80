/** The authentication provider: a process-wide "authenticated" flag set
    once from the cookie string at startup, and the `login` / `logout`
    operations. Navigation and the cookie store are browser state the
    provider writes, so the record carries them along. */
module AuthContext {
  import opened Wrappers
  import Cookies

  const Home: string := "/"
  const DashboardPath: string := "/dashboard"

  /** The provider's flag, the router's current location, and the cookie jar
      as a list of `name=value` rows. */
  datatype Session = Session(isAuthenticated: bool, location: string,
                             cookieJar: seq<string>)

  /** Cookie rows never contain the `"; "` that joins them. */
  predicate WellFormedJar(jar: seq<string>)
  {
    forall k :: 0 <= k < |jar| ==> !Cookies.HasSeparator(jar[k])
  }

  /** What `document.cookie` reads for a jar. */
  function CookieString(jar: seq<string>): string
  {
    Cookies.Join(jar)
  }

  /** The provider as first rendered: not authenticated, with the browser's
      location and cookies as they are. */
  function InitialSession(location: string, jar: seq<string>): (s: Session)
    ensures !s.isAuthenticated
    ensures s.location == location && s.cookieJar == jar
  {
    Session(false, location, jar)
  }

  /** The startup effect: set the flag when the cookie string holds a `jwt=`
      row; otherwise leave it alone. */
  function StartupCheck(s: Session): (s': Session)
    ensures s.isAuthenticated ==> s'.isAuthenticated
    ensures s'.isAuthenticated <==>
              s.isAuthenticated || Cookies.HasSessionCookie(CookieString(s.cookieJar))
    ensures s'.location == s.location && s'.cookieJar == s.cookieJar
  {
    if Cookies.HasSessionCookie(CookieString(s.cookieJar)) then s.(isAuthenticated := true)
    else s
  }

  /** `login`: set the flag and go to the dashboard. */
  function Login(s: Session): (s': Session)
    ensures s'.isAuthenticated && s'.location == DashboardPath
    ensures s'.cookieJar == s.cookieJar
  {
    s.(isAuthenticated := true, location := DashboardPath)
  }

  /** Number of `jwt=` rows in a jar. */
  function SessionRowCount(jar: seq<string>): (c: nat)
    ensures c <= |jar|
    ensures c == 0 <==> forall k :: 0 <= k < |jar| ==> !Cookies.IsSessionRow(jar[k])
  {
    if |jar| == 0 then 0
    else (if Cookies.IsSessionRow(jar[0]) then 1 else 0) + SessionRowCount(jar[1..])
  }

  /** The jar after the `jwt` cookie is expired: every other row, in order
      (the order is `RemoveSessionAppend`). */
  function RemoveSessionCookies(jar: seq<string>): (r: seq<string>)
    ensures forall e :: e in r <==> e in jar && !Cookies.IsSessionRow(e)
    ensures |r| == |jar| - SessionRowCount(jar)
    ensures (forall k :: 0 <= k < |jar| ==> !Cookies.IsSessionRow(jar[k])) ==> r == jar
  {
    if |jar| == 0 then []
    else (if Cookies.IsSessionRow(jar[0]) then [] else [jar[0]])
         + RemoveSessionCookies(jar[1..])
  }

  /** `logout`: once the request resolves, with any HTTP status, expire the
      cookie, clear the flag and go home; a rejected request changes
      nothing. */
  function Logout(s: Session, r: Response<nat>): (s': Session)
    ensures r.Failure? ==> s' == s
    ensures r.Success? ==>
      && !s'.isAuthenticated
      && s'.location == Home
      && s'.cookieJar == RemoveSessionCookies(s.cookieJar)
  {
    match r
    case Success(_) =>
      s.(cookieJar := RemoveSessionCookies(s.cookieJar), isAuthenticated := false,
         location := Home)
    case Failure => s
  }

  // ---------------------------------------------------------------------------
  // Properties

  /** Expiring the session cookie distributes over concatenation: each row
      is kept or dropped on its own, and the kept rows stay in order. */
  lemma {:induction false} RemoveSessionAppend(a: seq<string>, b: seq<string>)
    ensures RemoveSessionCookies(a + b) == RemoveSessionCookies(a) + RemoveSessionCookies(b)
    decreases |a|
  {
    if |a| == 0 {
      assert a + b == b;
    } else {
      assert (a + b)[0] == a[0];
      assert (a + b)[1..] == a[1..] + b;
      RemoveSessionAppend(a[1..], b);
    }
  }

  /** Expiring the session cookie keeps every other row as often as the jar
      holds it and drops every `jwt=` row. */
  lemma {:induction false} RemoveSessionMultiset(jar: seq<string>)
    ensures forall e :: multiset(RemoveSessionCookies(jar))[e] ==
              (if Cookies.IsSessionRow(e) then 0 else multiset(jar)[e])
  {
    if |jar| > 0 {
      assert jar == [jar[0]] + jar[1..];
      RemoveSessionMultiset(jar[1..]);
    }
  }

  /** The flag starts false, and the startup check sets it exactly when the
      jar holds a `jwt=` row. */
  lemma StartupFromJar(location: string, jar: seq<string>)
    requires WellFormedJar(jar)
    ensures !InitialSession(location, jar).isAuthenticated
    ensures StartupCheck(InitialSession(location, jar)).isAuthenticated <==>
              exists k :: 0 <= k < |jar| && Cookies.IsSessionRow(jar[k])
  {
    Cookies.JarHasSession(jar);
  }

  /** Logging in twice is logging in once. */
  lemma LoginIdempotent(s: Session)
    ensures Login(Login(s)) == Login(s)
  {
  }

  /** The status of a resolved logout is never inspected. */
  lemma LogoutIgnoresStatus(s: Session, a: nat, b: nat)
    ensures Logout(s, Success(a)) == Logout(s, Success(b))
  {
  }

  /** After a resolved logout no `jwt=` row remains, so a fresh start of the
      application comes up logged out; the other cookies survive. */
  lemma LogoutEndsSession(s: Session, status: nat)
    requires WellFormedJar(s.cookieJar)
    ensures var s' := Logout(s, Success(status));
      && !Cookies.HasSessionCookie(CookieString(s'.cookieJar))
      && !StartupCheck(InitialSession(s'.location, s'.cookieJar)).isAuthenticated
      && forall e :: e in s.cookieJar && !Cookies.IsSessionRow(e) ==> e in s'.cookieJar
  {
    var jar := RemoveSessionCookies(s.cookieJar);
    assert WellFormedJar(jar) by {
      forall k | 0 <= k < |jar|
        ensures !Cookies.HasSeparator(jar[k])
      {
        assert jar[k] in s.cookieJar;
      }
    }
    assert forall k :: 0 <= k < |jar| ==> !Cookies.IsSessionRow(jar[k]) by {
      forall k | 0 <= k < |jar|
        ensures !Cookies.IsSessionRow(jar[k])
      {
        assert jar[k] in jar;
      }
    }
    Cookies.JarHasSession(jar);
  }

  /** A rejected logout keeps the user logged in. */
  lemma RejectedLogoutKeepsSession(s: Session)
    requires s.isAuthenticated
    ensures Logout(s, Failure).isAuthenticated
    ensures Logout(s, Failure).location == s.location
  {
  }
}
