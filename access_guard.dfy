/** `AccessGuard`: the IP allow-list and the two password gates in front of
    every request. The session holds, per gate, the "passed" flag
    (`authenticated` or `admin`), the CSRF token and the failed-attempt
    counter. Fresh CSRF tokens (`bin2hex(random_bytes(32))`) and the captcha
    verdict are inputs. */
module AccessGuard {
  import opened Wrappers
  import opened Text
  import opened Externals
  import opened Http

  /** The two gates, each with its own session keys: the site-wide gate
      (`authenticated`, `auth_csrf_token`, `auth_failed_password_attempts`)
      and the admin gate (`admin`, `admin_csrf_token`,
      `admin_failed_password_attempts`). */
  datatype Gate = Site | Admin

  /** One gate's session entries. An unset or empty token reads as `""` and
      an unset counter as 0, which is how every helper treats them. */
  datatype GateState = GateState(passed: bool, token: string, failed: nat)

  datatype SessionState = SessionState(site: GateState, admin: GateState)

  function GateOf(st: SessionState, g: Gate): GateState {
    match g
    case Site => st.site
    case Admin => st.admin
  }

  function WithGate(st: SessionState, g: Gate, gs: GateState): SessionState {
    match g
    case Site => st.(site := gs)
    case Admin => st.(admin := gs)
  }

  /** The failed-attempt count from which the captcha is required. */
  const CaptchaAfterFailed: nat := 2

  /** A token as `bin2hex(random_bytes(32))` makes it: 64 hex digits. */
  predicate IsFreshToken(t: string) {
    |t| == 64 && forall i :: 0 <= i < |t| ==> t[i] in "0123456789abcdef"
  }

  /** The two fresh tokens a gate may draw in one request: one for
      `ensureCsrfToken`, one for `rotateCsrfToken`. */
  datatype FreshTokens = FreshTokens(ensured: string, rotated: string)

  predicate ValidFresh(f: FreshTokens) {
    IsFreshToken(f.ensured) && IsFreshToken(f.rotated)
  }

  // ---------------------------------------------------------------------
  // Session helpers
  // ---------------------------------------------------------------------

  /** `ensureCsrfToken`: a missing or empty token is replaced by a fresh
      one; a present token is kept. */
  function EnsureToken(gs: GateState, newToken: string): (r: GateState)
    requires IsFreshToken(newToken)
    ensures r.token != ""
    ensures gs.token != "" ==> r == gs
    ensures gs.token == "" ==> r == gs.(token := newToken)
  {
    if gs.token == "" then gs.(token := newToken) else gs
  }

  /** `validateCsrfToken`: both tokens non-empty strings, and equal. */
  function CsrfValid(sessionToken: string, posted: Option<string>): (r: bool)
    ensures r <==> sessionToken != "" && posted == Some(sessionToken)
  {
    sessionToken != "" && posted.Some? && posted.value != "" && posted.value == sessionToken
  }

  /** `isCaptchaRequired`. */
  predicate CaptchaRequired(gs: GateState) {
    gs.failed >= CaptchaAfterFailed
  }

  /** `incrementFailedAttempts`. */
  function Increment(gs: GateState): GateState {
    gs.(failed := gs.failed + 1)
  }

  /** `resetFailedAttempts`: the counter is unset, so it reads as 0. */
  function Reset(gs: GateState): GateState {
    gs.(failed := 0)
  }

  /** `n` wrong passwords in a row. */
  function Failures(gs: GateState, n: nat): (r: GateState)
    ensures r.passed == gs.passed && r.token == gs.token
  {
    if n == 0 then gs else Increment(Failures(gs, n - 1))
  }

  /** After a reset the captcha is required exactly from the second failed
      attempt on. */
  lemma {:induction false} CaptchaAfterTwoFailures(gs: GateState, n: nat)
    ensures Failures(Reset(gs), n).failed == n
    ensures CaptchaRequired(Failures(Reset(gs), n)) <==> n >= 2
  {
    if n > 0 {
      CaptchaAfterTwoFailures(gs, n - 1);
    }
  }

  /** The session store (`$_SESSION`) as far as the guard uses it. */
  class Session {
    var site: GateState
    var admin: GateState

    constructor(st: SessionState)
      ensures State() == st
    {
      site := st.site;
      admin := st.admin;
    }

    function State(): SessionState
      reads this
    {
      SessionState(site, admin)
    }

    function Gated(g: Gate): GateState
      reads this
    {
      GateOf(State(), g)
    }

    method SetGate(g: Gate, gs: GateState)
      modifies this
      ensures State() == WithGate(old(State()), g, gs)
    {
      match g
      case Site => site := gs;
      case Admin => admin := gs;
    }

    method EnsureCsrfToken(g: Gate, newToken: string)
      requires IsFreshToken(newToken)
      modifies this
      ensures State() == WithGate(old(State()), g, EnsureToken(old(Gated(g)), newToken))
    {
      var gs := Gated(g);
      if gs.token == "" {
        SetGate(g, gs.(token := newToken));
      } else {
        SetGate(g, gs);
      }
    }

    method RotateCsrfToken(g: Gate, newToken: string)
      modifies this
      ensures State() == WithGate(old(State()), g, old(Gated(g)).(token := newToken))
    {
      SetGate(g, Gated(g).(token := newToken));
    }

    method IncrementFailedAttempts(g: Gate)
      modifies this
      ensures State() == WithGate(old(State()), g, Increment(old(Gated(g))))
    {
      SetGate(g, Gated(g).(failed := Gated(g).failed + 1));
    }

    method ResetFailedAttempts(g: Gate)
      modifies this
      ensures State() == WithGate(old(State()), g, Reset(old(Gated(g))))
    {
      SetGate(g, Gated(g).(failed := 0));
    }

    method Pass(g: Gate)
      modifies this
      ensures State() == WithGate(old(State()), g, old(Gated(g)).(passed := true))
    {
      SetGate(g, Gated(g).(passed := true));
    }
  }

  // ---------------------------------------------------------------------
  // Requests and outcomes
  // ---------------------------------------------------------------------

  /** What the guard reads of a request: the server variables
      (`REMOTE_ADDR` and the proxy headers, `HTTP_PWD`, `REQUEST_METHOD`,
      `REQUEST_URI`), the POST fields and the merged request parameters. */
  datatype HttpRequest = HttpRequest(server: Server, post: Request, params: Request)

  datatype LoginError = BadToken | CaptchaFailed | WrongPassword

  /** The pages the guard renders before it exits. */
  datatype Page =
    | Login(gate: Gate, error: Option<LoginError>, requireCaptcha: bool, csrfToken: string)
    | IpNotAllowed(ip: string)

  /** The request goes on, the guard renders a page and exits, or an
      exception escapes. */
  datatype Outcome = Proceed | Halt(page: Page) | Raise(error: Exception)

  /** `getPath`: the path of `REQUEST_URI` (`/` when there is none), with
      trailing slashes removed, and `/` for the root. */
  function GetPath(x: Externals, server: Server): (r: string)
    ensures r != ""
    ensures r == "/" || r[|r| - 1] != '/'
  {
    var parsed := x.parseUrl(ServerValue(server, "REQUEST_URI")).path;
    var path := if parsed.Some? then parsed.value else "/";
    var trimmed := TrimRight(path, {'/'});
    if trimmed == "" then "/" else trimmed
  }

  /** A form login attempt: a POST carrying a `password` field. */
  predicate IsFormPost(req: HttpRequest) {
    Upper(if "REQUEST_METHOD" in req.server then req.server["REQUEST_METHOD"] else "GET") == "POST"
    && "password" in req.post
  }

  /** The posted CSRF token, if any. */
  function PostedToken(req: HttpRequest): Option<string> {
    if "csrf_token" in req.post then Some(ParamString(req.post["csrf_token"])) else None
  }

  // ---------------------------------------------------------------------
  // The gates, as functions of the session
  // ---------------------------------------------------------------------

  /** The form login shared by both gates: CSRF first (a bad token rotates
      it), then the captcha once two attempts have failed, then the
      password (success passes the gate, resets the counter and rotates the
      token; failure counts one more attempt). */
  function FormLogin(g: Gate, gs: GateState, password: string, req: HttpRequest, captchaOk: bool, tokens: FreshTokens): (Outcome, GateState)
    requires IsFormPost(req)
  {
    var captchaRequired := CaptchaRequired(gs);
    if !CsrfValid(gs.token, PostedToken(req)) then
      (Halt(Login(g, Some(BadToken), captchaRequired, tokens.rotated)), gs.(token := tokens.rotated))
    else if captchaRequired && !captchaOk then
      (Halt(Login(g, Some(CaptchaFailed), true, gs.token)), gs)
    else if password == ParamString(req.post["password"]) then
      (Proceed, gs.(passed := true, failed := 0, token := tokens.rotated))
    else
      var after := Increment(gs);
      (Halt(Login(g, Some(WrongPassword), CaptchaRequired(after), after.token)), after)
  }

  /** `enforcePassword`: inactive when `PASSWORD` is empty; otherwise a
      matching `PWD` header, an authenticated session, a form login, or the
      legacy `password` parameter, else the login page. */
  function SitePasswordSpec(gs: GateState, settings: Settings, req: HttpRequest, captchaOk: bool, tokens: FreshTokens): (Outcome, GateState)
    requires ValidFresh(tokens)
  {
    var pw := Setting(settings, "PASSWORD");
    if !PhpTruthy(pw) then (Proceed, gs)
    else
      var gs1 := EnsureToken(gs, tokens.ensured);
      if "HTTP_PWD" in req.server && req.server["HTTP_PWD"] == pw then
        (Proceed, gs1.(passed := true, failed := 0))
      else if gs1.passed then (Proceed, gs1)
      else if IsFormPost(req) then FormLogin(Site, gs1, pw, req, captchaOk, tokens)
      else if "password" in req.params then
        if ParamString(req.params["password"]) == pw then (Proceed, gs1.(passed := true, failed := 0))
        else
          var after := Increment(gs1);
          (Halt(Login(Site, Some(WrongPassword), CaptchaRequired(after), after.token)), after)
      else (Halt(Login(Site, None, CaptchaRequired(gs1), gs1.token)), gs1)
  }

  /** The admin gate is active when `ADMIN_ENABLED` is truthy, the admin
      password is non-empty, and the path is `/api/admin`. */
  predicate AdminGateActive(x: Externals, settings: Settings, req: HttpRequest) {
    PhpTruthy(Setting(settings, "ADMIN_ENABLED"))
    && Setting(settings, "ADMIN_PASSWORD") != ""
    && GetPath(x, req.server) == "/api/admin"
  }

  /** `enforceAdminPassword`: only form logins, with the admin gate's own
      flag, token and counter. */
  function AdminPasswordSpec(x: Externals, gs: GateState, settings: Settings, req: HttpRequest, captchaOk: bool, tokens: FreshTokens): (Outcome, GateState)
    requires ValidFresh(tokens)
  {
    if !AdminGateActive(x, settings, req) then (Proceed, gs)
    else if gs.passed then (Proceed, gs)
    else
      var gs1 := EnsureToken(gs, tokens.ensured);
      if IsFormPost(req) then FormLogin(Admin, gs1, Setting(settings, "ADMIN_PASSWORD"), req, captchaOk, tokens)
      else (Halt(Login(Admin, None, CaptchaRequired(gs1), gs1.token)), gs1)
  }

  /** `checkIpAllowList`: nothing when `ALLOWED_IPS` is empty; otherwise the
      effective client address must be in one of the ranges. An exception
      from the range test escapes. */
  function AllowListSpec(x: Externals, settings: Settings, server: Server): Outcome {
    var allowed := Setting(settings, "ALLOWED_IPS");
    if !PhpTruthy(allowed) then Proceed
    else
      var ip := UserIpSpec(x, server);
      match RangeMatch(x, ip, allowed)
      case Err(e) => Raise(e)
      case Ok(inRange) => if inRange then Proceed else Halt(IpNotAllowed(ip))
  }

  /** The path of the captcha challenge endpoint, which both gates let
      through. */
  const CaptchaRequestPath: string := "/api/captcha-request"

  /** `startSessionIfRequired`: the session is started only when
      `PASSWORD` or `ADMIN_PASSWORD` is non-empty in PHP's sense of
      `empty`, under which `"0"` is empty too. */
  predicate SessionStarted(settings: Settings) {
    PhpTruthy(Setting(settings, "PASSWORD")) || PhpTruthy(Setting(settings, "ADMIN_PASSWORD"))
  }

  /** What the gates read when no session was started: `$_SESSION` is an
      empty array that lives for this request only. */
  const NoSession: SessionState := SessionState(GateState(false, "", 0), GateState(false, "", 0))

  /** The site gate, then (if it lets the request through) the admin gate,
      on the session the request sees. */
  function GatesSpec(x: Externals, st: SessionState, settings: Settings, req: HttpRequest, captchaOk: bool,
                     siteTokens: FreshTokens, adminTokens: FreshTokens): (Outcome, SessionState)
    requires ValidFresh(siteTokens) && ValidFresh(adminTokens)
  {
    var (o1, site) := SitePasswordSpec(st.site, settings, req, captchaOk, siteTokens);
    if o1 != Proceed then (o1, st.(site := site))
    else
      var (o2, admin) := AdminPasswordSpec(x, st.admin, settings, req, captchaOk, adminTokens);
      (o2, SessionState(site, admin))
  }

  /** `AccessGuard::enforce`. The session kept for the next request is
      the one the gates leave only when a session was started; otherwise
      the gates work on `NoSession` and nothing is kept. */
  function EnforceSpec(x: Externals, st: SessionState, settings: Settings, req: HttpRequest, captchaOk: bool,
                       siteTokens: FreshTokens, adminTokens: FreshTokens): (Outcome, SessionState)
    requires ValidFresh(siteTokens) && ValidFresh(adminTokens)
  {
    var allow := AllowListSpec(x, settings, req.server);
    if allow != Proceed then (allow, st)
    else if GetPath(x, req.server) == CaptchaRequestPath then (Proceed, st)
    else if SessionStarted(settings) then GatesSpec(x, st, settings, req, captchaOk, siteTokens, adminTokens)
    else (GatesSpec(x, NoSession, settings, req, captchaOk, siteTokens, adminTokens).0, st)
  }

  // ---------------------------------------------------------------------
  // The gates, as methods on the session
  // ---------------------------------------------------------------------

  method FormLoginStep(s: Session, g: Gate, password: string, req: HttpRequest, captchaOk: bool, tokens: FreshTokens)
    returns (o: Outcome)
    requires IsFormPost(req)
    modifies s
    ensures (o, s.State()) == (FormLogin(g, old(s.Gated(g)), password, req, captchaOk, tokens).0,
                               WithGate(old(s.State()), g, FormLogin(g, old(s.Gated(g)), password, req, captchaOk, tokens).1))
  {
    var captchaRequired := CaptchaRequired(s.Gated(g));
    var posted := PostedToken(req);
    if !CsrfValid(s.Gated(g).token, posted) {
      s.RotateCsrfToken(g, tokens.rotated);
      return Halt(Login(g, Some(BadToken), captchaRequired, s.Gated(g).token));
    }
    if captchaRequired && !captchaOk {
      return Halt(Login(g, Some(CaptchaFailed), true, s.Gated(g).token));
    }
    if password == ParamString(req.post["password"]) {
      s.Pass(g);
      s.ResetFailedAttempts(g);
      s.RotateCsrfToken(g, tokens.rotated);
      return Proceed;
    }
    s.IncrementFailedAttempts(g);
    captchaRequired := CaptchaRequired(s.Gated(g));
    return Halt(Login(g, Some(WrongPassword), captchaRequired, s.Gated(g).token));
  }

  /** `enforcePassword`. */
  method EnforcePassword(s: Session, settings: Settings, req: HttpRequest, captchaOk: bool, tokens: FreshTokens)
    returns (o: Outcome)
    requires ValidFresh(tokens)
    modifies s
    ensures (o, s.State()) == (SitePasswordSpec(old(s.site), settings, req, captchaOk, tokens).0,
                               old(s.State()).(site := SitePasswordSpec(old(s.site), settings, req, captchaOk, tokens).1))
  {
    var pw := Setting(settings, "PASSWORD");
    if !PhpTruthy(pw) {
      return Proceed;
    }
    s.EnsureCsrfToken(Site, tokens.ensured);
    var captchaRequired := CaptchaRequired(s.site);
    if "HTTP_PWD" in req.server && req.server["HTTP_PWD"] == pw {
      s.Pass(Site);
      s.ResetFailedAttempts(Site);
      return Proceed;
    }
    if s.site.passed {
      return Proceed;
    }
    if IsFormPost(req) {
      o := FormLoginStep(s, Site, pw, req, captchaOk, tokens);
      return;
    }
    if "password" in req.params {
      if ParamString(req.params["password"]) == pw {
        s.Pass(Site);
        s.ResetFailedAttempts(Site);
        return Proceed;
      }
      s.IncrementFailedAttempts(Site);
      captchaRequired := CaptchaRequired(s.site);
      return Halt(Login(Site, Some(WrongPassword), captchaRequired, s.site.token));
    }
    return Halt(Login(Site, None, captchaRequired, s.site.token));
  }

  /** `enforceAdminPassword`. */
  method EnforceAdminPassword(s: Session, x: Externals, settings: Settings, req: HttpRequest, captchaOk: bool, tokens: FreshTokens)
    returns (o: Outcome)
    requires ValidFresh(tokens)
    modifies s
    ensures (o, s.State()) == (AdminPasswordSpec(x, old(s.admin), settings, req, captchaOk, tokens).0,
                               old(s.State()).(admin := AdminPasswordSpec(x, old(s.admin), settings, req, captchaOk, tokens).1))
  {
    var adminEnabled := PhpTruthy(Setting(settings, "ADMIN_ENABLED"));
    var adminPassword := Setting(settings, "ADMIN_PASSWORD");
    if !adminEnabled || adminPassword == "" {
      return Proceed;
    }
    if GetPath(x, req.server) != "/api/admin" {
      return Proceed;
    }
    if s.admin.passed {
      return Proceed;
    }
    s.EnsureCsrfToken(Admin, tokens.ensured);
    var captchaRequired := CaptchaRequired(s.admin);
    if IsFormPost(req) {
      o := FormLoginStep(s, Admin, adminPassword, req, captchaOk, tokens);
      return;
    }
    return Halt(Login(Admin, None, captchaRequired, s.admin.token));
  }

  /** `checkIpAllowList`, with the address and range test of `Http`. */
  method CheckIpAllowList(x: Externals, settings: Settings, server: Server) returns (o: Outcome)
    ensures o == AllowListSpec(x, settings, server)
  {
    var allowed := Setting(settings, "ALLOWED_IPS");
    if !PhpTruthy(allowed) {
      return Proceed;
    }
    var ip := GetUserIp(x, server);
    var inRange := IsIpInRange(x, ip, allowed);
    if inRange.Err? {
      return Raise(inRange.error);
    }
    if !inRange.value {
      return Halt(IpNotAllowed(ip));
    }
    return Proceed;
  }

  /** `AccessGuard::enforce`: the allow-list, then (except for the captcha
      endpoint) the session start, the site gate and the admin gate. `s`
      is the stored session; without a started session the gates run on
      a request-local one. */
  method Enforce(s: Session, x: Externals, settings: Settings, req: HttpRequest, captchaOk: bool,
                 siteTokens: FreshTokens, adminTokens: FreshTokens) returns (o: Outcome)
    requires ValidFresh(siteTokens) && ValidFresh(adminTokens)
    modifies s
    ensures (o, s.State()) == EnforceSpec(x, old(s.State()), settings, req, captchaOk, siteTokens, adminTokens)
  {
    o := CheckIpAllowList(x, settings, req.server);
    if o != Proceed {
      return;
    }
    if GetPath(x, req.server) == CaptchaRequestPath {
      return Proceed;
    }
    var session := s;
    if !SessionStarted(settings) {
      session := new Session(NoSession);
    }
    o := EnforcePassword(session, settings, req, captchaOk, siteTokens);
    if o != Proceed {
      return;
    }
    o := EnforceAdminPassword(session, x, settings, req, captchaOk, adminTokens);
  }

  // ---------------------------------------------------------------------
  // Properties
  // ---------------------------------------------------------------------

  /** A form post with a bad CSRF token rotates the token and shows the
      login again; the counter and the passed flag do not change. */
  lemma BadTokenOnlyRotates(g: Gate, gs: GateState, password: string, req: HttpRequest, captchaOk: bool, tokens: FreshTokens)
    requires IsFormPost(req)
    requires !CsrfValid(gs.token, PostedToken(req))
    ensures var (o, after) := FormLogin(g, gs, password, req, captchaOk, tokens);
      && o == Halt(Login(g, Some(BadToken), CaptchaRequired(gs), tokens.rotated))
      && after.failed == gs.failed && after.passed == gs.passed && after.token == tokens.rotated
  {
  }

  /** A failed captcha shows the login with the captcha required and
      changes nothing. */
  lemma FailedCaptchaChangesNothing(g: Gate, gs: GateState, password: string, req: HttpRequest, tokens: FreshTokens)
    requires IsFormPost(req)
    requires CsrfValid(gs.token, PostedToken(req)) && CaptchaRequired(gs)
    ensures FormLogin(g, gs, password, req, false, tokens) == (Halt(Login(g, Some(CaptchaFailed), true, gs.token)), gs)
  {
  }

  /** Once the token and captcha checks pass, the right password passes the
      gate, resets the counter and rotates the token, and a wrong one adds
      exactly one failed attempt and recomputes the captcha requirement. */
  lemma PasswordDecides(g: Gate, gs: GateState, password: string, req: HttpRequest, captchaOk: bool, tokens: FreshTokens)
    requires IsFormPost(req)
    requires CsrfValid(gs.token, PostedToken(req)) && (captchaOk || !CaptchaRequired(gs))
    ensures var (o, after) := FormLogin(g, gs, password, req, captchaOk, tokens);
      && (o == Proceed <==> password == ParamString(req.post["password"]))
      && (o == Proceed ==> after == GateState(true, tokens.rotated, 0))
      && (o != Proceed ==>
            (after == Increment(gs)
             && o == Halt(Login(g, Some(WrongPassword), gs.failed + 1 >= CaptchaAfterFailed, gs.token))))
  {
  }

  /** A form login never passes the gate without a valid CSRF token, nor,
      after two failed attempts, without the captcha. */
  lemma FormLoginNeedsTokenAndCaptcha(g: Gate, gs: GateState, password: string, req: HttpRequest, captchaOk: bool, tokens: FreshTokens)
    requires IsFormPost(req)
    ensures FormLogin(g, gs, password, req, captchaOk, tokens).0 == Proceed ==>
      && gs.token != "" && PostedToken(req) == Some(gs.token)
      && (CaptchaRequired(gs) ==> captchaOk)
      && password == ParamString(req.post["password"])
  {
  }

  /** A matching `PWD` header passes the site gate and resets its counter,
      whatever the CSRF token, the captcha and the form say. */
  lemma HeaderPasswordPasses(gs: GateState, settings: Settings, req: HttpRequest, captchaOk: bool, tokens: FreshTokens)
    requires ValidFresh(tokens)
    requires PhpTruthy(Setting(settings, "PASSWORD"))
    requires "HTTP_PWD" in req.server && req.server["HTTP_PWD"] == Setting(settings, "PASSWORD")
    ensures var (o, after) := SitePasswordSpec(gs, settings, req, captchaOk, tokens);
      o == Proceed && after.passed && after.failed == 0 && after.token == EnsureToken(gs, tokens.ensured).token
  {
  }

  /** The legacy `password` parameter (outside a form post, without a
      header match or an authenticated session) passes the gate when it
      matches, and otherwise counts one failed attempt. */
  lemma LegacyParameterDecides(gs: GateState, settings: Settings, req: HttpRequest, captchaOk: bool, tokens: FreshTokens)
    requires ValidFresh(tokens)
    requires PhpTruthy(Setting(settings, "PASSWORD"))
    requires !("HTTP_PWD" in req.server && req.server["HTTP_PWD"] == Setting(settings, "PASSWORD"))
    requires !gs.passed && !IsFormPost(req) && "password" in req.params
    ensures var (o, after) := SitePasswordSpec(gs, settings, req, captchaOk, tokens);
      var pw := ParamString(req.params["password"]);
      && (pw == Setting(settings, "PASSWORD") ==> o == Proceed && after.passed && after.failed == 0)
      && (pw != Setting(settings, "PASSWORD") ==> o.Halt? && !after.passed && after.failed == gs.failed + 1)
  {
  }

  /** The site gate lets a request through only with the gate passed,
      unless no site password is configured. */
  lemma SiteGateAdmitsOnlyPassed(gs: GateState, settings: Settings, req: HttpRequest, captchaOk: bool, tokens: FreshTokens)
    requires ValidFresh(tokens)
    requires PhpTruthy(Setting(settings, "PASSWORD"))
    ensures var (o, after) := SitePasswordSpec(gs, settings, req, captchaOk, tokens);
      (o == Proceed <==> after.passed) && !o.Raise?
  {
  }

  /** Outside `/api/admin`, or without an enabled admin password, the admin
      gate does nothing. */
  lemma AdminGateInactive(x: Externals, gs: GateState, settings: Settings, req: HttpRequest, captchaOk: bool, tokens: FreshTokens)
    requires ValidFresh(tokens)
    requires !AdminGateActive(x, settings, req)
    ensures AdminPasswordSpec(x, gs, settings, req, captchaOk, tokens) == (Proceed, gs)
  {
  }

  /** The admin gate lets a request to `/api/admin` through only with the
      admin flag set. */
  lemma AdminGateAdmitsOnlyPassed(x: Externals, gs: GateState, settings: Settings, req: HttpRequest, captchaOk: bool, tokens: FreshTokens)
    requires ValidFresh(tokens)
    requires AdminGateActive(x, settings, req)
    ensures var (o, after) := AdminPasswordSpec(x, gs, settings, req, captchaOk, tokens);
      (o == Proceed <==> after.passed) && !o.Raise?
  {
  }

  /** A request that `enforce` lets through has passed the allow-list and,
      unless it is for the captcha endpoint, every active gate; the
      session afterwards records both gates as passed where they are
      active. */
  lemma EnforceAdmitsOnlyPassed(x: Externals, st: SessionState, settings: Settings, req: HttpRequest, captchaOk: bool,
                                siteTokens: FreshTokens, adminTokens: FreshTokens)
    requires ValidFresh(siteTokens) && ValidFresh(adminTokens)
    ensures var (o, after) := EnforceSpec(x, st, settings, req, captchaOk, siteTokens, adminTokens);
      o == Proceed ==>
        && AllowListSpec(x, settings, req.server) == Proceed
        && (GetPath(x, req.server) != CaptchaRequestPath && SessionStarted(settings) ==>
              && (PhpTruthy(Setting(settings, "PASSWORD")) ==> after.site.passed)
              && (AdminGateActive(x, settings, req) ==> after.admin.passed))
  {
    var allow := AllowListSpec(x, settings, req.server);
    if allow == Proceed && GetPath(x, req.server) != CaptchaRequestPath && SessionStarted(settings) {
      if PhpTruthy(Setting(settings, "PASSWORD")) {
        SiteGateAdmitsOnlyPassed(st.site, settings, req, captchaOk, siteTokens);
      }
      if AdminGateActive(x, settings, req) {
        AdminGateAdmitsOnlyPassed(x, st.admin, settings, req, captchaOk, adminTokens);
      }
    }
  }

  /** With `PASSWORD` empty and `ADMIN_PASSWORD` set to `"0"`, no session
      is started although the admin gate is active: the stored session
      never changes, and a request reaches `/api/admin` only with a form
      post carrying the token minted during that same request, which no
      page has shown. So the admin login cannot succeed. */
  lemma ZeroAdminPasswordKeepsNoSession(x: Externals, st: SessionState, settings: Settings, req: HttpRequest,
                                        captchaOk: bool, siteTokens: FreshTokens, adminTokens: FreshTokens)
    requires ValidFresh(siteTokens) && ValidFresh(adminTokens)
    requires !PhpTruthy(Setting(settings, "PASSWORD")) && Setting(settings, "ADMIN_PASSWORD") == "0"
    ensures !SessionStarted(settings)
    ensures var (o, after) := EnforceSpec(x, st, settings, req, captchaOk, siteTokens, adminTokens);
      && after == st
      && (o == Proceed && AllowListSpec(x, settings, req.server) == Proceed && AdminGateActive(x, settings, req)
          ==> IsFormPost(req) && PostedToken(req) == Some(adminTokens.ensured))
  {
    assert !PhpTruthy("0");
  }

  /** The captcha endpoint, once past the allow-list, is let through with
      the session untouched; and neither gate writes the other's entries. */
  lemma GatesAreIndependent(x: Externals, st: SessionState, settings: Settings, req: HttpRequest, captchaOk: bool,
                            siteTokens: FreshTokens, adminTokens: FreshTokens)
    requires ValidFresh(siteTokens) && ValidFresh(adminTokens)
    ensures var (o, after) := EnforceSpec(x, st, settings, req, captchaOk, siteTokens, adminTokens);
      && ((AllowListSpec(x, settings, req.server) == Proceed && GetPath(x, req.server) == CaptchaRequestPath)
          ==> o == Proceed && after == st)
      && after.site == (if AllowListSpec(x, settings, req.server) == Proceed && GetPath(x, req.server) != CaptchaRequestPath
                        then SitePasswordSpec(st.site, settings, req, captchaOk, siteTokens).1 else st.site)
      && (after.admin == st.admin
          || after.admin == AdminPasswordSpec(x, st.admin, settings, req, captchaOk, adminTokens).1)
  {
  }

  /** The allow-list only admits an address it finds in range. */
  lemma AllowListAdmitsOnlyInRange(x: Externals, settings: Settings, server: Server)
    requires PhpTruthy(Setting(settings, "ALLOWED_IPS"))
    ensures AllowListSpec(x, settings, server) == Proceed
            <==> RangeMatch(x, UserIpSpec(x, server), Setting(settings, "ALLOWED_IPS")) == Ok(true)
  {
  }
}
