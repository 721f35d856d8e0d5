/** The page middleware of `middleware.ts`: a fixed-window rate limiter over
    an in-memory store keyed by client address, the security headers, and the
    prefix-based routing of protected and admin pages. */
module Middleware {
  import opened Wrappers
  import opened JsString
  import opened Auth
  import opened AuthGate
  import opened EdgeJwt

  // ---------------------------------------------------------------------
  // Rate limiting

  datatype RateRecord = RateRecord(count: int, resetTime: int)

  /** What one call of `rateLimit` answers and the store it leaves behind. */
  datatype RateDecision = RateDecision(allowed: bool, store: map<string, RateRecord>)

  /** The defaults `limit = 100` and `windowMs = 15 * 60 * 1000`. */
  const DefaultLimit: int := 100
  const DefaultWindowMs: int := 15 * 60 * 1000

  function RateKey(ip: string): string {
    "rate_limit:" + ip
  }

  /** One `rateLimit` call as a value: a missing record or one whose window
      has passed (strictly) is replaced by a fresh window and the request is
      allowed; otherwise the request is allowed iff the count is below the
      limit, and then the count goes up by one. */
  function RateStep(store: map<string, RateRecord>, key: string, now: int, limit: int, windowMs: int): (d: RateDecision)
    ensures key in d.store
    ensures forall k :: k != key ==> (k in d.store <==> k in store)
    ensures forall k :: k != key && k in store ==> d.store[k] == store[k]
    ensures !d.allowed ==> d.store == store
  {
    if key !in store || now > store[key].resetTime then
      RateDecision(true, store[key := RateRecord(1, now + windowMs)])
    else if store[key].count >= limit then
      RateDecision(false, store)
    else
      RateDecision(true, store[key := RateRecord(store[key].count + 1, store[key].resetTime)])
  }

  /** The three cases of a step for the touched key. At `now == resetTime` the
      old window still applies. */
  lemma RateStepCases(store: map<string, RateRecord>, key: string, now: int, limit: int, windowMs: int)
    ensures var d := RateStep(store, key, now, limit, windowMs);
      (key !in store || now > store[key].resetTime) ==>
        d.allowed && d.store[key] == RateRecord(1, now + windowMs)
    ensures var d := RateStep(store, key, now, limit, windowMs);
      (key in store && now <= store[key].resetTime) ==>
        && (d.allowed <==> store[key].count < limit)
        && (d.allowed ==> d.store[key] == RateRecord(store[key].count + 1, store[key].resetTime))
  {
  }

  /** The store keeps every count between 1 and the larger of 1 and the limit. */
  ghost predicate CountsBounded(store: map<string, RateRecord>, limit: int) {
    forall k :: k in store ==> 1 <= store[k].count <= Max(1, limit)
  }

  function Max(a: int, b: int): int {
    if a >= b then a else b
  }

  function Min(a: int, b: int): int {
    if a <= b then a else b
  }

  lemma RateStepKeepsCountsBounded(store: map<string, RateRecord>, key: string, now: int, limit: int, windowMs: int)
    requires CountsBounded(store, limit)
    ensures CountsBounded(RateStep(store, key, now, limit, windowMs).store, limit)
  {
  }

  /** Requests for one key at the given times, in order: how many are allowed. */
  function AllowedCount(store: map<string, RateRecord>, key: string, times: seq<int>, limit: int, windowMs: int): nat
    decreases |times|
  {
    if times == [] then 0
    else
      var d := RateStep(store, key, times[0], limit, windowMs);
      B2N(d.allowed) + AllowedCount(d.store, key, times[1..], limit, windowMs)
  }

  /** Inside a running window (every time at or before its reset time) exactly
      as many requests are allowed as the count is short of the limit. */
  lemma {:induction false} AllowedWithinWindow(store: map<string, RateRecord>, key: string, times: seq<int>, limit: int, windowMs: int)
    requires key in store
    requires forall i :: 0 <= i < |times| ==> times[i] <= store[key].resetTime
    ensures AllowedCount(store, key, times, limit, windowMs) == Min(|times|, Max(0, limit - store[key].count))
    decreases |times|
  {
    if times != [] {
      var d := RateStep(store, key, times[0], limit, windowMs);
      assert d.store[key].resetTime == store[key].resetTime;
      AllowedWithinWindow(d.store, key, times[1..], limit, windowMs);
    }
  }

  /** A burst that opens a new window and stays within it gets at most `limit`
      requests through, but always the first one, even for a limit of 0. */
  lemma AllowedInFreshWindow(store: map<string, RateRecord>, key: string, times: seq<int>, limit: int, windowMs: int)
    requires |times| >= 1
    requires key !in store || times[0] > store[key].resetTime
    requires forall i :: 1 <= i < |times| ==> times[i] <= times[0] + windowMs
    ensures AllowedCount(store, key, times, limit, windowMs) == Min(|times|, Max(1, limit))
  {
    var d := RateStep(store, key, times[0], limit, windowMs);
    AllowedWithinWindow(d.store, key, times[1..], limit, windowMs);
  }

  /** The in-memory `rateLimitStore` with the `rateLimit` function over it. */
  class RateLimiter {
    var store: map<string, RateRecord>

    constructor()
      ensures store == map[]
    {
      store := map[];
    }

    /** `rateLimit(ip, limit, windowMs)` with `Date.now()` as `now`. */
    method RateLimit(ip: string, now: int, limit: int, windowMs: int) returns (allowed: bool)
      modifies this
      ensures allowed == RateStep(old(store), RateKey(ip), now, limit, windowMs).allowed
      ensures store == RateStep(old(store), RateKey(ip), now, limit, windowMs).store
    {
      var key := "rate_limit:" + ip;
      if key !in store || now > store[key].resetTime {
        store := store[key := RateRecord(1, now + windowMs)];
        return true;
      }
      var record := store[key];
      if record.count >= limit {
        return false;
      }
      store := store[key := record.(count := record.count + 1)];
      return true;
    }

    /** `middleware(request)`: rate limiting with the defaults first (429 when
        denied), then the routing decision. */
    method Handle(req: PageRequest, env: Option<string>, P: Platform, now: int) returns (o: Outcome)
      modifies this
      ensures var d := RateStep(old(store), RateKey(ClientIp(req.forwardedFor, req.realIp)), now, DefaultLimit, DefaultWindowMs);
        store == d.store && o == (if d.allowed then Route(req, JwtSecret(env), P, now) else TooManyRequests)
    {
      var ip := ClientIp(req.forwardedFor, req.realIp);
      var allowed := RateLimit(ip, now, DefaultLimit, DefaultWindowMs);
      if !allowed {
        return TooManyRequests;
      }
      o := Route(req, JwtSecret(env), P, now);
    }
  }

  /** `x-forwarded-for || x-real-ip || "unknown"`. */
  function ClientIp(forwardedFor: Option<string>, realIp: Option<string>): (ip: string)
    ensures ip != ""
    ensures Truthy(forwardedFor) ==> ip == forwardedFor.value
    ensures !Truthy(forwardedFor) && Truthy(realIp) ==> ip == realIp.value
  {
    if Truthy(forwardedFor) then forwardedFor.value
    else if Truthy(realIp) then realIp.value
    else "unknown"
  }

  // ---------------------------------------------------------------------
  // Routing

  /** The parts of a request the middleware reads. */
  datatype PageRequest = PageRequest(
    pathname: string,
    forwardedFor: Option<string>,
    realIp: Option<string>,
    authCookie: Option<string>,
    authorization: Option<string>)

  datatype Outcome = TooManyRequests | RedirectTo(location: string) | Next(headers: seq<(string, string)>)

  const DefaultSecret: string := "your-super-secret-jwt-key-change-in-production"

  /** `process.env.JWT_SECRET || "<default>"`. */
  function JwtSecret(env: Option<string>): (secret: string)
    ensures secret != ""
    ensures Truthy(env) ==> secret == env.value
  {
    if Truthy(env) then env.value else DefaultSecret
  }

  const ProtectedPaths: seq<string> := ["/dashboard", "/quiz", "/certificates", "/admin"]
  const AdminPaths: seq<string> := ["/admin"]

  /** `paths.some((path) => pathname.startsWith(path))`. */
  predicate AnyPrefix(pathname: string, paths: seq<string>) {
    exists i :: 0 <= i < |paths| && StartsWith(pathname, paths[i])
  }

  /** The headers every passed-through response carries. */
  const SecurityHeaders: seq<(string, string)> := [
    ("X-Content-Type-Options", "nosniff"),
    ("X-Frame-Options", "DENY"),
    ("X-XSS-Protection", "1; mode=block"),
    ("Referrer-Policy", "strict-origin-when-cross-origin"),
    ("Permissions-Policy", "camera=(), microphone=(), geolocation=()")]

  /** The token the middleware checks: the `auth-token` cookie unless empty,
      else the bearer token of the `Authorization` header. */
  function PageToken(req: PageRequest): Option<string> {
    ChooseToken(req.authCookie, ExtractTokenFromHeader(req.authorization))
  }

  /** `token ? await verifyJwtHS256(token, secret) : null`. */
  function PagePayload(req: PageRequest, secret: string, P: Platform, now: int): Option<JwtPayload> {
    var token := PageToken(req);
    if Truthy(token) then VerifyJwtHS256(P, token.value, secret, now) else None
  }

  /** The routing after rate limiting; `verifyJwtHS256` never throws, so the
      `catch` redirect cannot be reached and is not modelled. */
  function Route(req: PageRequest, secret: string, P: Platform, now: int): (o: Outcome)
    ensures o != TooManyRequests
  {
    if !AnyPrefix(req.pathname, ProtectedPaths) then Next(SecurityHeaders)
    else
      match PagePayload(req, secret, P, now)
      case None => RedirectTo("/login")
      case Some(payload) =>
        if AnyPrefix(req.pathname, AdminPaths) && payload.role != AdminRole then RedirectTo("/dashboard")
        else Next(SecurityHeaders + [("x-user-id", IntToString(payload.userId)), ("x-user-role", RoleName(payload.role))])
  }

  /** A path is protected iff it starts with one of the four prefixes, and
      every admin path is protected. */
  lemma ProtectedPathsIff(pathname: string)
    ensures AnyPrefix(pathname, ProtectedPaths) <==>
      StartsWith(pathname, "/dashboard") || StartsWith(pathname, "/quiz") ||
      StartsWith(pathname, "/certificates") || StartsWith(pathname, "/admin")
    ensures AnyPrefix(pathname, AdminPaths) <==> StartsWith(pathname, "/admin")
    ensures AnyPrefix(pathname, AdminPaths) ==> AnyPrefix(pathname, ProtectedPaths)
  {
    if StartsWith(pathname, "/admin") {
      assert StartsWith(pathname, ProtectedPaths[3]);
      assert StartsWith(pathname, AdminPaths[0]);
    }
    if StartsWith(pathname, "/dashboard") {
      assert StartsWith(pathname, ProtectedPaths[0]);
    }
    if StartsWith(pathname, "/quiz") {
      assert StartsWith(pathname, ProtectedPaths[1]);
    }
    if StartsWith(pathname, "/certificates") {
      assert StartsWith(pathname, ProtectedPaths[2]);
    }
  }

  /** The four routing outcomes, each in terms of the request: unprotected
      pages pass with the security headers only; protected pages without a
      token that verifies go to `/login`; admin pages with a non-admin token go
      to `/dashboard`; the rest pass with the user's id and role added. */
  lemma RouteCases(req: PageRequest, secret: string, P: Platform, now: int)
    ensures !AnyPrefix(req.pathname, ProtectedPaths) ==> Route(req, secret, P, now) == Next(SecurityHeaders)
    ensures AnyPrefix(req.pathname, ProtectedPaths) ==>
      (Route(req, secret, P, now) == RedirectTo("/login") <==> PagePayload(req, secret, P, now).None?)
    ensures var p := PagePayload(req, secret, P, now);
      AnyPrefix(req.pathname, ProtectedPaths) && p.Some? ==>
        (Route(req, secret, P, now) == RedirectTo("/dashboard") <==> StartsWith(req.pathname, "/admin") && p.value.role != AdminRole)
    ensures var p := PagePayload(req, secret, P, now);
      Route(req, secret, P, now).Next? && AnyPrefix(req.pathname, ProtectedPaths) ==>
        p.Some? && Route(req, secret, P, now).headers ==
          SecurityHeaders + [("x-user-id", IntToString(p.value.userId)), ("x-user-role", RoleName(p.value.role))]
  {
    ProtectedPathsIff(req.pathname);
  }

  /** Only a page under `/admin` is ever redirected to `/dashboard`, and only a
      holder of a verified admin token gets through to one. */
  lemma AdminPagesNeedAdmin(req: PageRequest, secret: string, P: Platform, now: int)
    requires StartsWith(req.pathname, "/admin")
    ensures Route(req, secret, P, now).Next? <==>
      var p := PagePayload(req, secret, P, now);
      p.Some? && p.value.role == AdminRole
  {
    ProtectedPathsIff(req.pathname);
  }
}
