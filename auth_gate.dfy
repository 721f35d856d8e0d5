/** The API route guard of `lib/middleware/auth.ts`: which token a request
    carries, what authenticating it yields, and the `requireAuth` /
    `requireRole` wrappers that decide whether the route handler runs. */
module AuthGate {
  import opened Wrappers
  import opened JsString
  import opened Auth

  /** The `user` attached to an authenticated request. */
  datatype Principal = Principal(userId: int, email: string, role: Role)

  datatype AuthOutcome = Authenticated(user: Principal) | Unauthenticated(error: string)

  const NoTokenError: string := "No authentication token provided"
  const InvalidTokenError: string := "Invalid or expired token"
  const ForbiddenError: string := "Insufficient permissions"

  /** `cookieToken || headerToken`: the cookie's value unless it is missing or
      empty, otherwise whatever the header yields. */
  function ChooseToken(cookie: Option<string>, header: Option<string>): Option<string> {
    if Truthy(cookie) then cookie else header
  }

  /** The token used is the cookie's whenever the cookie is non-empty, the
      header's otherwise, and there is a usable token iff one of the two is. */
  lemma ChooseTokenPrecedence(cookie: Option<string>, header: Option<string>)
    ensures Truthy(cookie) ==> ChooseToken(cookie, header) == cookie
    ensures !Truthy(cookie) ==> ChooseToken(cookie, header) == header
    ensures Truthy(ChooseToken(cookie, header)) <==> Truthy(cookie) || Truthy(header)
  {
  }

  function PrincipalOf(p: JwtPayload): Principal {
    Principal(p.userId, p.email, p.role)
  }

  /** `authenticateRequest`. `verifyToken` answers `null` instead of throwing,
      so the `"Authentication failed"` branch cannot be reached and is not
      modelled. */
  function AuthenticateRequest(cookie: Option<string>, authorization: Option<string>, verify: TokenVerifier): (r: AuthOutcome)
    ensures r.Unauthenticated? ==> r.error == NoTokenError || r.error == InvalidTokenError
  {
    var token := ChooseToken(cookie, ExtractTokenFromHeader(authorization));
    if !Truthy(token) then Unauthenticated(NoTokenError)
    else
      match verify(token.value)
      case None => Unauthenticated(InvalidTokenError)
      case Some(payload) => Authenticated(PrincipalOf(payload))
  }

  /** The three outcomes of authentication, each in terms of the request. */
  lemma AuthenticateCases(cookie: Option<string>, authorization: Option<string>, verify: TokenVerifier)
    ensures var header := ExtractTokenFromHeader(authorization);
      AuthenticateRequest(cookie, authorization, verify) == Unauthenticated(NoTokenError)
      <==> !Truthy(cookie) && !Truthy(header)
    ensures var t := ChooseToken(cookie, ExtractTokenFromHeader(authorization));
      Truthy(t) ==>
        (AuthenticateRequest(cookie, authorization, verify) == Unauthenticated(InvalidTokenError) <==> verify(t.value).None?)
    ensures var t := ChooseToken(cookie, ExtractTokenFromHeader(authorization));
      AuthenticateRequest(cookie, authorization, verify).Authenticated? ==>
        && Truthy(t) && verify(t.value).Some?
        && AuthenticateRequest(cookie, authorization, verify).user.userId == verify(t.value).value.userId
        && AuthenticateRequest(cookie, authorization, verify).user.email == verify(t.value).value.email
        && AuthenticateRequest(cookie, authorization, verify).user.role == verify(t.value).value.role
  {
    ChooseTokenPrecedence(cookie, ExtractTokenFromHeader(authorization));
  }

  /** A route reply: a JSON error with its status, or the handler's response. */
  datatype Reply<R> = Rejected(status: int, error: string) | Handled(response: R)

  /** `requireAuth(handler)`: 401 with the authentication error, else the
      handler's response for the authenticated user. */
  function RequireAuth<R>(cookie: Option<string>, authorization: Option<string>, verify: TokenVerifier, handler: Principal -> R): (r: Reply<R>)
    ensures r.Rejected? ==> r.status == 401
  {
    match AuthenticateRequest(cookie, authorization, verify)
    case Unauthenticated(e) => Rejected(401, e)
    case Authenticated(user) => Handled(handler(user))
  }

  /** The handler runs iff authentication succeeds, and then on the
      authenticated user; a failure answers 401 with the authentication error. */
  lemma RequireAuthIff<R>(cookie: Option<string>, authorization: Option<string>, verify: TokenVerifier, handler: Principal -> R)
    ensures var a := AuthenticateRequest(cookie, authorization, verify);
      && (RequireAuth(cookie, authorization, verify, handler).Handled? <==> a.Authenticated?)
      && (a.Authenticated? ==> RequireAuth(cookie, authorization, verify, handler) == Handled(handler(a.user)))
      && (a.Unauthenticated? ==> RequireAuth(cookie, authorization, verify, handler) == Rejected(401, a.error))
  {
  }

  /** `requireRole(role)(handler)`: 401 first, then 403 when the user's role
      differs from the required one, except that a required `"user"` admits
      every role. */
  function RequireRole<R>(required: Role, cookie: Option<string>, authorization: Option<string>, verify: TokenVerifier, handler: Principal -> R): (r: Reply<R>)
    ensures r.Rejected? ==> r.status == 401 || r.status == 403
  {
    match AuthenticateRequest(cookie, authorization, verify)
    case Unauthenticated(e) => Rejected(401, e)
    case Authenticated(user) =>
      if user.role != required && required != UserRole then Rejected(403, ForbiddenError)
      else Handled(handler(user))
  }

  /** The role gate's decision: 401 iff authentication fails (checked first),
      403 iff authenticated with another role while an admin is required, and
      the handler for the authenticated user otherwise. */
  lemma RequireRoleCases<R>(required: Role, cookie: Option<string>, authorization: Option<string>, verify: TokenVerifier, handler: Principal -> R)
    ensures var a := AuthenticateRequest(cookie, authorization, verify);
            var r := RequireRole(required, cookie, authorization, verify, handler);
      && (r.Rejected? && r.status == 401 <==> a.Unauthenticated?)
      && (r == Rejected(403, ForbiddenError) <==> a.Authenticated? && required == AdminRole && a.user.role != AdminRole)
      && (r.Handled? ==> a.Authenticated? && r == Handled(handler(a.user)))
  {
  }

  /** `requireRole("user")` is `requireAuth`; `requireRole("admin")` runs the
      handler exactly for authenticated admins. */
  lemma RequireRoleSpecialCases<R>(cookie: Option<string>, authorization: Option<string>, verify: TokenVerifier, handler: Principal -> R)
    ensures RequireRole(UserRole, cookie, authorization, verify, handler) == RequireAuth(cookie, authorization, verify, handler)
    ensures RequireRole(AdminRole, cookie, authorization, verify, handler).Handled? <==>
      var a := AuthenticateRequest(cookie, authorization, verify);
      a.Authenticated? && a.user.role == AdminRole
  {
  }
}
