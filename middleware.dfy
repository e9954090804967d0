/** The three middlewares. `CurrentContextMiddleware` publishes the request on a shared
    context object and clears it after the response. `DRFTokenAuthMiddleware` signs a
    request in from its token header. `DRFTokenSocketMiddleware` puts the user into a
    connection scope before the application sees it. No authentication failure escapes
    any of them. */
module Middleware {
  import opened Base
  import opened Models
  import opened Authentication

  /** An incoming HTTP request: the user attached to it so far, and its `Referer` header
      (`request.META.get("HTTP_REFERER")`). */
  class HttpRequest {
    var user: Principal
    const referer: Option<string>

    constructor (user: Principal, referer: Option<string>)
      ensures this.user == user && this.referer == referer
    {
      this.user := user;
      this.referer := referer;
    }
  }

  /** `CurrentApplicationContext.context`: each of its three attributes is either set
      (`Some`) or absent (`None`). A referrer that is set may itself be `None`. */
  class ApplicationContext {
    var request: Option<HttpRequest>
    var referrer: Option<Option<string>>
    var user: Option<Principal>

    constructor ()
      ensures IsClear()
    {
      request, referrer, user := None, None, None;
    }

    predicate IsClear()
      reads this
    {
      request.None? && referrer.None? && user.None?
    }
  }

  /** `CurrentContextMiddleware.process_request`. An anonymous request leaves `user` as it
      was. */
  method ProcessRequest(context: ApplicationContext, request: HttpRequest)
    modifies context
    ensures context.request == Some(request)
    ensures context.referrer == Some(request.referer)
    ensures context.user == if request.user.IsAuthenticated() then Some(request.user) else old(context.user)
  {
    context.request := Some(request);
    context.referrer := Some(request.referer);
    if request.user.IsAuthenticated() {
      context.user := Some(request.user);
    }
  }

  /** `CurrentContextMiddleware.process_response`: each attribute that is set is deleted,
      and the response passes through untouched. */
  method ProcessResponse<R>(context: ApplicationContext, request: HttpRequest, response: R) returns (r: R)
    modifies context
    ensures context.IsClear()
    ensures r == response
  {
    if context.request.Some? {
      context.request := None;
    }
    if context.referrer.Some? {
      context.referrer := None;
    }
    if context.user.Some? {
      context.user := None;
    }
    r := response;
  }

  /** `DRFTokenAuthMiddleware.process_request`. `outcome` is what
      `MultiTokenAuthentication().authenticate(request)` gives for this request;
      `consulted` says whether it is asked at all. */
  method TokenAuthProcessRequest(request: HttpRequest, outcome: Outcome) returns (ghost consulted: bool)
    modifies request
    ensures consulted <==> !old(request.user).IsAuthenticated()
    ensures !consulted ==> request.user == old(request.user)
    ensures consulted && outcome.NotAttempted? ==> request.user == AnonymousUser
    ensures consulted && outcome.Authenticated? ==> request.user == SignedIn(outcome.user)
    ensures consulted && outcome.Failed? ==> request.user == old(request.user)
  {
    if request.user.IsAuthenticated() {
      return false;
    }
    consulted := true;
    var user := AnonymousUser;
    match outcome {
      case Failed(_) =>
        return;
      case Authenticated(u, _) =>
        user := SignedIn(u);
      case NotAttempted =>
    }
    request.user := user;
  }

  /** `scope['user']` as `DRFTokenSocketMiddleware` sets it: the authenticated user, or
      `AnonymousUser` when nothing was attempted or authentication failed. */
  function SocketUser(outcome: Outcome): (p: Principal)
    ensures p.IsAuthenticated() <==> outcome.Authenticated?
    ensures outcome.Authenticated? ==> p == SignedIn(outcome.user)
    ensures !outcome.Authenticated? ==> p == AnonymousUser
  {
    match outcome
    case Authenticated(u, _) => SignedIn(u)
    case NotAttempted => AnonymousUser
    case Failed(_) => AnonymousUser
  }

  /** The copy of the scope handed to the application: the same query string, and a user
      always set. */
  function ScopeForApp(scope: Scope, users: seq<User>, tokens: map<string, MultiToken>): (s: Scope)
    ensures s.queryString == scope.queryString && s.user.Some?
    ensures s.user.value.IsAuthenticated() <==> AuthenticateWebsocket(scope, users, tokens).Authenticated?
    ensures s.user.value.IsAuthenticated() ==>
              && s.user.value.user.isActive && s.user.value.user in users
              && s.user.value.user.id == AuthenticateWebsocket(scope, users, tokens).token.user
  {
    scope.(user := Some(SocketUser(AuthenticateWebsocket(scope, users, tokens))))
  }

  /** `DRFTokenSocketMiddleware`: the inner application is recorded through the scopes it
      is called with. */
  class SocketMiddleware {
    var appCalls: seq<Scope>

    constructor ()
      ensures appCalls == []
    {
      appCalls := [];
    }

    /** `__call__(scope, receive, send)`: the caller's scope is a value and stays as it
        was; the application is called exactly once, with the copy. */
    method Call(scope: Scope, users: seq<User>, tokens: map<string, MultiToken>) returns (sent: Scope)
      modifies this
      ensures sent == ScopeForApp(scope, users, tokens)
      ensures appCalls == old(appCalls) + [sent]
    {
      var copy := scope;
      var user := SocketUser(AuthenticateWebsocket(copy, users, tokens));
      copy := copy.(user := Some(user));
      appCalls := appCalls + [copy];
      sent := copy;
    }
  }
}
