/** Session authentication: a registry from session ids to user ids, fed
    at login and emptied at logout, and a current user found through the
    session cookie a request carries. */
module Session {
  import opened Common

  /** The cookie name used when the environment does not set SESSION_NAME. */
  const DefaultSessionName: string := "_my_session_id"

  /** `os.getenv("SESSION_NAME", "_my_session_id")` over environment `env`. */
  function SessionName(env: map<string, string>): (r: string)
    ensures "SESSION_NAME" in env ==> r == env["SESSION_NAME"]
    ensures "SESSION_NAME" !in env ==> r == "_my_session_id"
  {
    if "SESSION_NAME" in env then env["SESSION_NAME"] else DefaultSessionName
  }

  /** The value of the session cookie, or `None` for an absent request or
      cookie. */
  function SessionCookie(request: Option<Request>, env: map<string, string>): (r: Option<string>)
    ensures r.Some? <==> request.Some? && SessionName(env) in request.value.cookies
    ensures r.Some? ==> r.value == request.value.cookies[SessionName(env)]
  {
    if request.None? then None else Get(request.value.cookies, SessionName(env))
  }

  /** Without SESSION_NAME the cookie read is "_my_session_id". */
  lemma SessionCookieDefault(cookies: map<string, string>, id: string)
    requires "_my_session_id" in cookies && cookies["_my_session_id"] == id
    ensures SessionCookie(Some(Request(map[], cookies)), map[]) == Some(id)
  {
  }

  class SessionAuth {
    /** Session id to user id. */
    var userIdBySessionId: map<string, string>

    constructor ()
      ensures userIdBySessionId == map[]
    {
      userIdBySessionId := map[];
    }

    /** The user id registered for the session, or `None` for a missing or
        non-string session id or one that is not registered. */
    function UserIdForSessionId(sessionId: Input): (r: Option<string>)
      reads this
      ensures r.Some? <==> sessionId.Text? && sessionId.text in userIdBySessionId
      ensures r.Some? ==> r.value == userIdBySessionId[sessionId.text]
    {
      if !sessionId.Text? then None else Get(userIdBySessionId, sessionId.text)
    }

    /** Opens a session for a string user id under `sessionId`, the freshly
        generated UUID, and returns that id; any other argument opens
        nothing and gives `None`. */
    method CreateSession(userId: Input, sessionId: string) returns (r: Option<string>)
      modifies this
      ensures !userId.Text? ==> r.None? && userIdBySessionId == old(userIdBySessionId)
      ensures userId.Text? ==>
        r == Some(sessionId) &&
        userIdBySessionId == old(userIdBySessionId)[sessionId := userId.text]
      ensures userId.Text? ==> UserIdForSessionId(Text(sessionId)) == Some(userId.text)
      ensures forall s :: s != sessionId ==>
        UserIdForSessionId(Text(s)) == old(UserIdForSessionId(Text(s)))
    {
      if !userId.Text? {
        return None;
      }
      userIdBySessionId := userIdBySessionId[sessionId := userId.text];
      r := Some(sessionId);
    }

    /** The user a request's session belongs to, found by `userGet`. A
        session whose user id is the empty string is, being falsy, no session. */
    function CurrentUser<U>(request: Option<Request>, env: map<string, string>,
                            userGet: string -> Option<U>): (r: Option<U>)
      reads this
      ensures r.Some? ==> exists id ::
        UserIdForSessionId(Text(id)).Some? && UserIdForSessionId(Text(id)).value != "" &&
        SessionCookie(request, env) == Some(id) && userGet(userIdBySessionId[id]) == r
      ensures SessionCookie(request, env).None? ==> r.None?
    {
      if request.None? then None
      else
        var sessionId := SessionCookie(request, env);
        var userId := UserIdForSessionId(if sessionId.Some? then Text(sessionId.value) else Absent);
        if userId.Some? && userId.value != "" then userGet(userId.value) else None
    }

    /** `current_user` as the module has it: the class `User` is never
        imported, so finding a user id raises `NameError` at the lookup. */
    function CurrentUserAsWritten<U>(request: Option<Request>, env: map<string, string>): (r: Outcome<Option<U>>)
      reads this
      ensures r.Raised? ==> r.exc == NameError
      ensures r.Returned? ==> r.value.None?
    {
      if request.None? then Returned(None)
      else
        var sessionId := SessionCookie(request, env);
        var userId := UserIdForSessionId(if sessionId.Some? then Text(sessionId.value) else Absent);
        if userId.Some? && userId.value != "" then Raised(NameError) else Returned(None)
    }

    /** A request presenting a registered session resolves to its user; the
        code as written fails on exactly that request. */
    lemma CurrentUserOfSession<U>(request: Request, env: map<string, string>,
                                  userGet: string -> Option<U>)
      requires SessionName(env) in request.cookies
      requires request.cookies[SessionName(env)] in userIdBySessionId
      requires userIdBySessionId[request.cookies[SessionName(env)]] != ""
      ensures CurrentUser(Some(request), env, userGet) ==
        userGet(userIdBySessionId[request.cookies[SessionName(env)]])
      ensures CurrentUserAsWritten<U>(Some(request), env) == Raised(NameError)
    {
    }

    /** Ends the request's session. `false`, and nothing changes, for an
        absent request, an absent cookie or an unregistered session;
        otherwise entry removed and `true`. */
    method DestroySession(request: Option<Request>, env: map<string, string>) returns (r: bool)
      modifies this
      ensures r <==>
        SessionCookie(request, env).Some? &&
        SessionCookie(request, env).value in old(userIdBySessionId)
      ensures r ==> userIdBySessionId == old(userIdBySessionId) - {SessionCookie(request, env).value}
      ensures !r ==> userIdBySessionId == old(userIdBySessionId)
      ensures SessionCookie(request, env).Some? ==>
        UserIdForSessionId(Text(SessionCookie(request, env).value)).None?
    {
      if request.None? {
        return false;
      }
      var sessionId := SessionCookie(request, env);
      if sessionId.None? {
        return false;
      }
      var userId := UserIdForSessionId(Text(sessionId.value));
      if userId.None? {
        return false;
      }
      userIdBySessionId := userIdBySessionId - {sessionId.value};
      r := true;
    }
  }

  /** Login then logout: a session opened for a user resolves to that user
      until it is destroyed, and to nobody afterwards. */
  method LoginLogout<U>(auth: SessionAuth, env: map<string, string>, userId: string,
                        sessionId: string, userGet: string -> Option<U>)
    returns (during: Option<U>, destroyed: bool, after: Option<U>)
    modifies auth
    requires userId != ""
    ensures during == userGet(userId)
    ensures destroyed
    ensures after.None?
    ensures auth.userIdBySessionId == old(auth.userIdBySessionId) - {sessionId}
  {
    var created := auth.CreateSession(Text(userId), sessionId);
    var request := Request(map[], map[SessionName(env) := created.value]);
    auth.CurrentUserOfSession(request, env, userGet);
    during := auth.CurrentUser(Some(request), env, userGet);
    destroyed := auth.DestroySession(Some(request), env);
    after := auth.CurrentUser(Some(request), env, userGet);
  }
}
