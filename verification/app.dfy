/**
 * The API application: the strategy chosen once from AUTH_TYPE, the paths
 * that never need authentication, and the `before_request` filter that
 * lets a request through or aborts it with 401 or 403.
 */
module App {
  import opened PyValues
  import opened Auth

  /** The three strategies AUTH_TYPE can name. */
  datatype Strategy = BaseAuth | BasicAuth | SessionAuth

  /** The module-level `auth`: chosen by the AUTH_TYPE setting (None when unset), None for any other value. */
  function SelectAuth(authType: Option<string>): (auth: Option<Strategy>)
    ensures auth == Some(BaseAuth) <==> authType == Some("auth")
    ensures auth == Some(BasicAuth) <==> authType == Some("basic_auth")
    ensures auth == Some(SessionAuth) <==> authType == Some("session_auth")
    ensures auth.None? <==> authType !in {Some("auth"), Some("basic_auth"), Some("session_auth")}
  {
    if authType == Some("auth") then Some(BaseAuth)
    else if authType == Some("basic_auth") then Some(BasicAuth)
    else if authType == Some("session_auth") then Some(SessionAuth)
    else None
  }

  /** AUTH_EXCLUDED_PATHS. */
  const AUTH_EXCLUDED_PATHS: seq<string> := ["/api/v1/status/", "/api/v1/unauthorized/", "/api/v1/forbidden/"]

  /** The tuple AUTH_EXCLUDED_PATHS as `require_auth` receives it. */
  function ExcludedPathsValue(): (v: PyValue)
    ensures v.PyList? && |v.items| == |AUTH_EXCLUDED_PATHS|
    ensures forall i :: 0 <= i < |v.items| ==> v.items[i] == PyStr(AUTH_EXCLUDED_PATHS[i])
  {
    PyList(seq(|AUTH_EXCLUDED_PATHS|, i requires 0 <= i < |AUTH_EXCLUDED_PATHS| => PyStr(AUTH_EXCLUDED_PATHS[i])))
  }

  // ---------------------------------------------------------------------------
  // Exclusion by directory entries
  // ---------------------------------------------------------------------------

  /** An entry written as a directory: no surrounding blanks, a final `/`, and no metacharacters before it. */
  predicate DirectoryEntry(e: string) {
    |e| >= 2 && !IsSpace(e[0]) && e[|e| - 1] == '/' && NoRegexMeta(e[..|e| - 1])
  }

  /** The prefix a directory entry excludes: the entry without its final `/`. */
  function DirectoryBase(e: string): (base: string)
    requires DirectoryEntry(e)
    ensures base + "/" == e
  {
    e[..|e| - 1]
  }

  /** A directory entry strips to itself and compiles to its base followed by a starred slash. */
  lemma DirectoryEntryCompiles(e: string)
    requires DirectoryEntry(e)
    ensures Strip(e) == e && Compile(e) == SlashTail(DirectoryBase(e))
  {
    StripTrimmed(e);
  }

  /** Stripping leaves a list of directory entries as it is. */
  lemma StripAllDirectories(entries: seq<string>)
    requires forall i :: 0 <= i < |entries| ==> DirectoryEntry(entries[i])
    ensures StripAll(entries) == entries
  {
    forall i | 0 <= i < |entries| ensures StripAll(entries)[i] == entries[i] {
      DirectoryEntryCompiles(entries[i]);
    }
  }

  /** Some entry's base is a prefix of `path`. */
  predicate UnderSomeDirectory(entries: seq<string>, path: string)
    requires forall i :: 0 <= i < |entries| ==> DirectoryEntry(entries[i])
  {
    exists i :: 0 <= i < |entries| && DirectoryBase(entries[i]) <= path
  }

  /**
   * Over directory entries the loop of `require_auth` never raises, and it
   * answers False exactly when some entry's base is a prefix of the path.
   */
  lemma {:induction false} DirectoryVerdict(entries: seq<string>, path: string)
    requires forall i :: 0 <= i < |entries| ==> DirectoryEntry(entries[i])
    ensures FirstVerdict(entries, path) == Ok(!UnderSomeDirectory(entries, path))
  {
    if entries != [] {
      var e := entries[0];
      DirectoryEntryCompiles(e);
      MatchIsPrefix(Compile(e), path);
      DirectoryVerdict(entries[1..], path);
      if !(DirectoryBase(e) <= path) {
        assert UnderSomeDirectory(entries, path) ==> UnderSomeDirectory(entries[1..], path) by {
          if UnderSomeDirectory(entries, path) {
            var i :| 0 <= i < |entries| && DirectoryBase(entries[i]) <= path;
            assert i != 0 && entries[1..][i - 1] == entries[i];
          }
        }
        assert UnderSomeDirectory(entries[1..], path) ==> UnderSomeDirectory(entries, path) by {
          if UnderSomeDirectory(entries[1..], path) {
            var i :| 0 <= i < |entries[1..]| && DirectoryBase(entries[1..][i]) <= path;
            assert entries[i + 1] == entries[1..][i];
          }
        }
      }
    }
  }

  lemma ExcludedPathsAreDirectories()
    ensures forall i :: 0 <= i < |AUTH_EXCLUDED_PATHS| ==> DirectoryEntry(AUTH_EXCLUDED_PATHS[i])
  {
    assert DirectoryEntry("/api/v1/status/") by {
      assert "/api/v1/status/"[..14] == "/api/v1/status";
    }
    assert DirectoryEntry("/api/v1/unauthorized/") by {
      assert "/api/v1/unauthorized/"[..20] == "/api/v1/unauthorized";
    }
    assert DirectoryEntry("/api/v1/forbidden/") by {
      assert "/api/v1/forbidden/"[..17] == "/api/v1/forbidden";
    }
  }

  /** The request paths AUTH_EXCLUDED_PATHS lets through: those under the status, unauthorized or forbidden routes. */
  predicate ExcludedPath(path: string) {
    "/api/v1/status" <= path || "/api/v1/unauthorized" <= path || "/api/v1/forbidden" <= path
  }

  /** The bases of AUTH_EXCLUDED_PATHS are the three route prefixes of `ExcludedPath`. */
  lemma ExcludedPathsBases(path: string)
    ensures forall i :: 0 <= i < |AUTH_EXCLUDED_PATHS| ==> DirectoryEntry(AUTH_EXCLUDED_PATHS[i])
    ensures UnderSomeDirectory(AUTH_EXCLUDED_PATHS, path) <==> ExcludedPath(path)
  {
    ExcludedPathsAreDirectories();
    assert DirectoryBase(AUTH_EXCLUDED_PATHS[0]) == "/api/v1/status";
    assert DirectoryBase(AUTH_EXCLUDED_PATHS[1]) == "/api/v1/unauthorized";
    assert DirectoryBase(AUTH_EXCLUDED_PATHS[2]) == "/api/v1/forbidden";
  }

  /**
   * `require_auth(path, AUTH_EXCLUDED_PATHS)` for a request path: it never
   * raises, and it is False exactly for the excluded paths.
   */
  lemma RequireAuthForApp(path: string)
    ensures RequireAuthSpec(PyStr(path), ExcludedPathsValue()) == Ok(!ExcludedPath(path))
  {
    if path != [] {
      ExcludedPathsBases(path);
      var items := ExcludedPathsValue().items;
      RequireAuthOnStrings(path, items);
      assert Strings(items) == AUTH_EXCLUDED_PATHS;
      StripAllDirectories(AUTH_EXCLUDED_PATHS);
      DirectoryVerdict(AUTH_EXCLUDED_PATHS, path);
    }
  }

  /**
   * The exclusion is a bare prefix test: `/api/v1/statuses`, a path no
   * route serves, is excluded as well, because `/api/v1/status` begins it.
   */
  lemma StatusesPathExcluded()
    ensures RequireAuthSpec(PyStr("/api/v1/statuses"), ExcludedPathsValue()) == Ok(false)
  {
    RequireAuthForApp("/api/v1/statuses");
    assert "/api/v1/status" <= "/api/v1/statuses";
  }

  /** The exclusion list meets the precondition of `RequireAuth`. */
  lemma ExcludedPathsAreLiteral()
    ensures LiteralEntries(ExcludedPathsValue())
  {
    ExcludedPathsAreDirectories();
    forall i | 0 <= i < |AUTH_EXCLUDED_PATHS|
      ensures NoRegexMeta(Compile(Strip(AUTH_EXCLUDED_PATHS[i])).literal)
    {
      DirectoryEntryCompiles(AUTH_EXCLUDED_PATHS[i]);
    }
  }

  // ---------------------------------------------------------------------------
  // auth_filter
  // ---------------------------------------------------------------------------

  /**
   * What `auth_filter` does with a request: nothing without a strategy,
   * nothing for a path that needs no authentication, abort with 401 or
   * 403, or let it through as `user`. `ServerError` is an exception
   * escaping `require_auth`.
   */
  datatype GateOutcome = NoAuth | NotRequired | Unauthorized | Forbidden | Authenticated(user: User) | ServerError

  /** The HTTP status of an aborted request (sections 15.5.2 and 15.5.4 of RFC 9110), 500 for an escaped exception, 0 when it goes on. */
  function AbortStatus(outcome: GateOutcome): (status: int)
    ensures status == 0 <==> outcome.NoAuth? || outcome.NotRequired? || outcome.Authenticated?
    ensures status == 401 <==> outcome == Unauthorized
    ensures status == 403 <==> outcome == Forbidden
    ensures status == 500 <==> outcome == ServerError
  {
    match outcome
    case Unauthorized => 401
    case Forbidden => 403
    case ServerError => 500
    case _ => 0
  }

  /**
   * `auth_filter`, given the strategy and what the strategy's
   * `current_user(request)` returns. The 401 check looks only at the
   * `Authorization` header, and an empty header counts as missing.
   */
  ghost function GateSpec(auth: Option<Strategy>, request: Request, currentUser: Option<User>): GateOutcome {
    if auth.None? then NoAuth
    else match RequireAuthSpec(PyStr(request.path), ExcludedPathsValue())
      case Raise(_) => ServerError
      case Ok(required) =>
        if !required then NotRequired
        else
          var header := AuthorizationHeader(Some(request));
          if header.None? || header.value == "" then Unauthorized
          else if currentUser.None? then Forbidden
          else Authenticated(currentUser.value)
  }

  /** The request as the filter sees it; `currentUser` is the `request.current_user` attribute, None while unset. */
  class IncomingRequest {
    const data: Request
    var currentUser: Option<User>

    constructor(data: Request)
      ensures this.data == data && currentUser == None
    {
      this.data := data;
      currentUser := None;
    }
  }

  /**
   * `auth_filter()`: the checks in their order; only a request that passes
   * every check gets `request.current_user` written, and nothing else is
   * written.
   */
  method AuthFilter(auth: Option<Strategy>, request: IncomingRequest, currentUser: Option<User>)
    returns (outcome: GateOutcome)
    modifies request
    ensures outcome == GateSpec(auth, request.data, currentUser)
    ensures outcome.Authenticated? ==> request.currentUser == Some(outcome.user)
    ensures !outcome.Authenticated? ==> request.currentUser == old(request.currentUser)
  {
    if auth.None? {
      return NoAuth;
    }
    ExcludedPathsAreLiteral();
    var required := RequireAuth(PyStr(request.data.path), ExcludedPathsValue());
    if required.Raise? {
      return ServerError;
    }
    if !required.value {
      return NotRequired;
    }
    var header := AuthorizationHeader(Some(request.data));
    if header.None? || header.value == "" {
      return Unauthorized;
    }
    if currentUser.None? {
      return Forbidden;
    }
    request.currentUser := currentUser;
    return Authenticated(currentUser.value);
  }

  /**
   * The filter in terms of the request alone: never a server error; the
   * excluded paths always go through; elsewhere a missing or empty
   * Authorization header is a 401 whatever the current user, a header
   * without a user a 403, and a header with a user lets that user through.
   */
  lemma GateCharacterised(auth: Option<Strategy>, request: Request, currentUser: Option<User>)
    ensures var outcome := GateSpec(auth, request, currentUser);
            && !outcome.ServerError?
            && (auth.None? ==> outcome == NoAuth)
            && (auth.Some? && ExcludedPath(request.path) ==> outcome == NotRequired)
            && (auth.Some? && !ExcludedPath(request.path) ==>
                  var header := AuthorizationHeader(Some(request));
                  outcome == if header.None? || header.value == "" then Unauthorized
                             else if currentUser.None? then Forbidden
                             else Authenticated(currentUser.value))
  {
    RequireAuthForApp(request.path);
  }

  /** An excluded path is never rejected, whatever the headers and the user. */
  lemma ExcludedNeverRejected(auth: Option<Strategy>, request: Request, currentUser: Option<User>)
    requires ExcludedPath(request.path)
    ensures AbortStatus(GateSpec(auth, request, currentUser)) == 0
  {
    RequireAuthForApp(request.path);
  }

  /**
   * Only the path and the Authorization header matter: two requests that
   * agree on them are treated alike, so a session cookie alone does not
   * get past the 401 check.
   */
  lemma CookiesIrrelevant(auth: Option<Strategy>, r1: Request, r2: Request, currentUser: Option<User>)
    requires r1.path == r2.path
    requires AuthorizationHeader(Some(r1)) == AuthorizationHeader(Some(r2))
    ensures GateSpec(auth, r1, currentUser) == GateSpec(auth, r2, currentUser)
  {
  }

  /**
   * With the base `Auth.current_user`, which `Auth` itself and the
   * `SessionAuth` of this revision (it defines no `current_user` of its
   * own) use, no request is ever let through as a user: outside the
   * excluded paths it is a 401 or a 403.
   */
  lemma BaseCurrentUserNeverAuthenticates(auth: Option<Strategy>, request: Request)
    requires auth.Some? && !ExcludedPath(request.path)
    ensures var outcome := GateSpec(auth, request, CurrentUser(Some(request)));
            outcome == Unauthorized || outcome == Forbidden
  {
    RequireAuthForApp(request.path);
  }

  /** A protected route with a valid header and user goes through, and the attribute is set to that user. */
  method ProtectedRequest(path: string, token: string, user: User) returns (outcome: GateOutcome, attribute: Option<User>)
    requires token != "" && !ExcludedPath(path)
    ensures outcome == Authenticated(user) && attribute == Some(user)
  {
    var request := new IncomingRequest(Request(path, map["Authorization" := token], map[], map[]));
    RequireAuthForApp(path);
    outcome := AuthFilter(Some(SessionAuth), request, Some(user));
    attribute := request.currentUser;
  }
}
