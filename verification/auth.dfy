/**
 * The base strategy `Auth` of the session-authentication API: which request
 * paths need authentication, and the stateless accessors every strategy
 * shares (the `Authorization` header, the session cookie, the current user).
 */
module Auth {
  import opened PyValues

  /** The parts of a request the core reads. Header names are taken as already in canonical case. */
  datatype Request = Request(
    path: string,
    headers: map<string, string>,
    cookies: map<string, string>,
    form: map<string, string>)

  /** A user record as the core sees it; password checking belongs to the user store. */
  datatype User = User(id: string, email: string)

  // ---------------------------------------------------------------------------
  // Exclusion patterns
  // ---------------------------------------------------------------------------

  /**
   * The regular expression `require_auth` builds from one stripped entry:
   * a literal followed by `.*` when the entry ended in `*`, and by a starred slash
   * otherwise.
   */
  datatype Pattern = AnyTail(literal: string) | SlashTail(literal: string)

  /**
   * Builds the pattern for a non-empty stripped entry: the literal is the
   * entry with at most one trailing `*` or `/` removed, and only a `*`
   * turns the tail into `.*`.
   */
  function Compile(entry: string): (p: Pattern)
    requires entry != []
    ensures p.AnyTail? <==> entry[|entry| - 1] == '*'
    ensures p.literal == if entry[|entry| - 1] in "*/" then entry[..|entry| - 1] else entry
  {
    var last := entry[|entry| - 1];
    if last == '*' then AnyTail(entry[..|entry| - 1])
    else if last == '/' then SlashTail(entry[..|entry| - 1])
    else SlashTail(entry)
  }

  /** Whether the starred atom of `p` accepts `c`: `.` takes anything but a newline, `/` only itself. */
  predicate TailAccepts(p: Pattern, c: char) {
    if p.AnyTail? then c != '\n' else c == '/'
  }

  /** `path[..k]` is a match of `p`: the literal, then a run of characters the starred atom accepts. */
  ghost predicate MatchesUpTo(p: Pattern, path: string, k: int) {
    |p.literal| <= k <= |path| && p.literal <= path
    && forall j :: |p.literal| <= j < k ==> TailAccepts(p, path[j])
  }

  /** `re.match(pattern, path)`, anchored at the start of `path`, for a pattern whose literal has no metacharacters. */
  ghost predicate ReMatch(p: Pattern, path: string) {
    exists k :: MatchesUpTo(p, path, k)
  }

  /** Both tails can match the empty string, so a match is exactly "the literal is a prefix". */
  lemma MatchIsPrefix(p: Pattern, path: string)
    ensures ReMatch(p, path) <==> p.literal <= path
  {
    if p.literal <= path {
      assert MatchesUpTo(p, path, |p.literal|);
    }
  }

  /**
   * The rule the pattern is built from, in one line: a non-blank stripped
   * entry excludes `path` exactly when the entry, less one trailing `*` or
   * `/`, begins `path`.
   */
  lemma VerdictRule(entry: string, path: string)
    requires entry != []
    ensures Verdict(entry, path) == Hit
            <==> (if entry[|entry| - 1] in "*/" then entry[..|entry| - 1] else entry) <= path
  {
    MatchIsPrefix(Compile(entry), path);
  }

  // ---------------------------------------------------------------------------
  // require_auth
  // ---------------------------------------------------------------------------

  /** What one stripped entry says about `path`: blank (indexing its last character raises), a match, or a miss. */
  datatype EntryVerdict = Blank | Hit | Miss

  ghost function Verdict(excluded: string, path: string): EntryVerdict {
    if excluded == [] then Blank
    else if ReMatch(Compile(excluded), path) then Hit
    else Miss
  }

  /** `map(lambda x: x.strip(), excluded_paths)`. */
  function StripAll(entries: seq<string>): (r: seq<string>)
    ensures |r| == |entries| && forall i :: 0 <= i < |entries| ==> r[i] == Strip(entries[i])
  {
    seq(|entries|, i requires 0 <= i < |entries| => Strip(entries[i]))
  }

  /** The loop over the stripped entries, in order: the first entry that is not a miss decides. */
  ghost function FirstVerdict(stripped: seq<string>, path: string): Outcome<bool> {
    if stripped == [] then Ok(true)
    else match Verdict(stripped[0], path)
      case Blank => Raise(IndexError)
      case Hit => Ok(false)
      case Miss => FirstVerdict(stripped[1..], path)
  }

  /** Entry `i` is the first one that is not a miss, and its verdict is `v`. */
  ghost predicate DecidedAt(stripped: seq<string>, path: string, i: int, v: EntryVerdict) {
    0 <= i < |stripped| && Verdict(stripped[i], path) == v
    && forall j :: 0 <= j < i ==> Verdict(stripped[j], path) == Miss
  }

  function Strings(items: seq<PyValue>): (r: seq<string>)
    requires forall i :: 0 <= i < |items| ==> items[i].PyStr?
    ensures |r| == |items| && forall i :: 0 <= i < |items| ==> items[i] == PyStr(r[i])
  {
    seq(|items|, i requires 0 <= i < |items| => items[i].s)
  }

  /**
   * `Auth.require_auth(path, excluded_paths)`: required for a falsy path or
   * a falsy exclusion list; a TypeError for a non-string path, a
   * non-iterable list or a non-string entry, all checked before any
   * matching; otherwise the verdict of the first stripped entry that is
   * not a miss.
   */
  ghost function RequireAuthSpec(path: PyValue, excludedPaths: PyValue): Outcome<bool> {
    if !Truthy(path) || !Truthy(excludedPaths) then Ok(true)
    else if !path.PyStr? then Raise(TypeError)
    else match AsList(excludedPaths)
      case None => Raise(TypeError)
      case Some(items) =>
        if exists i :: 0 <= i < |items| && !items[i].PyStr? then Raise(TypeError)
        else FirstVerdict(StripAll(Strings(items)), path.s)
  }

  /** Every string entry that is not blank once stripped gives a metacharacter-free literal. */
  ghost predicate LiteralEntries(excludedPaths: PyValue) {
    match AsList(excludedPaths)
    case None => true
    case Some(items) =>
      forall i :: 0 <= i < |items| && items[i].PyStr? && Strip(items[i].s) != [] ==>
        NoRegexMeta(Compile(Strip(items[i].s)).literal)
  }

  /**
   * `Auth.require_auth`: the argument checks, then the loop over the
   * entries (`ExclusionLoop`).
   */
  method RequireAuth(path: PyValue, excludedPaths: PyValue) returns (r: Outcome<bool>)
    requires LiteralEntries(excludedPaths)
    ensures r == RequireAuthSpec(path, excludedPaths)
  {
    if !Truthy(path) || !Truthy(excludedPaths) {
      return Ok(true);
    }
    if !path.PyStr? {
      return Raise(TypeError);
    }
    var asList := AsList(excludedPaths);
    if asList.None? {
      return Raise(TypeError);
    }
    var items := asList.value;
    if exists i :: 0 <= i < |items| && !items[i].PyStr? {
      return Raise(TypeError);
    }
    r := ExclusionLoop(Strings(items), path.s);
  }

  /** The loop of `require_auth`: strip each entry, build its pattern, return at the first match. */
  method ExclusionLoop(entries: seq<string>, path: string) returns (r: Outcome<bool>)
    ensures r == FirstVerdict(StripAll(entries), path)
  {
    ghost var stripped := StripAll(entries);
    var i := 0;
    while i < |entries|
      invariant 0 <= i <= |entries|
      invariant FirstVerdict(stripped[i..], path) == FirstVerdict(stripped, path)
    {
      assert stripped[i..][1..] == stripped[i + 1..];
      var excluded := Strip(entries[i]);
      assert excluded == stripped[i];
      if excluded == [] {
        return Raise(IndexError);
      }
      var pattern := Compile(excluded);
      MatchIsPrefix(pattern, path);
      if pattern.literal <= path {
        return Ok(false);
      }
      i := i + 1;
    }
    return Ok(true);
  }

  /**
   * The loop's outcome, stated without the loop: `False` exactly when some
   * entry matches and every earlier one misses; IndexError exactly when a
   * blank entry is reached before any match; `True` exactly when every
   * entry misses.
   */
  lemma {:induction false} FirstVerdictCharacterised(stripped: seq<string>, path: string)
    ensures FirstVerdict(stripped, path) == Ok(false) <==> exists i :: DecidedAt(stripped, path, i, Hit)
    ensures FirstVerdict(stripped, path) == Raise(IndexError) <==> exists i :: DecidedAt(stripped, path, i, Blank)
    ensures FirstVerdict(stripped, path) == Ok(true) <==>
              forall i :: 0 <= i < |stripped| ==> Verdict(stripped[i], path) == Miss
  {
    if stripped != [] {
      var rest := stripped[1..];
      FirstVerdictCharacterised(rest, path);
      forall i, v | DecidedAt(rest, path, i, v) && Verdict(stripped[0], path) == Miss
        ensures DecidedAt(stripped, path, i + 1, v)
      {
        assert forall j :: 1 <= j < i + 1 ==> stripped[j] == rest[j - 1];
      }
      forall i, v | 1 <= i && DecidedAt(stripped, path, i, v) ensures DecidedAt(rest, path, i - 1, v) {
        assert forall j :: 0 <= j < i - 1 ==> rest[j] == stripped[j + 1];
      }
      if Verdict(stripped[0], path) == Miss {
        assert forall i :: 0 <= i < |rest| ==> rest[i] == stripped[i + 1];
        assert !DecidedAt(stripped, path, 0, Hit) && !DecidedAt(stripped, path, 0, Blank);
      } else {
        assert DecidedAt(stripped, path, 0, Verdict(stripped[0], path));
      }
    }
  }

  /** The literal built from stripped entry `e` (when not blank) does not end in `/`. */
  ghost predicate NoTrailingSlashLiteral(e: string) {
    e == [] || Compile(e).literal == [] || Compile(e).literal[|Compile(e).literal| - 1] != '/'
  }

  /** One entry judges `path` and `path + "/"` alike when its literal does not end in `/`. */
  lemma VerdictSlashTolerant(e: string, path: string)
    requires NoTrailingSlashLiteral(e)
    ensures Verdict(e, path + "/") == Verdict(e, path)
  {
    if e != [] {
      var p := Compile(e);
      MatchIsPrefix(p, path);
      MatchIsPrefix(p, path + "/");
      assert p.literal <= path + "/" ==> |p.literal| <= |path| || p.literal == path + "/";
    }
  }

  /**
   * Slash tolerance: when no entry's literal ends in `/`, a path and the
   * same path with one more `/` get the same verdict (`/api/v1/status` and
   * `/api/v1/status/` against `/api/v1/status/`).
   */
  lemma {:induction false} SlashTolerance(stripped: seq<string>, path: string)
    requires forall i :: 0 <= i < |stripped| ==> NoTrailingSlashLiteral(stripped[i])
    ensures FirstVerdict(stripped, path + "/") == FirstVerdict(stripped, path)
  {
    if stripped != [] {
      VerdictSlashTolerant(stripped[0], path);
      SlashTolerance(stripped[1..], path);
    }
  }

  /** A call with a non-empty path and a non-empty list of strings reduces to the loop over the stripped entries. */
  lemma RequireAuthOnStrings(path: string, items: seq<PyValue>)
    requires path != [] && items != [] && forall i :: 0 <= i < |items| ==> items[i].PyStr?
    ensures RequireAuthSpec(PyStr(path), PyList(items)) == FirstVerdict(StripAll(Strings(items)), path)
  {
    assert AsList(PyList(items)) == Some(items);
  }

  /** The falsy-argument cases of test_auth.py: no path or no exclusions means authentication is required. */
  lemma RequireAuthFalsyExamples()
    ensures RequireAuthSpec(PyNone, PyNone) == Ok(true)
    ensures RequireAuthSpec(PyNone, PyList([])) == Ok(true)
    ensures RequireAuthSpec(PyStr("/api/v1/status/"), PyList([])) == Ok(true)
  {
  }

  /** The status entry of test_auth.py has no surrounding blanks. */
  lemma StatusEntryTrimmed()
    ensures Strip("/api/v1/status/") == "/api/v1/status/"
  {
    StripTrimmed("/api/v1/status/");
  }

  /** The stats entry of test_auth.py has no surrounding blanks. */
  lemma StatsEntryTrimmed()
    ensures Strip("/api/v1/stats") == "/api/v1/stats"
  {
    StripTrimmed("/api/v1/stats");
  }

  /** The one-entry list of test_auth.py is kept as it is by stripping. */
  lemma StatusListStripped()
    ensures StripAll(["/api/v1/status/"]) == ["/api/v1/status/"]
  {
    StatusEntryTrimmed();
  }

  /** The two-entry list of test_auth.py is kept as it is by stripping. */
  lemma BothListStripped()
    ensures StripAll(["/api/v1/status/", "/api/v1/stats"]) == ["/api/v1/status/", "/api/v1/stats"]
  {
    StatusEntryTrimmed();
    StatsEntryTrimmed();
  }

  /** `/api/v1/status/` covers the status path with and without its slash. */
  lemma StatusEntryHits()
    ensures Verdict("/api/v1/status/", "/api/v1/status/") == Hit
    ensures Verdict("/api/v1/status/", "/api/v1/status") == Hit
  {
    var p := Compile("/api/v1/status/");
    MatchIsPrefix(p, "/api/v1/status/");
    MatchIsPrefix(p, "/api/v1/status");
  }

  /** Neither `/api/v1/status/` nor `/api/v1/stats` covers `/api/v1/users`. */
  lemma UsersPathMisses()
    ensures Verdict("/api/v1/status/", "/api/v1/users") == Miss
    ensures Verdict("/api/v1/stats", "/api/v1/users") == Miss
  {
    var p, q := Compile("/api/v1/status/"), Compile("/api/v1/stats");
    MatchIsPrefix(p, "/api/v1/users");
    assert "/api/v1/users"[8] != p.literal[8];
    MatchIsPrefix(q, "/api/v1/users");
    assert "/api/v1/users"[8] != q.literal[8];
  }

  /** Lists of one and of two entries that all miss `path` leave it requiring authentication. */
  lemma AllMissed(e1: string, e2: string, path: string)
    requires Verdict(e1, path) == Miss && Verdict(e2, path) == Miss
    ensures FirstVerdict([e1], path) == Ok(true)
    ensures FirstVerdict([e1, e2], path) == Ok(true)
  {
    assert [e1][1..] == [];
    assert [e1, e2][1..] == [e2];
    assert [e2][1..] == [];
  }

  /** test_auth.py: `/api/v1/status/` is excluded by `["/api/v1/status/"]`. */
  lemma StatusPathExcluded()
    ensures FirstVerdict(StripAll(["/api/v1/status/"]), "/api/v1/status/") == Ok(false)
    ensures RequireAuthSpec(PyStr("/api/v1/status/"), PyList([PyStr("/api/v1/status/")])) == Ok(false)
  {
    assert FirstVerdict(StripAll(["/api/v1/status/"]), "/api/v1/status/") == Ok(false) by {
      StatusListStripped();
      StatusEntryHits();
    }
    OneEntryOnStrings("/api/v1/status/", "/api/v1/status/");
  }

  /** test_auth.py: `/api/v1/status`, without its slash, is excluded by `["/api/v1/status/"]` too. */
  lemma SlashlessStatusPathExcluded()
    ensures FirstVerdict(StripAll(["/api/v1/status/"]), "/api/v1/status") == Ok(false)
    ensures RequireAuthSpec(PyStr("/api/v1/status"), PyList([PyStr("/api/v1/status/")])) == Ok(false)
  {
    assert FirstVerdict(StripAll(["/api/v1/status/"]), "/api/v1/status") == Ok(false) by {
      StatusListStripped();
      StatusEntryHits();
    }
    OneEntryOnStrings("/api/v1/status", "/api/v1/status/");
  }

  /** test_auth.py: `/api/v1/users` needs authentication under `["/api/v1/status/"]`. */
  lemma UsersPathRequired()
    ensures FirstVerdict(StripAll(["/api/v1/status/"]), "/api/v1/users") == Ok(true)
    ensures RequireAuthSpec(PyStr("/api/v1/users"), PyList([PyStr("/api/v1/status/")])) == Ok(true)
  {
    assert FirstVerdict(StripAll(["/api/v1/status/"]), "/api/v1/users") == Ok(true) by {
      StatusListStripped();
      UsersPathMisses();
      AllMissed("/api/v1/status/", "/api/v1/stats", "/api/v1/users");
    }
    OneEntryOnStrings("/api/v1/users", "/api/v1/status/");
  }

  /** test_auth.py: `/api/v1/users` needs authentication under `["/api/v1/status/", "/api/v1/stats"]`. */
  lemma UsersPathRequiredBoth()
    ensures FirstVerdict(StripAll(["/api/v1/status/", "/api/v1/stats"]), "/api/v1/users") == Ok(true)
    ensures RequireAuthSpec(PyStr("/api/v1/users"), PyList([PyStr("/api/v1/status/"), PyStr("/api/v1/stats")]))
            == Ok(true)
  {
    assert FirstVerdict(StripAll(["/api/v1/status/", "/api/v1/stats"]), "/api/v1/users") == Ok(true) by {
      BothListStripped();
      UsersPathMisses();
      AllMissed("/api/v1/status/", "/api/v1/stats", "/api/v1/users");
    }
    TwoEntriesOnStrings("/api/v1/users", "/api/v1/status/", "/api/v1/stats");
  }

  /** `require_auth(path, [first, second])` for a non-empty path is the loop over those two entries. */
  lemma TwoEntriesOnStrings(path: string, first: string, second: string)
    requires path != []
    ensures RequireAuthSpec(PyStr(path), PyList([PyStr(first), PyStr(second)]))
            == FirstVerdict(StripAll([first, second]), path)
  {
    var items := [PyStr(first), PyStr(second)];
    var names := Strings(items);
    assert names[0] == first && names[1] == second;
    assert names == [first, second];
    RequireAuthOnStrings(path, items);
  }


  /** `require_auth(path, [entry])` for a non-empty path is the loop over that one entry. */
  lemma OneEntryOnStrings(path: string, entry: string)
    requires path != []
    ensures RequireAuthSpec(PyStr(path), PyList([PyStr(entry)])) == FirstVerdict(StripAll([entry]), path)
  {
    var items := [PyStr(entry)];
    var names := Strings(items);
    assert names[0] == entry;
    assert names == [entry];
    RequireAuthOnStrings(path, items);
  }


  // ---------------------------------------------------------------------------
  // Request accessors
  // ---------------------------------------------------------------------------

  /** `Auth.authorization_header`: the header value verbatim, or None without a request or without the header. */
  function AuthorizationHeader(request: Option<Request>): (r: Option<string>)
    ensures r.Some? <==> request.Some? && "Authorization" in request.value.headers
    ensures r.Some? ==> r.value == request.value.headers["Authorization"]
  {
    if request.None? || "Authorization" !in request.value.headers then None
    else Some(request.value.headers["Authorization"])
  }

  /** `Auth.current_user`: the base strategy identifies nobody. */
  function CurrentUser(request: Option<Request>): (u: Option<User>)
    ensures u == None
  {
    None
  }

  /**
   * `Auth.session_cookie`: the cookie named by the `SESSION_NAME` setting
   * (`sessionName`, None when unset); None without a request, without the
   * setting or without that cookie.
   */
  function SessionCookie(request: Option<Request>, sessionName: Option<string>): (r: Option<string>)
    ensures r.Some? <==> request.Some? && sessionName.Some? && sessionName.value in request.value.cookies
    ensures r.Some? ==> r.value == request.value.cookies[sessionName.value]
  {
    if request.None? || sessionName.None? || sessionName.value !in request.value.cookies then None
    else Some(request.value.cookies[sessionName.value])
  }
}
