# Session authentication and PII log redaction, modelled in Dafny

This project models two parts of `alx-backend-user-data`.

**Session authentication API** (`0x02-Session_authentication`):

- the base strategy `Auth`:
  - `require_auth`, which decides whether a request path needs authentication, using a list of excluded path patterns;
  - the stateless request accessors `authorization_header`, `current_user` and `session_cookie`.
- the expiring in-memory session store `SessionExpAuth`, and the empty `SessionAuth` parent it builds on;
- the record-backed session store `SessionDBAuth`, over a store of `UserSession` records;
- the application's strategy selection (`AUTH_TYPE`), its excluded paths and its `before_request` filter `auth_filter`;
- the `login` and `logout` routes.

**Personal-data logger** (`0x00-personal_data`):

- `filter_datum`, which redacts `field=value` entries of a log line through one regular-expression substitution;
- the pattern builder behind it;
- `RedactingFormatter.format`, which applies it to every formatted log record.

## How the model is built

- **Stateful entities are classes.** `SessionAuth`, `SessionExpAuth`, `SessionDBAuth`, the `UserSession` store and the request seen by the filter are classes whose methods update fields in place.
- **Inheritance becomes composition.** `SessionExpAuth` holds the `SessionAuth` whose dictionary it rewrites, and `SessionDBAuth` holds its `SessionExpAuth` and the record store.
- **Loops stay loops.** The loop of `require_auth` and the user loop of `login` are methods with loop invariants. Each is proved equal to a specification function, and the lemmas are stated about those functions.
- **Pure code stays pure.** The accessors, the filter decision, the substitution and the formatter are functions.
- **Dynamic arguments are a `PyValue`.** Python's untyped arguments are `PyValue` (None, int, str, list). `require_auth` and `create_session` receive None, numbers and strings and must handle each.
- **Exceptions become outcomes.** An exception becomes the `Raise` case of an `Outcome`, or a `None` where the source catches it.
- **Surroundings are parameters.** The clock is an integer `now`, in whole seconds since 0001-01-01 00:00:00 (the earliest `datetime`). The OverflowError of a `timedelta` or a `datetime` outside Python's range is a range test on those integers. The random session id is a parameter `freshId`, and environment settings are `Option<string>` parameters.
- **The password check is opaque.** It is an arbitrary predicate `isValidPassword`.
- **The record store's failure is a flag.** A search that raises is the store flag `searchRaises`.

The `regex` module is modelled only as far as the two pattern shapes the code builds.

- **The exclusion pattern.** An exclusion entry becomes a literal followed by `/*` or `.*`. `Auth.MatchIsPrefix` proves that `re.match` of such a pattern is exactly a prefix test on the literal, because both starred tails match the empty string.
- **The redaction pattern.** It is `(?P<field>f1|...)=[^sep]+`:
  - `FilteredLogger.PatternRoundTrip` proves that the text built by the pattern builder reads back as those alternatives and that separator;
  - `FilteredLogger.Sub` is the leftmost, non-overlapping scan `re.sub` performs with it.

## Model

| member | source | states |
|---|---|---|
| PyValues.Truthy | 0x02-Session_authentication/api/v1/auth/auth.py:34 | Python's truth value: None, 0, `""` and `[]` are falsy, everything else truthy; what `require_auth` does with it is stated by `Auth.RequireAuthFalsyExamples` and `Auth.RequireAuth` |
| PyValues.AsList | 0x02-Session_authentication/api/v1/auth/auth.py:40-43 | `list(v)` fails exactly for None and integers; a string gives its one-character strings; a list gives its own items |
| PyValues.Strip | 0x02-Session_authentication/api/v1/auth/auth.py:48 | `str.strip()`: the result neither starts nor ends with whitespace, and it is empty exactly when the input is all whitespace |
| PyValues.StripIsSlice | 0x02-Session_authentication/api/v1/auth/auth.py:48 | what `strip` keeps is the slice of the input starting where `lstrip` stops, and everything cut off before and after it is whitespace |
| PyValues.StripTrimmed | 0x02-Session_authentication/api/v1/auth/auth.py:48 | a string without surrounding whitespace is left as it is by `strip` |
| Auth.Compile | 0x02-Session_authentication/api/v1/auth/auth.py:49-55 | the pattern has a `.*` tail exactly when the entry ends in `*`; its literal is the entry less its last character when that is `*` or `/`, and the whole entry otherwise |
| Auth.VerdictRule | 0x02-Session_authentication/api/v1/auth/auth.py:49-57 | a non-blank stripped entry excludes a path exactly when the entry, less one trailing `*` or `/`, begins the path |
| Auth.ReMatch | 0x02-Session_authentication/api/v1/auth/auth.py:56 | `re.match` of a built pattern: a match at the start of the path; what it decides is stated by `MatchIsPrefix` |
| Auth.MatchIsPrefix | 0x02-Session_authentication/api/v1/auth/auth.py:56 | `re.match` of a built pattern succeeds exactly when its literal is a prefix of the path |
| Auth.StripAll | 0x02-Session_authentication/api/v1/auth/auth.py:48 | every entry is stripped, in order, and none is added or dropped |
| Auth.RequireAuth | 0x02-Session_authentication/api/v1/auth/auth.py:34-46 | falsy path or falsy list gives True before any type check; a non-string path, a non-iterable list or a non-string entry gives TypeError; otherwise the loop's verdict |
| Auth.ExclusionLoop | 0x02-Session_authentication/api/v1/auth/auth.py:48-58 | the loop returns what the first stripped entry that is not a miss decides (False on a match, IndexError on a blank entry), and True when all miss |
| Auth.FirstVerdictCharacterised | 0x02-Session_authentication/api/v1/auth/auth.py:48-58 | False iff some entry matches after only misses; IndexError iff a blank entry is reached before any match; True iff every entry misses |
| Auth.VerdictSlashTolerant | 0x02-Session_authentication/api/v1/auth/auth.py:22-24 | one entry whose literal does not end in `/` judges `p` and `p + "/"` alike |
| Auth.SlashTolerance | 0x02-Session_authentication/api/v1/auth/auth.py:22-24 | a whole list of such entries judges `p` and `p + "/"` alike |
| Auth.RequireAuthOnStrings | 0x02-Session_authentication/api/v1/auth/auth.py:34-48 | a non-empty string path with a non-empty list of strings passes every check and goes to the loop |
| Auth.OneEntryOnStrings | 0x02-Session_authentication/api/v1/auth/auth.py:34-48 | `require_auth(path, [entry])` for a non-empty path is the loop over that entry |
| Auth.TwoEntriesOnStrings | 0x02-Session_authentication/api/v1/auth/auth.py:34-48 | `require_auth(path, [first, second])` for a non-empty path is the loop over those entries |
| Auth.RequireAuthFalsyExamples | 0x02-Session_authentication/tests/test_api/test_v1/test_auth/test_auth.py:21-23 | None or empty arguments require authentication |
| Auth.StatusPathExcluded | 0x02-Session_authentication/tests/test_api/test_v1/test_auth/test_auth.py:24-25 | `require_auth("/api/v1/status/", ["/api/v1/status/"])` is False, and so is the loop it runs |
| Auth.SlashlessStatusPathExcluded | 0x02-Session_authentication/tests/test_api/test_v1/test_auth/test_auth.py:26-27 | `require_auth("/api/v1/status", ["/api/v1/status/"])` is False as well |
| Auth.UsersPathRequired | 0x02-Session_authentication/tests/test_api/test_v1/test_auth/test_auth.py:28-29 | `require_auth("/api/v1/users", ["/api/v1/status/"])` is True |
| Auth.UsersPathRequiredBoth | 0x02-Session_authentication/tests/test_api/test_v1/test_auth/test_auth.py:30-32 | `require_auth("/api/v1/users", ["/api/v1/status/", "/api/v1/stats"])` is True |
| Auth.StatusEntryHits | 0x02-Session_authentication/tests/test_api/test_v1/test_auth/test_auth.py:24-27 | the entry `/api/v1/status/` matches the status path with and without its final slash |
| Auth.UsersPathMisses | 0x02-Session_authentication/tests/test_api/test_v1/test_auth/test_auth.py:28-32 | neither `/api/v1/status/` nor `/api/v1/stats` matches `/api/v1/users` |
| Auth.AuthorizationHeader | 0x02-Session_authentication/api/v1/auth/auth.py:60-68 | the header value verbatim; None exactly when there is no request or no such header |
| Auth.CurrentUser | 0x02-Session_authentication/api/v1/auth/auth.py:70-74 | the base strategy identifies nobody |
| Auth.SessionCookie | 0x02-Session_authentication/api/v1/auth/auth.py:76-88 | the cookie named by SESSION_NAME; None exactly when there is no request, no setting or no such cookie |
| App.SelectAuth | 0x02-Session_authentication/api/v1/app.py:14-24 | `"auth"`, `"basic_auth"` and `"session_auth"` select their strategy, each iff that value is set; any other value or no value leaves none |
| App.ExcludedPathsValue | 0x02-Session_authentication/api/v1/app.py:26-30 | the tuple of the three excluded routes as `require_auth` receives it, entry for entry |
| App.DirectoryBase | 0x02-Session_authentication/api/v1/app.py:26-30 | a directory entry is its base followed by `/` |
| App.DirectoryEntryCompiles | 0x02-Session_authentication/api/v1/auth/auth.py:48-55 | a directory entry strips to itself and compiles to its base with a starred-slash tail |
| App.StripAllDirectories | 0x02-Session_authentication/api/v1/auth/auth.py:48 | stripping leaves a list of directory entries unchanged |
| App.DirectoryVerdict | 0x02-Session_authentication/api/v1/auth/auth.py:48-58 | over directory entries the loop never raises, and gives False exactly when some base is a prefix of the path |
| App.ExcludedPathsAreDirectories | 0x02-Session_authentication/api/v1/app.py:26-30 | each of the three excluded routes is a directory entry without metacharacters |
| App.ExcludedPathsBases | 0x02-Session_authentication/api/v1/app.py:26-30 | a path is under one of the excluded entries exactly when it starts with `/api/v1/status`, `/api/v1/unauthorized` or `/api/v1/forbidden` |
| App.StatusesPathExcluded | 0x02-Session_authentication/api/v1/auth/auth.py:50-57 | `/api/v1/statuses` does not require authentication: the exclusion is a bare prefix test |
| App.RequireAuthForApp | 0x02-Session_authentication/api/v1/app.py:61-62 | `require_auth(path, AUTH_EXCLUDED_PATHS)` never raises for a string path, and is False exactly for the excluded routes |
| App.ExcludedPathsAreLiteral | 0x02-Session_authentication/api/v1/app.py:26-30 | the excluded routes meet the metacharacter-free condition under which the prefix reading of `re.match` holds |
| App.AbortStatus | 0x02-Session_authentication/api/v1/app.py:58-68 | a request goes on (status 0) exactly when there is no strategy, no authentication is required, or a user was found; 401 exactly for a missing header, 403 exactly for a missing user, 500 exactly for an exception escaping `require_auth` |
| App.IncomingRequest.constructor | 0x02-Session_authentication/api/v1/app.py:70 | a new request has no `current_user` attribute |
| App.AuthFilter | 0x02-Session_authentication/api/v1/app.py:54-70 | the filter's outcome follows the checks in source order, and `request.current_user` is written only for an authenticated request, to that user |
| App.GateCharacterised | 0x02-Session_authentication/api/v1/app.py:54-70 | never a server error; no strategy lets everything through; excluded routes pass; elsewhere, no or an empty header is 401 whatever the user, then no user is 403, else the user is let through |
| App.ExcludedNeverRejected | 0x02-Session_authentication/api/v1/app.py:61-62 | a request on an excluded route is never aborted, whatever its headers and user |
| App.CookiesIrrelevant | 0x02-Session_authentication/api/v1/app.py:64 | two requests with the same path and Authorization header get the same outcome, so a session cookie cannot avoid the 401 |
| App.BaseCurrentUserNeverAuthenticates | 0x02-Session_authentication/api/v1/app.py:67-68 | with the base `current_user` (used by `Auth` and `SessionAuth`), every protected request is aborted with 401 or 403 |
| App.ProtectedRequest | 0x02-Session_authentication/api/v1/app.py:64-70 | a protected route with a non-empty header and a user is let through, and the attribute is that user |
| SessionBase.SessionAuth.constructor | 0x02-Session_authentication/api/v1/auth/session_auth.py:10-14 | a new strategy holds no session |
| SessionBase.SessionAuth.CreateSession | 0x02-Session_authentication/tests/test_api/test_v1/test_auth/test_session_auth.py:48-66 | None, a non-string or `""` gives None and records nothing; otherwise the fresh id is returned and mapped to the user id, other entries unchanged |
| SessionBase.SessionAuth.UserIdForSessionId | 0x02-Session_authentication/tests/test_api/test_v1/test_auth/test_session_auth.py:79-97 | what the dictionary holds for a non-empty string id; None for None, a non-string, `""` or an unknown id |
| SessionBase.CreateThenLookup | 0x02-Session_authentication/tests/test_api/test_v1/test_auth/test_session_auth.py:91-97 | a session created for a user id resolves back to it |
| SessionBase.CreateTwiceKeepsBoth | 0x02-Session_authentication/tests/test_api/test_v1/test_auth/test_session_auth.py:68-77 | two sessions for one user both stay mapped to that user |
| SessionBase.RefusedUserIds | 0x02-Session_authentication/tests/test_api/test_v1/test_auth/test_session_auth.py:48-58 | None, 100 and `""` are refused |
| SessionExp.NatToString | 0x02-Session_authentication/api/v1/auth/session_exp_auth.py:19 | `str(n)` of a natural number is a non-empty run of digits |
| SessionExp.NatToStringValue | 0x02-Session_authentication/api/v1/auth/session_exp_auth.py:19 | the digits written by `str` have the value written |
| SessionExp.IntToStringTrimmed | 0x02-Session_authentication/api/v1/auth/session_exp_auth.py:19 | `str(n)` has no surrounding whitespace |
| SessionExp.ParseSignedDigits | 0x02-Session_authentication/api/v1/auth/session_exp_auth.py:19 | a run of digits, with or without a minus sign, parses to its value |
| SessionExp.ParseInt | 0x02-Session_authentication/api/v1/auth/session_exp_auth.py:19 | `int(text)`; what it accepts is stated by `ParseIntAccepts` and `ParseIntRoundTrip` |
| SessionExp.ParseIntAccepts | 0x02-Session_authentication/api/v1/auth/session_exp_auth.py:19-21 | `int(text)` succeeds exactly when the stripped text is an optional sign and a well-formed digit run; a leading minus gives a value <= 0, anything else a value >= 0 |
| SessionExp.IntToString | 0x02-Session_authentication/api/v1/auth/session_exp_auth.py:19 | `str(n)` is a minus sign exactly for negative `n`, then a non-empty run of digits |
| SessionExp.ParseIntRoundTrip | 0x02-Session_authentication/api/v1/auth/session_exp_auth.py:19 | `int(str(n)) == n` for every integer |
| SessionExp.DurationFromSetting | 0x02-Session_authentication/api/v1/auth/session_exp_auth.py:18-21 | unset gives 0 (the default `"0"`); text that `int` rejects gives 0; otherwise the parsed value |
| SessionExp.ParseIntUnderscored | 0x02-Session_authentication/api/v1/auth/session_exp_auth.py:19 | blanks are ignored and underscores between digits skipped: `" 1_000 "` is 1000 |
| SessionExp.ParseIntWord | 0x02-Session_authentication/api/v1/auth/session_exp_auth.py:19-21 | `"ten"` does not parse |
| SessionExp.DefaultDuration | 0x02-Session_authentication/api/v1/auth/session_exp_auth.py:19 | an unset setting gives what its default text `"0"` gives, 0 |
| SessionExp.DurationExamples | 0x02-Session_authentication/api/v1/auth/session_exp_auth.py:18-21 | `"60"`, `" 1_000 "` and `"-5"` give 60, 1000 and -5; `"ten"` and `""` give 0 |
| SessionExp.TimedeltaFits | 0x02-Session_authentication/api/v1/auth/session_exp_auth.py:52 | `timedelta(seconds=d)` is built without OverflowError exactly when `d // 86400` is within 999999999 days either way; used by the lookups' OverflowError clauses |
| SessionExp.InDatetimeRange | 0x02-Session_authentication/api/v1/auth/session_exp_auth.py:53 | a time a `datetime` holds: from 0001-01-01 00:00:00 (0) to 9999-12-31 23:59:59 (315537897599 seconds later) |
| SessionExp.ExpiryInRange | 0x02-Session_authentication/api/v1/auth/session_exp_auth.py:52-53 | `created_at + timedelta(seconds=d)` is computed without OverflowError; the lookups raise exactly when it fails |
| SessionExp.SessionExpAuth.constructor | 0x02-Session_authentication/api/v1/auth/session_exp_auth.py:15-21 | an empty dictionary and the duration read from SESSION_DURATION |
| SessionExp.SessionExpAuth.CreateSession | 0x02-Session_authentication/api/v1/auth/session_exp_auth.py:23-34 | a refused user id gives None and writes nothing; otherwise the new id maps to `{user_id, created_at: now}`, other entries unchanged, and every entry stays a dictionary |
| SessionExp.SessionExpAuth.UserIdForSessionId | 0x02-Session_authentication/api/v1/auth/session_exp_auth.py:36-56 | a user id exactly when the id is stored and either the duration is not positive or the entry has `created_at`, its expiry `created_at + duration` fits `timedelta` and `datetime`, and `now <= created_at + duration`; OverflowError exactly when the duration is positive and that expiry does not fit; it only reads |
| SessionExp.ExpiryScenario | 0x02-Session_authentication/api/v1/auth/session_exp_auth.py:45-56 | a new session resolves at its creation time, and later exactly while the duration has not elapsed or is not positive; with a positive duration whose expiry leaves `datetime`'s range, both lookups raise OverflowError |
| SessionDb.Matching | 0x02-Session_authentication/api/v1/auth/session_db_auth.py:39 | the records found are no more than the records stored |
| SessionDb.MatchingCharacterised | 0x02-Session_authentication/api/v1/auth/session_db_auth.py:39 | every record found carries the id, and nothing is found exactly when no record carries it |
| SessionDb.FirstMatch | 0x02-Session_authentication/api/v1/auth/session_db_auth.py:74 | the position found holds a record with the id |
| SessionDb.FirstMatchCharacterised | 0x02-Session_authentication/api/v1/auth/session_db_auth.py:74 | no earlier record carries the id, and there is no position only when no record carries it |
| SessionDb.FirstOfMatching | 0x02-Session_authentication/api/v1/auth/session_db_auth.py:71-74 | `sessions[0]` exists exactly when a position is found, and it is the record there |
| SessionDb.MatchingConcat | 0x02-Session_authentication/api/v1/auth/session_db_auth.py:39 | the search over two runs of records is the two searches joined |
| SessionDb.MatchingAppend | 0x02-Session_authentication/api/v1/auth/session_db_auth.py:30 | a saved record extends exactly the searches it matches |
| SessionDb.MatchingRemoveFirst | 0x02-Session_authentication/api/v1/auth/session_db_auth.py:74 | removing the first match takes exactly that record out of its search and leaves searches for other ids unchanged |
| SessionDb.RemoveKeepsOthers | 0x02-Session_authentication/api/v1/auth/session_db_auth.py:74 | removal deletes one record and keeps every other record |
| SessionDb.UserSessionStore.constructor | 0x02-Session_authentication/models/user_session.py:10-25 | a store holding the given `UserSession` records (the cited lines define the record; the storage behind `search` and `save` lives in `models/base.py`, which is not part of this model) |
| SessionDb.UserSessionStore.Search | 0x02-Session_authentication/api/v1/auth/session_db_auth.py:38-41 | None exactly when the search raises, else the matching records in stored order |
| SessionDb.UserSessionStore.Save | 0x02-Session_authentication/api/v1/auth/session_db_auth.py:30 | the record is appended |
| SessionDb.UserSessionStore.RemoveAt | 0x02-Session_authentication/api/v1/auth/session_db_auth.py:74 | only the given record is deleted, the rest keep their order |
| SessionDb.SessionDBAuth.constructor | 0x02-Session_authentication/api/v1/auth/session_exp_auth.py:15-21 | the inherited state: an empty dictionary, the parsed duration, and the given store |
| SessionDb.SessionDBAuth.CreateSession | 0x02-Session_authentication/api/v1/auth/session_db_auth.py:18-31 | a refused user id writes nothing and saves nothing; otherwise the inherited entry is written and exactly one record `(user_id, id, now)` is appended |
| SessionDb.SessionDBAuth.UserIdForSessionId | 0x02-Session_authentication/api/v1/auth/session_db_auth.py:33-52 | OverflowError exactly when the search succeeds, finds a record, and the first one's expiry `created_at + duration` does not fit `timedelta` and `datetime`; otherwise a user id exactly when that expiry is not before `now`; no exemption for a non-positive duration; only the store is read |
| SessionDb.SessionDBAuth.DestroySession | 0x02-Session_authentication/api/v1/auth/session_db_auth.py:54-75 | True exactly when the search succeeds and some record carries the cookie's id; then exactly that first record is removed, whatever its age; otherwise nothing changes |
| SessionDb.CookieKey | 0x02-Session_authentication/api/v1/auth/session_db_auth.py:65 | the value searched for is the cookie's text, or None when there is no cookie |
| SessionDb.SavedAlone | 0x02-Session_authentication/api/v1/auth/session_db_auth.py:25-31 | a record saved under an unused id is the only one found for it, at the end, and removing it restores the store |
| SessionDb.Lifecycle | 0x02-Session_authentication/api/v1/auth/session_db_auth.py:18-75 | a session resolves while not expired (every lookup raises OverflowError when its expiry leaves `datetime`'s range); logout with its cookie succeeds, after which it no longer resolves and the records are what they were before |
| SessionDb.NegativeDuration | 0x02-Session_authentication/api/v1/auth/session_db_auth.py:46-50 | with a negative duration the in-memory strategy never expires a session while the record-backed one has it expired at creation, or raises OverflowError when `now + duration` is before the earliest `datetime` |
| SessionViews.UsersWithEmail | 0x02-Session_authentication/api/v1/views/session_auth.py:27 | every user found has that email, and none is found iff no stored user has it |
| SessionViews.UsersWithEmailComplete | 0x02-Session_authentication/api/v1/views/session_auth.py:27 | every stored user with that email is found |
| SessionViews.FirstValid | 0x02-Session_authentication/api/v1/views/session_auth.py:34-37 | the first user whose password validates; None iff none does |
| SessionViews.FirstValidAt | 0x02-Session_authentication/api/v1/views/session_auth.py:34-37 | a user that validates after only failures is the one chosen |
| SessionViews.Authenticate | 0x02-Session_authentication/api/v1/views/session_auth.py:26-39 | a rejection is 404 or 401; a granted user has the email and a password that validates |
| SessionViews.MissingField | 0x02-Session_authentication/api/v1/views/session_auth.py:17-22 | `not request.form.get(name)`: the field is absent or empty; used by `LoginDecide`'s two 400 clauses |
| SessionViews.LoginDecide | 0x02-Session_authentication/api/v1/views/session_auth.py:17-22 | "email missing" exactly when the email is missing or empty; "password missing" exactly when the email is there and the password missing or empty |
| SessionViews.LoginRejectedCharacterised | 0x02-Session_authentication/api/v1/views/session_auth.py:34-39 | the password loop over the users found finds nobody exactly when no stored user with that email has a password that validates |
| SessionViews.AuthenticateCharacterised | 0x02-Session_authentication/api/v1/views/session_auth.py:26-39 | 404 exactly when the search fails or nobody has the email; 401 "wrong password" exactly when somebody has it but none of them has a password that validates; a grant is the first stored user with that email whose password validates |
| SessionViews.LoginGrantCharacterised | 0x02-Session_authentication/api/v1/views/session_auth.py:34-37 | the user granted is the first stored user with that email whose password validates |
| SessionViews.EmailCheckedFirst | 0x02-Session_authentication/api/v1/views/session_auth.py:19-22 | without an email the answer is "email missing", whatever the password |
| SessionViews.CredentialsStripped | 0x02-Session_authentication/api/v1/views/session_auth.py:24-25 | padding email and password with whitespace changes nothing while something else remains |
| SessionViews.BlankEmailNotMissing | 0x02-Session_authentication/api/v1/views/session_auth.py:19-32 | an all-blank email passes the missing check and is searched for as `""`, giving 404 |
| SessionViews.Login | 0x02-Session_authentication/api/v1/views/session_auth.py:14-52 | a rejection answers its status and message and creates nothing; a grant to a user with a non-empty id creates one session for that user at `now` and sets the SESSION_NAME cookie to its id; a grant to a user whose id is `""` creates no session and sets the cookie to None |
| SessionViews.CheckCredentials | 0x02-Session_authentication/api/v1/views/session_auth.py:26-39 | the search and the user loop give the decision of `Authenticate` |
| SessionViews.Logout | 0x02-Session_authentication/api/v1/views/session_auth.py:55-63 | 200 exactly when the cookie's session is found and then removed; 404 otherwise, with the store unchanged |
| FilteredLogger.SplitJoin | 0x00-personal_data/filtered_logger.py:19 | splitting what was joined gives the parts back when none holds the separator |
| FilteredLogger.PatternText | 0x00-personal_data/filtered_logger.py:19 | built pattern text; its meaning is stated by `PatternRoundTrip` |
| FilteredLogger.ReplText | 0x00-personal_data/filtered_logger.py:20 | the replacement template `\g<field>=` followed by the redaction; its expansion is stated by `ReplExpands` |
| FilteredLogger.ExpandRepl | 0x00-personal_data/filtered_logger.py:20 | a template without backslashes expands to itself |
| FilteredLogger.ReplExpands | 0x00-personal_data/filtered_logger.py:20 | the template `\g<field>=` + redaction expands, for a matched field, to the field, `=` and the redaction, which is what `Sub` writes |
| FilteredLogger.Sub | 0x00-personal_data/filtered_logger.py:30 | `re.sub`'s scan; what it does is stated by `SubSplit`, `SubPair`, `RedactsRenderedPairs`, `SeparatorsKept` and `SubHeadKept` |
| FilteredLogger.PatternRoundTrip | 0x00-personal_data/filtered_logger.py:18-21 | the pattern built from metacharacter-free fields reads back as exactly those fields (or the single empty alternative) and that separator |
| FilteredLogger.FirstAlt | 0x00-personal_data/filtered_logger.py:19 | the alternative chosen matches at that position |
| FilteredLogger.FirstAltCharacterised | 0x00-personal_data/filtered_logger.py:19 | the leftmost alternative that matches is chosen; none only when none matches |
| FilteredLogger.RunLength | 0x00-personal_data/filtered_logger.py:19 | `[^sep]+` stops at the first separator or at the end |
| FilteredLogger.MatchLength | 0x00-personal_data/filtered_logger.py:19 | a match covers the field, `=` and at least one value character |
| FilteredLogger.FilterDatum | 0x00-personal_data/filtered_logger.py:24-30 | `re.sub` of the built pattern is the leftmost, non-overlapping scan over the fields as alternatives |
| FilteredLogger.UnchangedWithoutMatch | 0x00-personal_data/filtered_logger.py:30 | a message with no field followed by `=` and a value comes back unchanged |
| FilteredLogger.NoEqualsUnchanged | 0x00-personal_data/filtered_logger.py:30 | a message without `=` is never changed |
| FilteredLogger.EmptyValueNotRedacted | 0x00-personal_data/filtered_logger.py:19 | `f=` directly followed by the separator or the end is not a match |
| FilteredLogger.FirstAltBeforeSeparator | 0x00-personal_data/filtered_logger.py:19 | text after a separator does not affect which alternative matches before it |
| FilteredLogger.SubSplit | 0x00-personal_data/filtered_logger.py:19-20 | a redacted value ends at the separator: the substitution splits at each separator |
| FilteredLogger.RunSplit | 0x00-personal_data/filtered_logger.py:19 | the value run stops at the separator whatever follows it |
| FilteredLogger.RedactPair | 0x00-personal_data/filtered_logger.py:19-20 | an entry keeps its key, and its value is the redaction exactly when the key ends with a field and the value is not empty |
| FilteredLogger.KeyEndsWithFieldTail | 0x00-personal_data/filtered_logger.py:19 | a key ends with a field iff it is one or its tail does, so `xpassword` counts as `password` |
| FilteredLogger.PairAltMatches | 0x00-personal_data/filtered_logger.py:19 | at the start of `key=value` a field matches iff it is the whole key and the value is not empty |
| FilteredLogger.SubPair | 0x00-personal_data/filtered_logger.py:19-20 | one `key=value` entry is redacted as `RedactPair` says |
| FilteredLogger.RedactAll | 0x00-personal_data/filtered_logger.py:19-20 | each entry is redacted on its own, in order |
| FilteredLogger.SeparatorNotMatched | 0x00-personal_data/filtered_logger.py:19 | no match starts at a separator |
| FilteredLogger.RedactsRenderedPairs | 0x00-personal_data/filtered_logger.py:24-30 | over `k1=v1;k2=v2;...` every entry whose key ends with a field and whose value is not empty is redacted, and keys, separators and other values are kept |
| FilteredLogger.CountConcat | 0x00-personal_data/filtered_logger.py:19 | the separators of a concatenation are those of its parts |
| FilteredLogger.SeparatorsKept | 0x00-personal_data/filtered_logger.py:19-20 | when the redaction holds no separator, the output has as many separators as the message |
| FilteredLogger.SubHeadKept | 0x00-personal_data/filtered_logger.py:109-110 | a prefix without `=` whose last character belongs to no field is copied as it is, and the rest is substituted on its own |
| FilteredLogger.PadRight | 0x00-personal_data/filtered_logger.py:91 | `%-15s`: the text, then blanks up to fifteen characters |
| FilteredLogger.FormatLine | 0x00-personal_data/filtered_logger.py:91 | `logging.Formatter.format` with the class's format string; what follows from it is stated by `FormatRedactsMessageOnly` |
| FilteredLogger.Format | 0x00-personal_data/filtered_logger.py:98-110 | TypeError exactly for an argument that is not a log record; otherwise `filter_datum(fields, "***", line, ";")` of the formatted line |
| FilteredLogger.FormatRedactsMessageOnly | 0x00-personal_data/filtered_logger.py:107-110 | with fields without blanks and a header without `=`, the header is kept and only the message is redacted |
| FilteredLogger.PiiFormatterRedactsMessageOnly | 0x00-personal_data/filtered_logger.py:98-110 | a formatter over PII_FIELDS keeps the header and gives the message as `filter_datum(PII_FIELDS, "***", message, ";")` |
| FilteredLogger.TestKeysRedacted | 0x00-personal_data/tests/test_filtered_logger.py:14-23 | of `name`, `password` and `date_of_birth`, the last two are redacted |
| FilteredLogger.TestFieldsRedacted | 0x00-personal_data/tests/test_filtered_logger.py:14-23 | `name=..;password=..;date_of_birth=..` keeps the name and shows `password=xxx` and `date_of_birth=xxx` |

## Left out

- The session strategies when selected from `app.py`. `app.py` can select only `Auth`, `BasicAuth` and the empty `SessionAuth` (lines 16-24). The other two strategy names that AUTH_TYPE is sometimes documented to take, `session_exp_auth` and `session_db_auth`, have no branch in the code. The model follows the code, so `App.SelectAuth` leaves them unselected. The `login` and `logout` routes are modelled against a `SessionDBAuth` passed in, since that is the only strategy with both `create_session` and `destroy_session` in this revision.
- `current_user` of the strategies: `Auth` and `SessionAuth` (which defines none of its own in this revision) use the base method, which returns None; `api/v1/auth/basic_auth.py` is not part of this model, so what `BasicAuth.current_user` answers is unknown here, and the model assumes `BasicAuth` keeps the base `require_auth` and `authorization_header`. That is why the filter takes the strategy's answer as the parameter `currentUser` and assumes its two calls agree.
- SessionBase.SessionAuth.CreateSession: the parent's `create_session` has no source in this revision (`session_auth.py` is an empty class). Its contract is the one its unit tests fix, and the random uuid4 id is the parameter `freshId`.
- SessionDb.SessionDBAuth.CreateSession: the record's `created_at` is taken to be the time `now` of the save. `models/base.py` is not part of this model.
- `UserSession.search`, `save` and `remove` are modelled as a sequence of records:
  - a search that raises is the flag `searchRaises`;
  - loading and writing the JSON file is not modelled.
- SessionExp.SessionExpAuth.UserIdForSessionId: a list passed as the session id raises TypeError in Python (an unhashable dictionary key); the model returns None for it.
- SessionExp.DurationFromSetting: `int` also accepts non-ASCII Unicode digits. The model accepts only ASCII digits, with optional sign, underscores and surrounding whitespace.
- Header names: Flask looks up headers case-insensitively. The model takes header names as already canonical.
- Flask plumbing is not modelled: response objects, `jsonify` bodies, `abort`, the error handlers, CORS and `app.run`. Only statuses, messages, the user and the cookie value are kept.
- The clock and the random session ids are parameters (`now`, `freshId`), not services. `datetime` also carries microseconds; the model's clock counts whole seconds, so it does not tell apart two times within the same second.
- General regular-expression semantics. Only the two pattern shapes the code builds are modelled:
  - `Auth.RequireAuth` requires that entries compile to metacharacter-free literals (`LiteralEntries`);
  - the application's own excluded paths are proved to meet this (`App.ExcludedPathsAreLiteral`).
- FilteredLogger.FilterDatum requires:
  - field names free of regular-expression metacharacters;
  - a separator that is not a metacharacter (inside a character class some are special);
  - a redaction without a backslash (the replacement template would read it as an escape).

  Under other inputs `re.sub` either reads the text as pattern syntax or raises; that is not modelled. The separator is a single character.
- FilteredLogger.Format: the text `logging.Formatter.format` appends for exception information and stack traces is not modelled. `asctime` is taken as already-formatted text, and the record's `message` is taken as final text: the `msg % args` interpolation of `LogRecord.getMessage()` is not modelled.
- `get_logger`, `get_db` and `main` in `filtered_logger.py` (logging handlers, environment and MySQL I/O) are not modelled, and neither is `RedactingFormatter.__init__` beyond holding its fields.
- SessionDb.Lifecycle and SessionViews.Login take an already-built `SessionDBAuth` rather than building one from the environment.
