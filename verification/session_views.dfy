/**
 * The session routes: `POST /auth_session/login` checks the form, finds
 * the users with the given email, and opens a session for the first one
 * whose password validates; `DELETE /auth_session/logout` destroys the
 * session named by the cookie. Both act on a `SessionDBAuth`.
 */
module SessionViews {
  import opened PyValues
  import opened Auth
  import opened SessionBase
  import opened SessionDb

  /** The answer of `login`: an error status with its message, or 200 with the user and the cookie to set. */
  datatype LoginResponse =
    | LoginError(status: int, error: string)
    | LoggedIn(user: User, cookieName: Option<string>, sessionId: Option<string>)

  /** What the form and the user store decide, before any session is created. */
  datatype LoginDecision = Reject(status: int, error: string) | Grant(user: User)

  /** `request.form.get(name)` is missing or empty. */
  predicate MissingField(form: map<string, string>, name: string) {
    name !in form || form[name] == ""
  }

  /** Every stored user with that email is among `found`. */
  ghost predicate EveryUserWithEmailIn(users: seq<User>, email: string, found: seq<User>) {
    forall i :: 0 <= i < |users| && users[i].email == email ==> users[i] in found
  }

  /** `User.search({"email": email})` over the stored users: those with that email, in stored order. */
  function UsersWithEmail(users: seq<User>, email: string): (r: seq<User>)
    ensures |r| <= |users|
    ensures forall j :: 0 <= j < |r| ==> r[j].email == email
    ensures r == [] <==> forall i :: 0 <= i < |users| ==> users[i].email != email
  {
    if users == [] then []
    else
      var rest := UsersWithEmail(users[1..], email);
      if users[0].email == email then [users[0]] + rest else rest
  }
  /** Nobody with that email is missed: every stored user with it is among those found. */
  lemma {:induction false} UsersWithEmailComplete(users: seq<User>, email: string)
    ensures EveryUserWithEmailIn(users, email, UsersWithEmail(users, email))
  {
    if users != [] {
      var rest := users[1..];
      UsersWithEmailComplete(rest, email);
      assert forall i :: 1 <= i < |users| ==> users[i] == rest[i - 1];
    }
  }


  /** The position of the first user whose password validates. */
  function FirstValid(found: seq<User>, pwd: string, isValidPassword: (User, string) -> bool): (r: Option<nat>)
    ensures r.Some? ==> r.value < |found| && isValidPassword(found[r.value], pwd)
                        && forall j :: 0 <= j < r.value ==> !isValidPassword(found[j], pwd)
    ensures r.None? ==> forall j :: 0 <= j < |found| ==> !isValidPassword(found[j], pwd)
  {
    if found == [] then None
    else if isValidPassword(found[0], pwd) then Some(0)
    else match FirstValid(found[1..], pwd, isValidPassword)
      case None => None
      case Some(i) => Some(i + 1)
  }

  /** The user exists and the password validates. */
  lemma FirstValidAt(found: seq<User>, pwd: string, isValidPassword: (User, string) -> bool, i: nat)
    requires i < |found| && isValidPassword(found[i], pwd)
    requires forall j :: 0 <= j < i ==> !isValidPassword(found[j], pwd)
    ensures FirstValid(found, pwd, isValidPassword) == Some(i)
  {
    var r := FirstValid(found, pwd, isValidPassword);
    assert r.Some?;
    assert !(r.value < i) && !(i < r.value);
  }

  /** No password validates. */
  lemma FirstValidNone(found: seq<User>, pwd: string, isValidPassword: (User, string) -> bool)
    requires forall j :: 0 <= j < |found| ==> !isValidPassword(found[j], pwd)
    ensures FirstValid(found, pwd, isValidPassword).None?
  {
  }

  /**
   * The decision of `login` once email and password are stripped: a search
   * that raises (`users` is None) or finds nobody is a 404, and otherwise
   * the first user found whose password validates is granted, or it is a
   * 401.
   */
  function Authenticate(email: string, pwd: string, users: Option<seq<User>>,
                        isValidPassword: (User, string) -> bool): (d: LoginDecision)
    ensures d.Reject? ==> d.status == 404 || d.status == 401
    ensures d.Grant? ==> users.Some? && d.user.email == email && isValidPassword(d.user, pwd)
  {
    if users.None? then Reject(404, "no user found for this email")
    else
      var found := UsersWithEmail(users.value, email);
      if |found| == 0 then Reject(404, "no user found for this email")
      else match FirstValid(found, pwd, isValidPassword)
        case None => Reject(401, "wrong password")
        case Some(i) => Grant(found[i])
  }

  /**
   * The decision of `login`: the email check, then the password check, on
   * the raw form values; then both are stripped and authenticated.
   */
  function LoginDecide(form: map<string, string>, users: Option<seq<User>>,
                       isValidPassword: (User, string) -> bool): (d: LoginDecision)
    ensures d == Reject(400, "email missing") <==> MissingField(form, "email")
    ensures d == Reject(400, "password missing") <==> !MissingField(form, "email") && MissingField(form, "password")
  {
    if MissingField(form, "email") then Reject(400, "email missing")
    else if MissingField(form, "password") then Reject(400, "password missing")
    else Authenticate(Strip(form["email"]), Strip(form["password"]), users, isValidPassword)
  }

  /** No stored user with that email has a password that validates. */
  ghost predicate NoneValidWithEmail(users: seq<User>, email: string, pwd: string, isValidPassword: (User, string) -> bool) {
    forall i :: 0 <= i < |users| && users[i].email == email ==> !isValidPassword(users[i], pwd)
  }

  /** User `i` has that email and a password that validates, and every user with that email before it fails. */
  ghost predicate FirstGrantable(users: seq<User>, email: string, pwd: string, isValidPassword: (User, string) -> bool, i: int) {
    0 <= i < |users| && users[i].email == email && isValidPassword(users[i], pwd)
    && forall j :: 0 <= j < i && users[j].email == email ==> !isValidPassword(users[j], pwd)
  }

  /** The password check fails for everybody found exactly when no user with that email has a password that validates. */
  lemma {:induction false} LoginRejectedCharacterised(users: seq<User>, email: string, pwd: string,
                                                     isValidPassword: (User, string) -> bool)
    ensures FirstValid(UsersWithEmail(users, email), pwd, isValidPassword).None?
            <==> NoneValidWithEmail(users, email, pwd, isValidPassword)
  {
    if users != [] {
      var rest := users[1..];
      LoginRejectedCharacterised(rest, email, pwd, isValidPassword);
      assert forall i :: 1 <= i < |users| ==> users[i] == rest[i - 1];
      if users[0].email == email {
        var found := UsersWithEmail(users, email);
        assert found[0] == users[0] && found[1..] == UsersWithEmail(rest, email);
      }
    }
  }

  /**
   * The user granted is the first stored user with that email whose
   * password validates.
   */
  lemma {:induction false} LoginGrantCharacterised(users: seq<User>, email: string, pwd: string,
                                                  isValidPassword: (User, string) -> bool)
    requires FirstValid(UsersWithEmail(users, email), pwd, isValidPassword).Some?
    ensures var found := UsersWithEmail(users, email);
            exists i :: FirstGrantable(users, email, pwd, isValidPassword, i)
                        && users[i] == found[FirstValid(found, pwd, isValidPassword).value]
  {
    var rest := users[1..];
    var found := UsersWithEmail(users, email);
    var foundRest := UsersWithEmail(rest, email);
    if users[0].email == email && isValidPassword(users[0], pwd) {
      assert found[0] == users[0] && FirstValid(found, pwd, isValidPassword) == Some(0);
      assert FirstGrantable(users, email, pwd, isValidPassword, 0);
    } else {
      assert FirstValid(found, pwd, isValidPassword).Some? ==> FirstValid(foundRest, pwd, isValidPassword).Some?
      by {
        if users[0].email == email {
          assert found[1..] == foundRest;
        }
      }
      LoginGrantCharacterised(rest, email, pwd, isValidPassword);
      GrantShift(users, email, pwd, isValidPassword);
    }
  }

  /** No stored user has that email. */
  ghost predicate NobodyWithEmail(users: seq<User>, email: string) {
    forall i :: 0 <= i < |users| ==> users[i].email != email
  }

  /**
   * The whole answer of the credential check: 404 exactly when the search
   * failed or nobody has that email, 401 exactly when somebody has it but
   * no such user's password validates, and otherwise the first stored user
   * with that email whose password validates is granted.
   */
  lemma AuthenticateCharacterised(email: string, pwd: string, users: Option<seq<User>>,
                                  isValidPassword: (User, string) -> bool)
    ensures var d := Authenticate(email, pwd, users, isValidPassword);
            d == Reject(404, "no user found for this email")
            <==> users.None? || NobodyWithEmail(users.value, email)
    ensures var d := Authenticate(email, pwd, users, isValidPassword);
            d == Reject(401, "wrong password")
            <==> users.Some? && !NobodyWithEmail(users.value, email)
                 && NoneValidWithEmail(users.value, email, pwd, isValidPassword)
    ensures var d := Authenticate(email, pwd, users, isValidPassword);
            d.Grant? ==> users.Some? && exists i :: FirstGrantable(users.value, email, pwd, isValidPassword, i)
                                                  && users.value[i] == d.user
  {
    if users.Some? {
      var found := UsersWithEmail(users.value, email);
      LoginRejectedCharacterised(users.value, email, pwd, isValidPassword);
      if found != [] && FirstValid(found, pwd, isValidPassword).Some? {
        LoginGrantCharacterised(users.value, email, pwd, isValidPassword);
      }
    }
  }

  /** The step of `LoginGrantCharacterised` where the first user is not granted. */
  lemma GrantShift(users: seq<User>, email: string, pwd: string, isValidPassword: (User, string) -> bool)
    requires users != [] && !(users[0].email == email && isValidPassword(users[0], pwd))
    requires var foundRest := UsersWithEmail(users[1..], email);
             FirstValid(foundRest, pwd, isValidPassword).Some? &&
             exists i :: FirstGrantable(users[1..], email, pwd, isValidPassword, i)
                         && users[1..][i] == foundRest[FirstValid(foundRest, pwd, isValidPassword).value]
    ensures var found := UsersWithEmail(users, email);
            FirstValid(found, pwd, isValidPassword).Some? &&
            exists i :: FirstGrantable(users, email, pwd, isValidPassword, i)
                        && users[i] == found[FirstValid(found, pwd, isValidPassword).value]
  {
    var rest := users[1..];
    var found := UsersWithEmail(users, email);
    var foundRest := UsersWithEmail(rest, email);
    var k := FirstValid(foundRest, pwd, isValidPassword).value;
    var i :| FirstGrantable(rest, email, pwd, isValidPassword, i) && rest[i] == foundRest[k];
    if users[0].email == email {
      assert found[1..] == foundRest;
      assert FirstValid(found, pwd, isValidPassword) == Some(k + 1);
    } else {
      assert found == foundRest;
    }
    assert forall j :: 1 <= j < i + 1 ==> users[j] == rest[j - 1];
    assert FirstGrantable(users, email, pwd, isValidPassword, i + 1);
  }

  /** The email is checked before the password: without an email the password is never looked at. */
  lemma EmailCheckedFirst(form: map<string, string>, users: Option<seq<User>>, isValidPassword: (User, string) -> bool)
    requires MissingField(form, "email")
    ensures LoginDecide(form, users, isValidPassword) == Reject(400, "email missing")
    ensures LoginDecide(form["password" := ""], users, isValidPassword) == Reject(400, "email missing")
  {
  }

  /**
   * Email and password are stripped before use: padding them with blanks
   * changes nothing, as long as something other than blanks remains.
   */
  lemma CredentialsStripped(form: map<string, string>, users: Option<seq<User>>,
                            isValidPassword: (User, string) -> bool, email: string, pwd: string)
    requires Strip(email) != "" && Strip(pwd) != ""
    ensures LoginDecide(form["email" := email]["password" := pwd], users, isValidPassword)
            == LoginDecide(form["email" := Strip(email)]["password" := Strip(pwd)], users, isValidPassword)
  {
    var padded := form["email" := email]["password" := pwd];
    var trimmed := form["email" := Strip(email)]["password" := Strip(pwd)];
    assert padded["email"] == email && padded["password"] == pwd;
    assert trimmed["email"] == Strip(email) && trimmed["password"] == Strip(pwd);
    StripIdempotent(email);
    StripIdempotent(pwd);
  }

  /** Stripping twice is stripping once. */
  lemma StripIdempotent(s: string)
    requires Strip(s) != ""
    ensures Strip(Strip(s)) == Strip(s)
  {
    StripTrimmed(Strip(s));
  }

  /**
   * An email made of blanks is not "missing": it passes the first check
   * and is searched for as the empty email, which no stored user has here.
   */
  lemma BlankEmailNotMissing(form: map<string, string>, users: seq<User>, isValidPassword: (User, string) -> bool)
    requires "email" in form && form["email"] != "" && forall i :: 0 <= i < |form["email"]| ==> IsSpace(form["email"][i])
    requires !MissingField(form, "password")
    requires forall i :: 0 <= i < |users| ==> users[i].email != ""
    ensures LoginDecide(form, Some(users), isValidPassword) == Reject(404, "no user found for this email")
  {
  }

  /**
   * `login()`: the decision of `LoginDecide`, with the loop over the users
   * found; for the granted user, `create_session(user.id)` is called and
   * its result is the value of the cookie named by SESSION_NAME. A rejected
   * login creates no session.
   */
  method Login(form: map<string, string>, users: Option<seq<User>>, isValidPassword: (User, string) -> bool,
               auth: SessionDBAuth, sessionName: Option<string>, freshId: string, now: int)
    returns (response: LoginResponse)
    requires auth.exp.Valid() && freshId != ""
    modifies auth.exp.base, auth.store
    ensures auth.exp.Valid()
    ensures var decision := LoginDecide(form, users, isValidPassword);
            decision.Reject? ==>
              response == LoginError(decision.status, decision.error)
              && auth.exp.base.userIdBySessionId == old(auth.exp.base.userIdBySessionId)
              && auth.store.records == old(auth.store.records)
    ensures var decision := LoginDecide(form, users, isValidPassword);
            decision.Grant? && decision.user.id != "" ==>
              response == LoggedIn(decision.user, sessionName, Some(freshId))
              && auth.exp.base.userIdBySessionId
                 == old(auth.exp.base.userIdBySessionId)[freshId := SessionDict(decision.user.id, Some(now))]
              && auth.store.records == old(auth.store.records) + [UserSession(decision.user.id, freshId, now)]
    ensures var decision := LoginDecide(form, users, isValidPassword);
            decision.Grant? && decision.user.id == "" ==>
              response == LoggedIn(decision.user, sessionName, None)
              && auth.exp.base.userIdBySessionId == old(auth.exp.base.userIdBySessionId)
              && auth.store.records == old(auth.store.records)
  {
    if MissingField(form, "email") {
      return LoginError(400, "email missing");
    }
    if MissingField(form, "password") {
      return LoginError(400, "password missing");
    }
    var decision := CheckCredentials(Strip(form["email"]), Strip(form["password"]), users, isValidPassword);
    if decision.Reject? {
      return LoginError(decision.status, decision.error);
    }
    var sessionId := auth.CreateSession(PyStr(decision.user.id), freshId, now);
    return LoggedIn(decision.user, sessionName, sessionId);
  }

  /**
   * The search and the loop of `login`: the users with the email, then
   * each in turn until one's password validates.
   */
  method CheckCredentials(email: string, pwd: string, users: Option<seq<User>>,
                          isValidPassword: (User, string) -> bool) returns (decision: LoginDecision)
    ensures decision == Authenticate(email, pwd, users, isValidPassword)
  {
    if users.None? {
      return Reject(404, "no user found for this email");
    }
    var found := UsersWithEmail(users.value, email);
    if |found| == 0 {
      return Reject(404, "no user found for this email");
    }
    var i := 0;
    while i < |found|
      invariant 0 <= i <= |found|
      invariant forall j :: 0 <= j < i ==> !isValidPassword(found[j], pwd)
    {
      var u := found[i];
      if !isValidPassword(u, pwd) {
        i := i + 1;
        continue;
      }
      FirstValidAt(found, pwd, isValidPassword, i);
      return Grant(u);
    }
    FirstValidNone(found, pwd, isValidPassword);
    return Reject(401, "wrong password");
  }

  /** `logout()`: 404 when `destroy_session` answers False, otherwise 200 with an empty body. */
  method Logout(auth: SessionDBAuth, request: Request, sessionName: Option<string>) returns (status: int)
    modifies auth.store
    ensures var key := CookieKey(Some(request), sessionName);
            status == (if !auth.store.searchRaises && FirstMatch(old(auth.store.records), key).Some? then 200 else 404)
    ensures status == 404 ==> auth.store.records == old(auth.store.records)
    ensures status == 200 ==>
              var i := FirstMatch(old(auth.store.records), CookieKey(Some(request), sessionName)).value;
              auth.store.records == old(auth.store.records)[..i] + old(auth.store.records)[i + 1..]
  {
    var destroyed := auth.DestroySession(Some(request), sessionName);
    if !destroyed {
      return 404;
    }
    return 200;
  }
}
