/**
 * The in-memory session dictionary of `SessionAuth`, as its unit tests fix
 * it: `create_session` maps a fresh id to a non-empty string user id and
 * refuses anything else; `user_id_for_session_id` reads the dictionary.
 */
module SessionBase {
  import opened PyValues

  /**
   * A value of the session dictionary: the bare user id `SessionAuth`
   * stores, or the dictionary `SessionExpAuth` replaces it with
   * (`{"user_id": ..., "created_at": ...}`, where `created_at` may be absent).
   */
  datatype Stored = UserIdOnly(userId: string) | SessionDict(userId: string, createdAt: Option<int>)

  /** A user id `create_session` accepts: a non-empty string. */
  predicate AcceptableUserId(userId: PyValue) {
    userId.PyStr? && userId.s != ""
  }

  class SessionAuth {
    /** `user_id_by_session_id`. */
    var userIdBySessionId: map<string, Stored>

    constructor()
      ensures userIdBySessionId == map[]
    {
      userIdBySessionId := map[];
    }

    /**
     * `create_session(user_id)`. `freshId` is the value of the random id
     * generator (a uuid4 string, so never empty). None, a non-string or the
     * empty string give None and leave the dictionary alone.
     */
    method CreateSession(userId: PyValue, freshId: string) returns (sessionId: Option<string>)
      requires freshId != ""
      modifies this
      ensures AcceptableUserId(userId) ==>
                sessionId == Some(freshId)
                && userIdBySessionId == old(userIdBySessionId)[freshId := UserIdOnly(userId.s)]
      ensures !AcceptableUserId(userId) ==>
                sessionId == None && userIdBySessionId == old(userIdBySessionId)
    {
      if !AcceptableUserId(userId) {
        return None;
      }
      userIdBySessionId := userIdBySessionId[freshId := UserIdOnly(userId.s)];
      return Some(freshId);
    }

    /** `user_id_for_session_id(session_id)`: what the dictionary holds for a non-empty string id, else None. */
    function UserIdForSessionId(sessionId: PyValue): (r: Option<Stored>)
      reads this
      ensures r.Some? <==> AcceptableUserId(sessionId) && sessionId.s in userIdBySessionId
      ensures r.Some? ==> r.value == userIdBySessionId[sessionId.s]
    {
      if AcceptableUserId(sessionId) && sessionId.s in userIdBySessionId then
        Some(userIdBySessionId[sessionId.s])
      else
        None
    }
  }

  /** test_session_auth.py: a session created for a valid user id resolves back to that user id. */
  method CreateThenLookup(userId: string, freshId: string) returns (found: Option<Stored>)
    requires userId != "" && freshId != ""
    ensures found == Some(UserIdOnly(userId))
  {
    var auth := new SessionAuth();
    var sessionId := auth.CreateSession(PyStr(userId), freshId);
    found := auth.UserIdForSessionId(PyStr(sessionId.value));
  }

  /** test_session_auth.py: two sessions for one user, under distinct ids, both stay mapped to that user. */
  method CreateTwiceKeepsBoth(userId: string, firstId: string, secondId: string)
    returns (first: Option<Stored>, second: Option<Stored>)
    requires userId != "" && firstId != "" && secondId != "" && firstId != secondId
    ensures first == Some(UserIdOnly(userId)) && second == Some(UserIdOnly(userId))
  {
    var auth := new SessionAuth();
    var s1 := auth.CreateSession(PyStr(userId), firstId);
    var s2 := auth.CreateSession(PyStr(userId), secondId);
    first := auth.UserIdForSessionId(PyStr(s1.value));
    second := auth.UserIdForSessionId(PyStr(s2.value));
  }

  /** test_session_auth.py: None, a non-string and the empty string are refused, and no session is recorded. */
  method RefusedUserIds(freshId: string) returns (none: Option<string>, number: Option<string>, empty: Option<string>)
    requires freshId != ""
    ensures none == None && number == None && empty == None
  {
    var auth := new SessionAuth();
    none := auth.CreateSession(PyNone, freshId);
    number := auth.CreateSession(PyInt(100), freshId);
    empty := auth.CreateSession(PyStr(""), freshId);
  }
}
