/**
 * `SessionDBAuth`: sessions persisted as `UserSession` records. Creation
 * writes the in-memory dictionary inherited from `SessionExpAuth` and saves
 * a record; lookup and logout consult only the record store.
 */
module SessionDb {
  import opened PyValues
  import opened SessionBase
  import opened SessionExp
  import opened Auth

  /**
   * A stored `UserSession`: who, under which session id, and when it was
   * created (whole seconds on the same clock as `now`).
   */
  datatype UserSession = UserSession(userId: string, sessionId: string, createdAt: int)

  /** `search({"session_id": key})` selects the records whose session id equals `key`. */
  predicate HasSessionId(record: UserSession, key: PyValue) {
    key.PyStr? && record.sessionId == key.s
  }

  /** The records a search for `key` returns: those with that session id, in stored order. */
  function Matching(records: seq<UserSession>, key: PyValue): (r: seq<UserSession>)
    ensures |r| <= |records|
  {
    if records == [] then []
    else
      var rest := Matching(records[1..], key);
      if HasSessionId(records[0], key) then [records[0]] + rest else rest
  }

  /** Every record found has the session id, and nothing is found exactly when no record has it. */
  lemma {:induction false} MatchingCharacterised(records: seq<UserSession>, key: PyValue)
    ensures var r := Matching(records, key);
            forall j :: 0 <= j < |r| ==> HasSessionId(r[j], key)
    ensures Matching(records, key) == [] <==> forall i :: 0 <= i < |records| ==> !HasSessionId(records[i], key)
  {
    if records != [] {
      MatchingCharacterised(records[1..], key);
      assert forall i :: 1 <= i < |records| ==> records[i] == records[1..][i - 1];
    }
  }

  /** The position of the first record with session id `key`, if any. */
  function FirstMatch(records: seq<UserSession>, key: PyValue): (r: Option<nat>)
    ensures r.Some? ==> r.value < |records| && HasSessionId(records[r.value], key)
  {
    if records == [] then None
    else if HasSessionId(records[0], key) then Some(0)
    else match FirstMatch(records[1..], key)
      case None => None
      case Some(i) => Some(i + 1)
  }

  /** The position found is the first with the session id, and there is none only when no record has it. */
  lemma {:induction false} FirstMatchCharacterised(records: seq<UserSession>, key: PyValue)
    ensures var r := FirstMatch(records, key);
            r.Some? ==> forall i :: 0 <= i < r.value ==> !HasSessionId(records[i], key)
    ensures FirstMatch(records, key).None? ==> forall i :: 0 <= i < |records| ==> !HasSessionId(records[i], key)
  {
    if records != [] && !HasSessionId(records[0], key) {
      FirstMatchCharacterised(records[1..], key);
      assert forall i :: 1 <= i < |records| ==> records[i] == records[1..][i - 1];
    }
  }

  /** `sessions[0]` is the record at the first matching position. */
  lemma {:induction false} FirstOfMatching(records: seq<UserSession>, key: PyValue)
    ensures FirstMatch(records, key).Some? <==> Matching(records, key) != []
    ensures FirstMatch(records, key).Some? ==> Matching(records, key)[0] == records[FirstMatch(records, key).value]
  {
    if records != [] && !HasSessionId(records[0], key) {
      FirstOfMatching(records[1..], key);
    }
  }

  /** One step of the search: the first record, when it matches, then the search over the rest. */
  lemma MatchingStep(records: seq<UserSession>, key: PyValue)
    requires records != []
    ensures Matching(records, key)
            == (if HasSessionId(records[0], key) then [records[0]] else []) + Matching(records[1..], key)
  {
  }

  /** A search over two runs of records is the search over the first followed by the search over the second. */
  lemma {:induction false} MatchingConcat(a: seq<UserSession>, b: seq<UserSession>, key: PyValue)
    ensures Matching(a + b, key) == Matching(a, key) + Matching(b, key)
  {
    if a == [] {
      assert a + b == b;
    } else {
      var ab := a + b;
      assert ab[0] == a[0] && ab[1..] == a[1..] + b;
      MatchingConcat(a[1..], b, key);
      MatchingStep(ab, key);
      MatchingStep(a, key);
      var head := if HasSessionId(a[0], key) then [a[0]] else [];
      AppendAssoc(head, Matching(a[1..], key), Matching(b, key));
    }
  }

  /** Saving a record extends the result of every search by that record exactly when it matches. */
  lemma MatchingAppend(records: seq<UserSession>, record: UserSession, key: PyValue)
    ensures Matching(records + [record], key)
            == Matching(records, key) + (if HasSessionId(record, key) then [record] else [])
  {
    MatchingConcat(records, [record], key);
    assert Matching([record], key) == (if HasSessionId(record, key) then [record] else []) by {
      assert [record][1..] == [];
    }
  }

  /**
   * Removing the first record a search for `key` found: the former result
   * was that record followed by what the search now returns, and a search
   * for any session id that record does not carry returns exactly what it
   * did before.
   */
  lemma MatchingRemoveFirst(records: seq<UserSession>, key: PyValue, other: PyValue)
    requires FirstMatch(records, key).Some?
    ensures var i := FirstMatch(records, key).value;
            Matching(records, key) == [records[i]] + Matching(records[..i] + records[i + 1..], key)
    ensures var i := FirstMatch(records, key).value;
            !HasSessionId(records[i], other) ==>
              Matching(records[..i] + records[i + 1..], other) == Matching(records, other)
  {
    var i := FirstMatch(records, key).value;
    var before, hit, after := records[..i], [records[i]], records[i + 1..];
    assert records == before + (hit + after);
    FirstMatchCharacterised(records, key);
    MatchingCharacterised(before, key);
    MatchingConcat(before, hit + after, key);
    MatchingConcat(hit, after, key);
    MatchingConcat(before, after, key);
    assert Matching(before, key) == [];
    assert Matching(hit, key) == hit by {
      assert hit[1..] == [];
    }
    MatchingConcat(before, hit + after, other);
    MatchingConcat(hit, after, other);
    MatchingConcat(before, after, other);
    if !HasSessionId(records[i], other) {
      assert Matching(hit, other) == [] by {
        assert hit[1..] == [];
      }
    }
  }

  /** Removing one record keeps every other record, in order. */
  lemma RemoveKeepsOthers(records: seq<UserSession>, i: nat)
    requires i < |records|
    ensures |records[..i] + records[i + 1..]| == |records| - 1
    ensures multiset(records[..i] + records[i + 1..]) + multiset{records[i]} == multiset(records)
  {
    assert records == records[..i] + [records[i]] + records[i + 1..];
  }

  // ---------------------------------------------------------------------------
  // The record store
  // ---------------------------------------------------------------------------

  /**
   * The persisted `UserSession` records. `searchRaises` stands for a store
   * whose `search` raises (for instance because its data could not be
   * loaded), which the callers catch.
   */
  class UserSessionStore {
    var records: seq<UserSession>
    const searchRaises: bool

    constructor(records: seq<UserSession>, searchRaises: bool)
      ensures this.records == records && this.searchRaises == searchRaises
    {
      this.records := records;
      this.searchRaises := searchRaises;
    }

    /** `UserSession.search({"session_id": key})`: None when it raises, else the matches in stored order. */
    function Search(key: PyValue): (r: Option<seq<UserSession>>)
      reads this
      ensures r.None? <==> searchRaises
      ensures r.Some? ==> r.value == Matching(records, key)
    {
      if searchRaises then None else Some(Matching(records, key))
    }

    /** `record.save()`: the record is appended. */
    method Save(record: UserSession)
      modifies this
      ensures records == old(records) + [record]
    {
      records := records + [record];
    }

    /** `record.remove()` for the record at position `i`: it alone is deleted. */
    method RemoveAt(i: nat)
      requires i < |records|
      modifies this
      ensures records == old(records[..i] + records[i + 1..])
    {
      records := records[..i] + records[i + 1..];
    }
  }

  // ---------------------------------------------------------------------------
  // The strategy
  // ---------------------------------------------------------------------------

  class SessionDBAuth {
    /** The inherited state of `SessionExpAuth`: the dictionary and the duration. */
    const exp: SessionExpAuth
    /** The `UserSession` records. */
    const store: UserSessionStore

    constructor(durationSetting: Option<string>, store: UserSessionStore)
      ensures fresh(exp) && fresh(exp.base) && exp.base.userIdBySessionId == map[] && exp.Valid()
      ensures exp.sessionDuration == DurationFromSetting(durationSetting) && this.store == store
    {
      exp := new SessionExpAuth(durationSetting);
      this.store := store;
    }

    /**
     * `create_session(user_id)`: the inherited creation (dictionary entry
     * with `created_at`), then one `UserSession` record for the same id is
     * saved. The record's creation time is `now`, the time of the save.
     */
    method CreateSession(userId: PyValue, freshId: string, now: int) returns (sessionId: Option<string>)
      requires exp.Valid() && freshId != ""
      modifies exp.base, store
      ensures exp.Valid()
      ensures AcceptableUserId(userId) ==>
                sessionId == Some(freshId)
                && exp.base.userIdBySessionId == old(exp.base.userIdBySessionId)[freshId := SessionDict(userId.s, Some(now))]
                && store.records == old(store.records) + [UserSession(userId.s, freshId, now)]
      ensures !AcceptableUserId(userId) ==>
                sessionId == None
                && exp.base.userIdBySessionId == old(exp.base.userIdBySessionId)
                && store.records == old(store.records)
    {
      sessionId := exp.CreateSession(userId, freshId, now);
      if sessionId.None? {
        return;
      }
      store.Save(UserSession(userId.s, sessionId.value, now));
    }

    /**
     * `user_id_for_session_id(session_id)` at time `now`: only the store is
     * read. None when the search raises or finds nothing; otherwise the
     * first record found decides: OverflowError when its expiry
     * `created_at + timedelta(seconds=duration)` leaves what `timedelta`
     * and `datetime` hold, None when the expiry is before `now`, else its
     * user id. No duration, however small, is exempt.
     */
    function UserIdForSessionId(sessionId: PyValue, now: int): (r: Outcome<Option<string>>)
      reads store
      ensures r.Raise? <==>
                !store.searchRaises && Matching(store.records, sessionId) != []
                && !ExpiryInRange(Matching(store.records, sessionId)[0].createdAt, exp.sessionDuration)
      ensures r.Raise? ==> r.error == OverflowError
      ensures r.Ok? && r.value.Some? <==>
                !store.searchRaises && Matching(store.records, sessionId) != []
                && ExpiryInRange(Matching(store.records, sessionId)[0].createdAt, exp.sessionDuration)
                && now <= Matching(store.records, sessionId)[0].createdAt + exp.sessionDuration
      ensures r.Ok? && r.value.Some? ==> r.value.value == Matching(store.records, sessionId)[0].userId
    {
      match store.Search(sessionId)
      case None => Ok(None)
      case Some(sessions) =>
        if |sessions| < 1 then Ok(None)
        else if !ExpiryInRange(sessions[0].createdAt, exp.sessionDuration) then Raise(OverflowError)
        else if sessions[0].createdAt + exp.sessionDuration < now then Ok(None)
        else Ok(Some(sessions[0].userId))
    }

    /**
     * `destroy_session(request)`: the id comes from the session cookie.
     * False when the search raises or finds nothing; otherwise the first
     * record found is removed, whether or not it has expired, and True.
     */
    method DestroySession(request: Option<Request>, sessionName: Option<string>) returns (destroyed: bool)
      modifies store
      ensures var key := CookieKey(request, sessionName);
              destroyed <==> !store.searchRaises && FirstMatch(old(store.records), key).Some?
      ensures var key := CookieKey(request, sessionName);
              destroyed ==>
                var i := FirstMatch(old(store.records), key).value;
                store.records == old(store.records)[..i] + old(store.records)[i + 1..]
      ensures !destroyed ==> store.records == old(store.records)
    {
      var key := CookieKey(request, sessionName);
      var sessions := store.Search(key);
      if sessions.None? {
        return false;
      }
      FirstOfMatching(store.records, key);
      if |sessions.value| < 1 {
        return false;
      }
      store.RemoveAt(FirstMatch(store.records, key).value);
      return true;
    }
  }

  /** The value `session_cookie` hands to `search`: the cookie's text, or None. */
  function CookieKey(request: Option<Request>, sessionName: Option<string>): (key: PyValue)
    ensures key.PyNone? <==> SessionCookie(request, sessionName).None?
    ensures key.PyStr? ==> SessionCookie(request, sessionName) == Some(key.s)
  {
    match SessionCookie(request, sessionName)
    case None => PyNone
    case Some(id) => PyStr(id)
  }

  /** No record has the session id `id`. */
  predicate Unused(records: seq<UserSession>, id: string) {
    forall i :: 0 <= i < |records| ==> records[i].sessionId != id
  }

  /**
   * A record saved under an id no other record has is the only one a
   * search for that id finds; it sits at the end, and removing it gives the
   * earlier records back.
   */
  lemma SavedAlone(before: seq<UserSession>, record: UserSession)
    requires Unused(before, record.sessionId)
    ensures var key := PyStr(record.sessionId);
            var after := before + [record];
            Matching(before, key) == [] && Matching(after, key) == [record]
            && FirstMatch(after, key) == Some(|before|)
            && after[..|before|] + after[|before| + 1..] == before
  {
    var key := PyStr(record.sessionId);
    var after := before + [record];
    MatchingCharacterised(before, key);
    MatchingAppend(before, record, key);
    FirstOfMatching(after, key);
    FirstMatchCharacterised(after, key);
    assert after[|before|] == record;
    assert after[..|before|] == before;
  }

  /**
   * A session's life through the store: created at `created`, it resolves
   * while `now <= created + duration` (and every lookup raises when that
   * expiry is out of `datetime`'s range); logging out with its cookie removes
   * it, after which it no longer resolves and the store is back to what it
   * was before.
   */
  method Lifecycle(auth: SessionDBAuth, userId: string, freshId: string, sessionName: string, created: int, later: int)
    returns (beforeLogout: Outcome<Option<string>>, destroyed: bool, afterLogout: Outcome<Option<string>>)
    requires auth.exp.Valid() && !auth.store.searchRaises && Unused(auth.store.records, freshId)
    requires userId != "" && freshId != ""
    modifies auth.exp.base, auth.store
    ensures beforeLogout == if !ExpiryInRange(created, auth.exp.sessionDuration) then Raise(OverflowError)
                            else if later <= created + auth.exp.sessionDuration then Ok(Some(userId))
                            else Ok(None)
    ensures destroyed && afterLogout == Ok(None)
    ensures auth.store.records == old(auth.store.records)
  {
    var before := auth.store.records;
    var record := UserSession(userId, freshId, created);
    SavedAlone(before, record);
    var sessionId := auth.CreateSession(PyStr(userId), freshId, created);
    assert auth.store.records == before + [record];
    beforeLogout := auth.UserIdForSessionId(PyStr(freshId), later);
    var request := Request([], map[], map[sessionName := freshId], map[]);
    assert CookieKey(Some(request), Some(sessionName)) == PyStr(freshId);
    destroyed := auth.DestroySession(Some(request), Some(sessionName));
    assert auth.store.records == before;
    afterLogout := auth.UserIdForSessionId(PyStr(freshId), later);
  }

  /**
   * Where the two strategies part: with a negative SESSION_DURATION (such
   * as "-5", see `DurationExamples`) the
   * in-memory strategy never expires a session, while the record-backed one
   * treats it as expired already at its creation time (or raises, when
   * `now + duration` falls before the earliest `datetime`).
   */
  method NegativeDuration(durationSetting: Option<string>, store: UserSessionStore, userId: string, freshId: string, now: int)
    returns (inMemory: Outcome<Option<string>>, persisted: Outcome<Option<string>>)
    requires DurationFromSetting(durationSetting) < 0
    requires !store.searchRaises && Unused(store.records, freshId)
    requires userId != "" && freshId != ""
    modifies store
    ensures inMemory == Ok(Some(userId))
    ensures persisted == if ExpiryInRange(now, DurationFromSetting(durationSetting)) then Ok(None)
                         else Raise(OverflowError)
  {
    var auth := new SessionDBAuth(durationSetting, store);
    SavedAlone(store.records, UserSession(userId, freshId, now));
    var sessionId := auth.CreateSession(PyStr(userId), freshId, now);
    inMemory := auth.exp.UserIdForSessionId(PyStr(freshId), now);
    persisted := auth.UserIdForSessionId(PyStr(freshId), now);
  }
}
