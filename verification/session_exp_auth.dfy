/**
 * `SessionExpAuth`: sessions that expire `session_duration` seconds after
 * they were created. Expiry is lazy: an expired entry stays in the
 * dictionary and is only treated as absent when looked up. The clock is
 * the `now` parameter, in whole seconds since 0001-01-01 00:00:00 (the
 * earliest `datetime`), so `created_at + timedelta(seconds=d)` is integer
 * addition, except that it raises OverflowError when `timedelta` or the
 * sum leaves the range Python gives them.
 */
module SessionExp {
  import opened PyValues
  import opened SessionBase

  // ---------------------------------------------------------------------------
  // `int(text)` for the SESSION_DURATION setting
  // ---------------------------------------------------------------------------

  predicate IsDigit(c: char) {
    '0' <= c <= '9'
  }

  /** Python's grammar for the digits of a base-10 literal: digits, with single underscores between digits. */
  predicate WellFormedMagnitude(m: string) {
    m != [] && IsDigit(m[0]) && IsDigit(m[|m| - 1])
    && forall i :: 0 <= i < |m| ==> IsDigit(m[i]) || (m[i] == '_' && i + 1 < |m| && IsDigit(m[i + 1]))
  }

  /** The value of a digit string, underscores skipped. */
  function MagnitudeValue(m: string): nat {
    if m == [] then 0
    else if IsDigit(m[|m| - 1]) then 10 * MagnitudeValue(m[..|m| - 1]) + (m[|m| - 1] as int - '0' as int)
    else MagnitudeValue(m[..|m| - 1])
  }

  /** The text after one optional leading sign. */
  function Unsigned(t: string): string
    requires t != []
  {
    if t[0] == '-' || t[0] == '+' then t[1..] else t
  }

  /** One optional sign, then a well-formed magnitude. */
  predicate SignedLiteral(t: string) {
    t != [] && WellFormedMagnitude(Unsigned(t))
  }

  /** An optional sign, then a well-formed magnitude; None for anything else. */
  function ParseSigned(t: string): Option<int> {
    if t == [] then None
    else
      var magnitude := Unsigned(t);
      if !WellFormedMagnitude(magnitude) then None
      else
        var value: int := MagnitudeValue(magnitude);
        if t[0] == '-' then Some(-value) else Some(value)
  }

  /**
   * `int(text)`: surrounding whitespace is ignored, then one optional sign
   * and a well-formed magnitude; None stands for the ValueError of anything
   * else.
   */
  function ParseInt(text: string): Option<int> {
    ParseSigned(Strip(text))
  }

  /**
   * What `int` accepts: after stripping, one optional sign and a
   * well-formed magnitude; a leading minus gives a value that is not
   * positive, no minus a value that is not negative.
   */
  lemma ParseIntAccepts(text: string)
    ensures ParseInt(text).Some? <==> SignedLiteral(Strip(text))
    ensures ParseInt(text).Some? && Strip(text)[0] == '-' ==> ParseInt(text).value <= 0
    ensures ParseInt(text).Some? && Strip(text)[0] != '-' ==> ParseInt(text).value >= 0
  {
  }

  /** Python's `str(n)` for a natural number. */
  function NatToString(n: nat): (s: string)
    ensures s != [] && forall i :: 0 <= i < |s| ==> IsDigit(s[i])
  {
    if n < 10 then ['0' + n as char]
    else NatToString(n / 10) + ['0' + (n % 10) as char]
  }

  /** Python's `str(n)`. */
  function IntToString(n: int): (s: string)
    ensures |s| >= (if n < 0 then 2 else 1)
    ensures s[0] == '-' <==> n < 0
    ensures forall i :: (if n < 0 then 1 else 0) <= i < |s| ==> IsDigit(s[i])
  {
    if n < 0 then "-" + NatToString(-n) else NatToString(n)
  }

  lemma {:induction false} NatToStringValue(n: nat)
    ensures MagnitudeValue(NatToString(n)) == n
  {
    if n >= 10 {
      var s := NatToString(n);
      assert s[..|s| - 1] == NatToString(n / 10);
      NatToStringValue(n / 10);
    }
  }

  /** A non-empty run of digits is a well-formed magnitude, unsigned or after a minus sign. */
  lemma ParseSignedDigits(digits: string)
    requires digits != [] && forall i :: 0 <= i < |digits| ==> IsDigit(digits[i])
    ensures ParseSigned(digits) == Some(MagnitudeValue(digits))
    ensures ParseSigned("-" + digits) == Some(-(MagnitudeValue(digits) as int))
  {
    DigitsWellFormed(digits);
    assert ("-" + digits)[1..] == digits && ("-" + digits)[0] == '-';
    assert digits[0] != '-' && digits[0] != '+';
  }

  /** A non-empty run of digits is a well-formed magnitude. */
  lemma DigitsWellFormed(digits: string)
    requires digits != [] && forall i :: 0 <= i < |digits| ==> IsDigit(digits[i])
    ensures WellFormedMagnitude(digits)
  {
  }

  /** `str(n)` has no surrounding whitespace. */
  lemma IntToStringTrimmed(n: int)
    ensures Strip(IntToString(n)) == IntToString(n)
  {
    var text := IntToString(n);
    var digits := NatToString(if n < 0 then -n else n);
    assert !IsSpace(text[0]) by {
      assert text[0] == '-' || IsDigit(text[0]);
    }
    assert !IsSpace(text[|text| - 1]) by {
      assert text[|text| - 1] == digits[|digits| - 1];
    }
    StripTrimmed(text);
  }

  /** `int(str(n)) == n`: a setting written by `str` is read back exactly. */
  lemma ParseIntRoundTrip(n: int)
    ensures ParseInt(IntToString(n)) == Some(n)
  {
    var m := if n < 0 then -n else n;
    NatToStringValue(m);
    IntToStringTrimmed(n);
    ParseSignedDigits(NatToString(m));
  }

  /** `int(getenv("SESSION_DURATION", "0"))`, with 0 when the text does not parse. */
  function DurationFromSetting(setting: Option<string>): (duration: int)
    ensures setting.None? ==> duration == 0
    ensures setting.Some? && ParseInt(setting.value).None? ==> duration == 0
    ensures setting.Some? && ParseInt(setting.value).Some? ==> duration == ParseInt(setting.value).value
  {
    match setting
    case None => 0
    case Some(text) =>
      match ParseInt(text)
      case Some(v) => v
      case None => 0
  }

  /** An unset SESSION_DURATION reads as its default text `"0"`. */
  lemma DefaultDuration()
    ensures DurationFromSetting(None) == DurationFromSetting(Some("0")) == 0
  {
    ParseIntRoundTrip(0);
  }


  /** Underscores between digits are skipped: `"1_000"` is one thousand. */
  lemma ParseSignedUnderscored()
    ensures ParseSigned("1_000") == Some(1000)
  {
    assert WellFormedMagnitude("1_000");
    assert MagnitudeValue("1_000") == 1000 by {
      assert "1_000"[..4] == "1_00" && "1_00"[..3] == "1_0" && "1_0"[..2] == "1_" && "1_"[..1] == "1";
    }
  }

  /** Surrounding blanks are ignored and underscores skipped: `int(" 1_000 ") == 1000`. */
  lemma ParseIntUnderscored()
    ensures ParseInt(" 1_000 ") == Some(1000)
  {
    assert Strip(" 1_000 ") == "1_000" by {
      assert " " + "1_000" + " " == " 1_000 ";
      StripPadded("1_000");
    }
    ParseSignedUnderscored();
  }

  /** A word is not a number: `int("ten")` raises. */
  lemma ParseIntWord()
    ensures ParseInt("ten") == None
  {
    StripTrimmed("ten");
    assert !WellFormedMagnitude("ten") by {
      assert !IsDigit("ten"[0]);
    }
  }

  /** `int("60") == 60`, read back from what `str` writes. */
  lemma ParseIntSixty()
    ensures ParseInt("60") == Some(60)
  {
    assert IntToString(60) == "60" by {
      assert NatToString(6) == "6";
    }
    ParseIntRoundTrip(60);
  }

  /** `int("-5") == -5`, read back from what `str` writes. */
  lemma ParseIntMinusFive()
    ensures ParseInt("-5") == Some(-5)
  {
    StripTrimmed("-5");
    ParseSignedDigits("5");
    assert "-" + "5" == "-5";
  }

  /** A store with an empty dictionary is valid. */
  lemma EmptyValid(auth: SessionExpAuth)
    requires auth.base.userIdBySessionId == map[]
    ensures auth.Valid()
  {
  }

  /** Some settings and the duration each gives: plain, with underscores and blanks, negative, and two that do not parse. */
  lemma DurationExamples()
    ensures DurationFromSetting(Some("60")) == 60
    ensures DurationFromSetting(Some(" 1_000 ")) == 1000
    ensures DurationFromSetting(Some("-5")) == -5
    ensures DurationFromSetting(Some("ten")) == 0
    ensures DurationFromSetting(Some("")) == 0
  {
    ParseIntSixty();
    ParseIntMinusFive();
    ParseIntUnderscored();
    ParseIntWord();
  }

  // ---------------------------------------------------------------------------
  // The clock
  // ---------------------------------------------------------------------------

  /** The last whole second a `datetime` can hold, 9999-12-31 23:59:59, counted from 0001-01-01 00:00:00. */
  const MAX_DATETIME_SECOND: int := 315537897599

  /** A `timedelta` holds at most 999999999 days either way. */
  const MAX_TIMEDELTA_DAYS: int := 999999999

  /** `timedelta(seconds=d)` does not raise: its days, `d // 86400`, stay within the bound. */
  predicate TimedeltaFits(seconds: int) {
    -MAX_TIMEDELTA_DAYS <= seconds / 86400 <= MAX_TIMEDELTA_DAYS
  }

  /** A time a `datetime` can hold. */
  predicate InDatetimeRange(t: int) {
    0 <= t <= MAX_DATETIME_SECOND
  }

  /** `created_at + timedelta(seconds=duration)` is computed without OverflowError. */
  predicate ExpiryInRange(createdAt: int, duration: int) {
    TimedeltaFits(duration) && InDatetimeRange(createdAt + duration)
  }

  // ---------------------------------------------------------------------------
  // The expiring session store
  // ---------------------------------------------------------------------------

  class SessionExpAuth {
    /** The dictionary inherited from `SessionAuth`. */
    const base: SessionAuth
    /** `session_duration`, fixed at construction. */
    const sessionDuration: int

    /** Every entry was written by `create_session` of this class, so it is a dictionary. */
    ghost predicate Valid()
      reads base
    {
      forall id :: id in base.userIdBySessionId ==> base.userIdBySessionId[id].SessionDict?
    }

    /** `__init__`: `durationSetting` is the SESSION_DURATION setting, None when unset. */
    constructor(durationSetting: Option<string>)
      ensures fresh(base) && base.userIdBySessionId == map[] && Valid()
      ensures sessionDuration == DurationFromSetting(durationSetting)
    {
      var duration := DurationFromSetting(durationSetting);
      base := new SessionAuth();
      sessionDuration := duration;
      new;
      EmptyValid(this);
    }

    /**
     * `create_session(user_id)`: the parent's checks and fresh id, then the
     * entry for that id is replaced by `{user_id, created_at: now}`.
     */
    method CreateSession(userId: PyValue, freshId: string, now: int) returns (sessionId: Option<string>)
      requires Valid() && freshId != ""
      modifies base
      ensures Valid()
      ensures AcceptableUserId(userId) ==>
                sessionId == Some(freshId)
                && base.userIdBySessionId == old(base.userIdBySessionId)[freshId := SessionDict(userId.s, Some(now))]
      ensures !AcceptableUserId(userId) ==>
                sessionId == None && base.userIdBySessionId == old(base.userIdBySessionId)
    {
      sessionId := base.CreateSession(userId, freshId);
      if sessionId.None? {
        return;
      }
      base.userIdBySessionId := base.userIdBySessionId[sessionId.value := SessionDict(userId.s, Some(now))];
    }

    /**
     * `user_id_for_session_id(session_id)` at time `now`: the stored user id
     * when the id is present and either sessions never expire
     * (duration <= 0) or the entry has a creation time and `now` is not
     * past `created_at + duration`; None otherwise. With a positive
     * duration and a creation time, an expiry outside what `timedelta` and
     * `datetime` hold raises OverflowError. It only reads.
     */
    function UserIdForSessionId(sessionId: PyValue, now: int): (r: Outcome<Option<string>>)
      requires Valid()
      reads base
      ensures r.Raise? <==>
                sessionId.PyStr? && sessionId.s in base.userIdBySessionId && sessionDuration > 0
                && base.userIdBySessionId[sessionId.s].createdAt.Some?
                && !ExpiryInRange(base.userIdBySessionId[sessionId.s].createdAt.value, sessionDuration)
      ensures r.Raise? ==> r.error == OverflowError
      ensures r.Ok? && r.value.Some? <==>
                sessionId.PyStr? && sessionId.s in base.userIdBySessionId
                && (sessionDuration <= 0
                    || (base.userIdBySessionId[sessionId.s].createdAt.Some?
                        && ExpiryInRange(base.userIdBySessionId[sessionId.s].createdAt.value, sessionDuration)
                        && now <= base.userIdBySessionId[sessionId.s].createdAt.value + sessionDuration))
      ensures r.Ok? && r.value.Some? ==> r.value.value == base.userIdBySessionId[sessionId.s].userId
    {
      if !sessionId.PyStr? || sessionId.s !in base.userIdBySessionId then Ok(None)
      else
        var entry := base.userIdBySessionId[sessionId.s];
        if sessionDuration <= 0 then Ok(Some(entry.userId))
        else if entry.createdAt.None? then Ok(None)
        else if !ExpiryInRange(entry.createdAt.value, sessionDuration) then Raise(OverflowError)
        else if entry.createdAt.value + sessionDuration < now then Ok(None)
        else Ok(Some(entry.userId))
    }
  }

  /**
   * The expiry scenario: a session resolves at its creation time, and at a
   * later time exactly while the duration has not elapsed (or always, when
   * the duration is not positive); a positive duration whose expiry leaves
   * the range of `datetime` makes every lookup raise.
   */
  method ExpiryScenario(durationSetting: Option<string>, userId: string, freshId: string, created: int, later: int)
    returns (atCreation: Outcome<Option<string>>, atLater: Outcome<Option<string>>)
    requires userId != "" && freshId != ""
    ensures var d := DurationFromSetting(durationSetting);
            atCreation == if d > 0 && !ExpiryInRange(created, d) then Raise(OverflowError) else Ok(Some(userId))
    ensures var d := DurationFromSetting(durationSetting);
            atLater == if d <= 0 then Ok(Some(userId))
                       else if !ExpiryInRange(created, d) then Raise(OverflowError)
                       else if later <= created + d then Ok(Some(userId))
                       else Ok(None)
  {
    var auth := new SessionExpAuth(durationSetting);
    var sessionId := auth.CreateSession(PyStr(userId), freshId, created);
    atCreation := auth.UserIdForSessionId(PyStr(sessionId.value), created);
    atLater := auth.UserIdForSessionId(PyStr(sessionId.value), later);
  }
}
