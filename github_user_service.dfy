/**
 * The cache-aside, rate-limit-gated user lookup
 * (src/services/github_user_service.rs).
 */
module Services {
  import opened Wrappers
  import opened Numeric
  import Models
  import opened Entities
  import opened GithubUserMapper
  import opened Repositories

  // ---------------------------------------------------------------------------
  // Response headers and `get_int`
  // ---------------------------------------------------------------------------

  /** Response headers by lower-case name, each with its raw value bytes. */
  type HeaderMap = map<string, seq<Byte>>

  const REMAINING_HEADER: string := "x-ratelimit-remaining"
  const RESET_HEADER: string := "x-ratelimit-reset"
  const RETRY_AFTER_HEADER: string := "retry-after"

  /** The bytes `HeaderValue::to_str` accepts: visible ASCII and horizontal tab. */
  predicate IsVisibleAscii(b: Byte)
  {
    (32 <= b < 127) || b == 9
  }

  /** `HeaderValue::to_str`: the value as text when every byte is visible ASCII. */
  function ToStr(value: seq<Byte>): (r: Option<string>)
    ensures r.Some? <==> forall i :: 0 <= i < |value| ==> IsVisibleAscii(value[i])
    ensures r.Some? ==> |r.value| == |value| && forall i :: 0 <= i < |value| ==> r.value[i] as int == value[i]
  {
    if forall i :: 0 <= i < |value| ==> IsVisibleAscii(value[i])
    then Some(seq(|value|, i requires 0 <= i < |value| => value[i] as char))
    else None
  }

  /** The bytes of an ASCII text. */
  function AsciiBytes(s: string): (r: seq<Byte>)
    requires forall i :: 0 <= i < |s| ==> s[i] as int < 256
    ensures |r| == |s|
  {
    seq(|s|, i requires 0 <= i < |s| => s[i] as int)
  }

  predicate IsDigit(c: char) { '0' <= c <= '9' }

  predicate AllDigits(s: string) { forall i :: 0 <= i < |s| ==> IsDigit(s[i]) }

  /** The value of a run of decimal digits, most significant first. */
  function DigitsValue(ds: string): nat
    requires AllDigits(ds)
  {
    if ds == [] then 0
    else DigitsValue(ds[..|ds| - 1]) * 10 + (ds[|ds| - 1] as int - '0' as int)
  }

  /**
   * `str::parse::<i64>`: an optional `+` or `-`, then one or more decimal
   * digits, and a value that fits in 64 bits; anything else is an error.
   */
  function ParseI64(s: string): (r: Option<Int64>)
    ensures s == [] ==> r.None?
    ensures (s == "+" || s == "-") ==> r.None?
    ensures r.Some? ==> IsDigit(s[0]) || s[0] == '+' || s[0] == '-'
    ensures r.Some? ==> forall i :: 1 <= i < |s| ==> IsDigit(s[i])
  {
    if s == [] then None
    else
      var negative := s[0] == '-';
      var digits := if s[0] == '-' || s[0] == '+' then s[1..] else s;
      if digits == [] || !AllDigits(digits) then None
      else
        var magnitude: int := DigitsValue(digits);
        var v := if negative then -magnitude else magnitude;
        if InI64(v) then Some(v) else None
  }

  /**
   * `get_int`: the header's value as an `i64`, or 0 when the header is
   * absent, is not visible ASCII, or does not parse. It never fails.
   */
  function GetInt(headers: HeaderMap, key: string): (r: Int64)
    ensures key !in headers ==> r == 0
    ensures key in headers && ToStr(headers[key]).None? ==> r == 0
    ensures key in headers && ToStr(headers[key]).Some? && ParseI64(ToStr(headers[key]).value).None? ==> r == 0
    ensures key in headers && ToStr(headers[key]).Some? && ParseI64(ToStr(headers[key]).value).Some? ==>
      r == ParseI64(ToStr(headers[key]).value).value
    ensures r != 0 ==> key in headers && ToStr(headers[key]).Some? && ParseI64(ToStr(headers[key]).value) == Some(r)
  {
    if key !in headers then 0
    else
      match ToStr(headers[key])
      case None => 0
      case Some(text) =>
        match ParseI64(text)
        case Some(v) => v
        case None => 0
  }

  /** The digit character for 0..9. */
  function DigitChar(d: nat): (c: char)
    requires d < 10
    ensures IsDigit(c) && c as int - '0' as int == d
  {
    ('0' as int + d) as char
  }

  /** Decimal text of a natural number, without leading zeros. */
  function NatText(m: nat): string
  {
    if m < 10 then [DigitChar(m)] else NatText(m / 10) + [DigitChar(m % 10)]
  }

  /** Decimal text of an integer: `-` before the digits of a negative one. */
  function DecimalText(n: int): string
  {
    if n < 0 then "-" + NatText(-n) else NatText(n)
  }

  lemma {:induction false} NatTextValue(m: nat)
    ensures NatText(m) != [] && AllDigits(NatText(m))
    ensures DigitsValue(NatText(m)) == m
  {
    if m >= 10 {
      NatTextValue(m / 10);
      var t := NatText(m);
      assert t[..|t| - 1] == NatText(m / 10);
    }
  }

  /** Parsing the decimal text of any 64-bit integer gives that integer back. */
  lemma ParseDecimalText(n: int)
    requires InI64(n)
    ensures ParseI64(DecimalText(n)) == Some(n)
  {
    assert Zeros(0) == [];
    if n < 0 {
      ParseSignedText("-", 0, -n);
      assert "-" + Zeros(0) == "-";
    } else {
      ParseSignedText("", 0, n);
      assert "" + Zeros(0) + NatText(n) == NatText(n) == DecimalText(n);
    }
  }

  /** `k` zeros. */
  function Zeros(k: nat): (z: string)
    ensures |z| == k && AllDigits(z)
  {
    seq(k, _ => '0')
  }

  lemma {:induction false} ZerosValue(k: nat)
    ensures DigitsValue(Zeros(k)) == 0
  {
    if k > 0 {
      assert Zeros(k)[..k - 1] == Zeros(k - 1);
      ZerosValue(k - 1);
    }
  }

  /** Leading zeros do not change the value of a run of digits. */
  lemma {:induction false} LeadingZerosValue(k: nat, t: string)
    requires AllDigits(t)
    ensures AllDigits(Zeros(k) + t) && DigitsValue(Zeros(k) + t) == DigitsValue(t)
  {
    if t == [] {
      assert Zeros(k) + t == Zeros(k);
      ZerosValue(k);
    } else {
      var init := t[..|t| - 1];
      LeadingZerosValue(k, init);
      var whole := Zeros(k) + t;
      assert whole[..|whole| - 1] == Zeros(k) + init;
      assert whole[|whole| - 1] == t[|t| - 1];
    }
  }

  lemma NatTextAppend(q: nat, d: nat)
    requires 0 < q && d < 10
    ensures NatText(q * 10 + d) == NatText(q) + [DigitChar(d)]
  {
    var m := q * 10 + d;
    assert m / 10 == q && m % 10 == d;
  }

  /** Every run of digits is some leading zeros followed by the decimal text of its value. */
  lemma {:induction false} DigitsShape(ds: string) returns (k: nat)
    requires ds != [] && AllDigits(ds)
    ensures ds == Zeros(k) + NatText(DigitsValue(ds))
  {
    var init, d := ds[..|ds| - 1], ds[|ds| - 1];
    var dv := d as int - '0' as int;
    assert ds == init + [d];
    assert DigitChar(dv) == d;
    assert DigitsValue(ds) == DigitsValue(init) * 10 + dv;
    if init == [] {
      k := 0;
      assert ds == Zeros(0) + NatText(dv);
    } else {
      var j := DigitsShape(init);
      var q := DigitsValue(init);
      if q == 0 {
        k := j + 1;
        assert NatText(0) == ['0'];
        assert Zeros(j) + ['0'] == Zeros(k);
        assert NatText(dv) == [d];
        assert ds == Zeros(k) + NatText(dv);
      } else {
        k := j;
        NatTextAppend(q, dv);
        assert ds == Zeros(k) + (NatText(q) + [d]);
      }
    }
  }

  /** What an accepted string consists of: an optional sign, then digits whose value is the result's magnitude. */
  lemma ParseI64Accepted(s: string) returns (digits: string)
    requires ParseI64(s).Some?
    ensures digits == (if s[0] == '-' || s[0] == '+' then s[1..] else s)
    ensures digits != [] && AllDigits(digits)
    ensures ParseI64(s).value == if s[0] == '-' then -(DigitsValue(digits) as int) else DigitsValue(digits)
  {
    digits := if s[0] == '-' || s[0] == '+' then s[1..] else s;
  }

  /**
   * Every string `parse::<i64>` accepts is the decimal text of its value,
   * with an optional `+` (or `-` for a value of at most 0) and leading zeros.
   */
  lemma ParsedTextShape(s: string, v: int)
    requires ParseI64(s) == Some(v)
    ensures exists k: nat ::
      || (0 <= v && (s == Zeros(k) + NatText(v) || s == "+" + Zeros(k) + NatText(v)))
      || (v <= 0 && s == "-" + Zeros(k) + NatText(-v))
  {
    var digits := ParseI64Accepted(s);
    var m: int := DigitsValue(digits);
    var k := DigitsShape(digits);
    if s[0] == '-' {
      assert v == -m;
      assert s == "-" + (Zeros(k) + NatText(-v));
    } else if s[0] == '+' {
      assert v == m;
      assert s == "+" + (Zeros(k) + NatText(v));
    } else {
      assert v == m;
      assert s == Zeros(k) + NatText(v);
    }
  }

  /**
   * Conversely, an optional sign, leading zeros and the decimal text of a
   * number parse to that number (negated after `-`) when it fits in 64 bits.
   */
  lemma ParseSignedText(sign: string, k: nat, m: nat)
    requires sign == "" || sign == "+" || sign == "-"
    requires InI64(if sign == "-" then -(m as int) else m)
    ensures ParseI64(sign + Zeros(k) + NatText(m)) == Some(if sign == "-" then -(m as int) else m)
  {
    NatTextValue(m);
    LeadingZerosValue(k, NatText(m));
    var body := Zeros(k) + NatText(m);
    var s := sign + body;
    assert s == sign + Zeros(k) + NatText(m);
    assert IsDigit(body[0]);
    if sign == "" {
      assert s == body;
    } else {
      assert s[0] == sign[0] && s[1..] == body;
      assert s[0] == '-' || s[0] == '+';
    }
  }

  /** The decimal text of an integer is ASCII: a `-` and digits. */
  lemma DecimalTextIsAscii(n: int)
    ensures forall i :: 0 <= i < |DecimalText(n)| ==> DecimalText(n)[i] == '-' || IsDigit(DecimalText(n)[i])
  {
    NatTextValue(if n < 0 then -n else n);
  }

  /** The bytes of the decimal text of `n`, as a header carries them. */
  function DecimalBytes(n: int): (r: seq<Byte>)
    ensures |r| == |DecimalText(n)|
  {
    DecimalTextIsAscii(n);
    AsciiBytes(DecimalText(n))
  }

  /** A header holding the decimal text of a 64-bit integer is read as that integer. */
  lemma GetIntOfDecimalHeader(headers: HeaderMap, key: string, n: int)
    requires InI64(n)
    requires key in headers && headers[key] == DecimalBytes(n)
    ensures GetInt(headers, key) == n
  {
    var text := DecimalText(n);
    DecimalTextIsAscii(n);
    assert ToStr(headers[key]).Some?;
    assert ToStr(headers[key]).value == text;
    ParseDecimalText(n);
  }

  // ---------------------------------------------------------------------------
  // Rate-limit state and the refresh protocol
  // ---------------------------------------------------------------------------

  /** The three shared counters: requests left, window reset time, retry-after deadline. */
  datatype RateLimits = RateLimits(remaining: int, reset: int, retryAfter: int)

  /** The four `Err` strings of the service, by cause. */
  datatype ServiceError =
    | SecondaryRateLimit   // "Reached the secondary rate limit!"
    | RequestLimit         // "Reached the request limit!"
    | UpstreamFailure      // "Failed to get response!"
    | UpsertFailure        // "Failed to upsert user!"

  /**
   * The upstream answer to `GET /users/{username}`: whether the status is a
   * success, its headers, and the user its body decodes to.
   */
  datatype Response = Response(success: bool, headers: HeaderMap, user: Models.GithubUser)

  /** Whether the INSERT and the UPDATE statements of one upsert hit an engine failure. */
  datatype StoreFaults = StoreFaults(insertFails: bool, updateFails: bool)

  /** What one call does: its result, the counters, the table, and whether it went upstream. */
  datatype Outcome = Outcome(
    result: Result<Option<Models.GithubUser>, ServiceError>,
    limits: RateLimits,
    rows: seq<GithubUser>,
    requested: bool)

  /**
   * The two gates, in order: an unexpired retry-after deadline, then an
   * exhausted quota whose window has not reset.
   */
  function Gate(limits: RateLimits, now: int): (g: Option<ServiceError>)
    ensures limits.retryAfter > now ==> g == Some(SecondaryRateLimit)
    ensures limits.retryAfter <= now && limits.remaining == 0 && limits.reset > now ==> g == Some(RequestLimit)
    ensures g.None? <==> limits.retryAfter <= now && (limits.remaining != 0 || limits.reset <= now)
  {
    if limits.retryAfter > now then Some(SecondaryRateLimit)
    else if limits.remaining == 0 && limits.reset > now then Some(RequestLimit)
    else None
  }

  /** The counters after any upstream response: two headers as read, the third added to `now`. */
  function LimitsAfter(headers: HeaderMap, now: int): (l: RateLimits)
    ensures l.remaining == GetInt(headers, REMAINING_HEADER)
    ensures l.reset == GetInt(headers, RESET_HEADER)
    ensures l.retryAfter == now + GetInt(headers, RETRY_AFTER_HEADER)
  {
    RateLimits(
      GetInt(headers, REMAINING_HEADER),
      GetInt(headers, RESET_HEADER),
      now + GetInt(headers, RETRY_AFTER_HEADER))
  }

  /**
   * `update_user`: gate, request, counter update from the headers whatever
   * the status, then on success an upsert of the mapped user.
   */
  function Refresh(limits: RateLimits, rows: seq<GithubUser>, now: int, response: Response,
                   expiration: int, faults: StoreFaults): (o: Outcome)
    ensures Gate(limits, now).Some? ==> o == Outcome(Err(Gate(limits, now).value), limits, rows, false)
    ensures Gate(limits, now).None? ==> o.requested && o.limits == LimitsAfter(response.headers, now)
    ensures Gate(limits, now).None? && !response.success ==> o.result == Err(UpstreamFailure) && o.rows == rows
    ensures Gate(limits, now).None? && response.success ==>
      var w := UpsertRows(rows, ToEntity(response.user, expiration), faults.insertFails, faults.updateFails);
      && o.rows == w.rows
      && (w.result.Ok? ==> o.result == Ok(Some(response.user)))
      && (w.result.Err? ==> o.result == Err(UpsertFailure))
  {
    match Gate(limits, now)
    case Some(e) => Outcome(Err(e), limits, rows, false)
    case None =>
      var limits' := LimitsAfter(response.headers, now);
      if !response.success then Outcome(Err(UpstreamFailure), limits', rows, true)
      else
        var w := UpsertRows(rows, ToEntity(response.user, expiration), faults.insertFails, faults.updateFails);
        match w.result
        case Ok(_) => Outcome(Ok(Some(response.user)), limits', w.rows, true)
        case Err(_) => Outcome(Err(UpsertFailure), limits', w.rows, true)
  }

  /** The stored row for `username` is present and `now` is before its expiry. */
  predicate IsFresh(rows: seq<GithubUser>, username: string, now: int)
  {
    var stored := SelectFirst(rows, ByUsername(username));
    stored.Some? && now < stored.value.expiration
  }

  /**
   * `get_by_username`: serve a fresh stored row; otherwise (no row, or
   * `now` at or past its expiry) refresh.
   */
  function Lookup(limits: RateLimits, rows: seq<GithubUser>, username: string, now: int,
                  response: Response, expiration: int, faults: StoreFaults): (o: Outcome)
    ensures IsFresh(rows, username, now) ==>
      o == Outcome(Ok(Some(ToModel(SelectFirst(rows, ByUsername(username)).value))), limits, rows, false)
    ensures !IsFresh(rows, username, now) ==> o == Refresh(limits, rows, now, response, expiration, faults)
  {
    match SelectFirst(rows, ByUsername(username))
    case Some(user) =>
      if now >= user.expiration then Refresh(limits, rows, now, response, expiration, faults)
      else Outcome(Ok(Some(ToModel(user))), limits, rows, false)
    case None => Refresh(limits, rows, now, response, expiration, faults)
  }

  /** The secondary gate wins whatever the quota says. */
  lemma SecondaryGateIgnoresRemaining(limits: RateLimits, remaining: int, rows: seq<GithubUser>, now: int,
                                      response: Response, expiration: int, faults: StoreFaults)
    requires limits.retryAfter > now
    ensures Refresh(limits.(remaining := remaining), rows, now, response, expiration, faults)
      == Outcome(Err(SecondaryRateLimit), limits.(remaining := remaining), rows, false)
  {
  }

  /**
   * A response carrying `x-ratelimit-remaining: 10`, `x-ratelimit-reset: T`
   * and `retry-after: 0` leaves the counters at 10, T and `now`, whatever
   * the status.
   */
  lemma HeadersSetCounters(limits: RateLimits, rows: seq<GithubUser>, now: int, response: Response,
                           expiration: int, faults: StoreFaults, t: int)
    requires Gate(limits, now).None?
    requires InI64(t)
    requires REMAINING_HEADER in response.headers && response.headers[REMAINING_HEADER] == DecimalBytes(10)
    requires RESET_HEADER in response.headers && response.headers[RESET_HEADER] == DecimalBytes(t)
    requires RETRY_AFTER_HEADER in response.headers && response.headers[RETRY_AFTER_HEADER] == DecimalBytes(0)
    ensures Refresh(limits, rows, now, response, expiration, faults).limits == RateLimits(10, t, now)
  {
    GetIntOfDecimalHeader(response.headers, REMAINING_HEADER, 10);
    GetIntOfDecimalHeader(response.headers, RESET_HEADER, t);
    GetIntOfDecimalHeader(response.headers, RETRY_AFTER_HEADER, 0);
  }

  /**
   * A response without any rate-limit header zeroes the counters and sets
   * the deadline to `now`, so no later call (at a non-negative time) is gated.
   */
  lemma MissingHeadersLeaveGateOpen(limits: RateLimits, rows: seq<GithubUser>, now: int, response: Response,
                                    expiration: int, faults: StoreFaults, later: int)
    requires Gate(limits, now).None?
    requires REMAINING_HEADER !in response.headers && RESET_HEADER !in response.headers
    requires RETRY_AFTER_HEADER !in response.headers
    requires now <= later && 0 <= later
    ensures Refresh(limits, rows, now, response, expiration, faults).limits == RateLimits(0, 0, now)
    ensures Gate(Refresh(limits, rows, now, response, expiration, faults).limits, later).None?
  {
  }

  /** A refresh never answers `Ok(None)`. */
  lemma RefreshFindsUser(limits: RateLimits, rows: seq<GithubUser>, now: int, response: Response,
                         expiration: int, faults: StoreFaults)
    ensures Refresh(limits, rows, now, response, expiration, faults).result.Ok? ==>
      Refresh(limits, rows, now, response, expiration, faults).result == Ok(Some(response.user))
  {
  }

  /**
   * Cache-aside end to end: after a refresh that stored the user with an
   * expiry after `later`, a lookup of the user's login at `later` is a hit
   * that returns the same user without going upstream; this needs the
   * login to be unused by every other id in the table, and the INSERT not
   * to hit an engine failure (see `UpsertOkWithoutStoring`).
   */
  lemma RefreshThenHit(limits: RateLimits, rows: seq<GithubUser>, now: int, response: Response,
                       expiration: int, faults: StoreFaults, later: int, response': Response, faults': StoreFaults)
    requires UniqueIds(rows)
    requires forall i :: 0 <= i < |rows| && rows[i].username == response.user.login ==> rows[i].id == response.user.id
    requires !faults.insertFails
    requires Refresh(limits, rows, now, response, expiration, faults).result.Ok?
    requires later < expiration
    ensures var o := Refresh(limits, rows, now, response, expiration, faults);
      Lookup(o.limits, o.rows, response.user.login, later, response', expiration, faults')
        == Outcome(Ok(Some(response.user)), o.limits, o.rows, false)
  {
    var o := Refresh(limits, rows, now, response, expiration, faults);
    var e := ToEntity(response.user, expiration);
    ModelRoundTrip(response.user, expiration);
    var f := FirstIndex(o.rows, ByUsername(e.username));
    if HasId(rows, e.id) {
      var k :| 0 <= k < |rows| && rows[k].id == e.id;
      assert o.rows == Replaced(rows, e);
      assert o.rows[k] == e;
      assert f <= k;
    } else {
      assert o.rows == rows + [e];
      assert o.rows[|rows|] == e;
    }
    assert o.rows[f] == e;
  }

  // ---------------------------------------------------------------------------
  // The service object
  // ---------------------------------------------------------------------------

  /**
   * `GithubUserService`: the repository and the three counters, which the
   * Rust code keeps behind mutexes. One call holds every lock from the
   * gate through the counter update, so calls are modelled one at a time.
   * `requests` records, for the proof only, each username sent upstream.
   */
  class GithubUserService {
    const repository: GitHubUserRepository
    var remaining: int
    var reset: int
    var retryAfter: int
    ghost var requests: seq<string>

    ghost predicate Valid()
      reads this, repository
    {
      repository.Valid()
    }

    function Limits(): RateLimits
      reads this
    {
      RateLimits(remaining, reset, retryAfter)
    }

    constructor (repository: GitHubUserRepository, remaining: int, reset: int, retryAfter: int)
      requires repository.Valid()
      ensures Valid() && this.repository == repository
      ensures Limits() == RateLimits(remaining, reset, retryAfter) && requests == []
    {
      this.repository := repository;
      this.remaining := remaining;
      this.reset := reset;
      this.retryAfter := retryAfter;
      this.requests := [];
    }

    /** `update_user`, at time `now`, with the upstream answer `response`. */
    method UpdateUser(username: string, now: int, response: Response, expiration: int, faults: StoreFaults)
      returns (r: Result<Option<Models.GithubUser>, ServiceError>)
      requires Valid()
      modifies this, repository
      ensures Valid()
      ensures var o := Refresh(old(Limits()), old(repository.rows), now, response, expiration, faults);
        && r == o.result && Limits() == o.limits && repository.rows == o.rows
        && requests == (if o.requested then old(requests) + [username] else old(requests))
    {
      if retryAfter > now {
        return Err(SecondaryRateLimit);
      }
      if remaining == 0 && reset > now {
        return Err(RequestLimit);
      }
      requests := requests + [username];
      var newRemaining := GetInt(response.headers, REMAINING_HEADER);
      var newReset := GetInt(response.headers, RESET_HEADER);
      var newRetryAfter := GetInt(response.headers, RETRY_AFTER_HEADER);
      remaining := newRemaining;
      reset := newReset;
      retryAfter := now + newRetryAfter;
      if !response.success {
        return Err(UpstreamFailure);
      }
      var upserted := repository.Upsert(ToEntity(response.user, expiration), faults.insertFails, faults.updateFails);
      match upserted
      case Ok(_) => r := Ok(Some(response.user));
      case Err(_) => r := Err(UpsertFailure);
    }

    /** `get_by_username`, at time `now`. */
    method GetByUsername(username: string, now: int, response: Response, expiration: int, faults: StoreFaults)
      returns (r: Result<Option<Models.GithubUser>, ServiceError>)
      requires Valid()
      modifies this, repository
      ensures Valid()
      ensures var o := Lookup(old(Limits()), old(repository.rows), username, now, response, expiration, faults);
        && r == o.result && Limits() == o.limits && repository.rows == o.rows
        && requests == (if o.requested then old(requests) + [username] else old(requests))
    {
      var stored := repository.GetByUsername(username);
      match stored
      case Some(user) =>
        if now >= user.expiration {
          r := UpdateUser(username, now, response, expiration, faults);
          return;
        }
        r := Ok(Some(ToModel(user)));
      case None =>
        r := UpdateUser(username, now, response, expiration, faults);
    }
  }
}
