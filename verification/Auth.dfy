/** Logging in and out: the order in which limiter, password check, limiter reset and session happen. */
module Auth {
  import opened Prelude
  import RateLimit
  import RateLimitTheorems
  import Sessions

  const COLON: CodeUnit := 0x3A

  /** "unknown" */
  const UNKNOWN: Text := [0x75, 0x6E, 0x6B, 0x6E, 0x6F, 0x77, 0x6E]

  datatype LoginError = RateLimited | Unauthorized | Internal

  datatype LoggedIn = LoggedIn(token: Text, expiresAt: int)

  function Identifier(ip: Text, email: Text): Text {
    ip + [COLON] + email
  }

  function IpOf(ip: Option<Text>): Text {
    if ip.Some? then ip.value else UNKNOWN
  }

  lemma IdentifierIs(ip: Option<Text>, email: Text)
    ensures Identifier(IpOf(ip), email)
            == (if ip.Some? then ip.value else Ascii("unknown")) + Ascii(":") + email
  {
    assert Ascii("unknown") == UNKNOWN && Ascii(":") == [COLON];
  }

  class AuthController {
    const rateLimit: RateLimit.RateLimitService
    const sessions: Sessions.SessionService

    constructor (rateLimit: RateLimit.RateLimitService, sessions: Sessions.SessionService)
      ensures this.rateLimit == rateLimit && this.sessions == sessions
    {
      this.rateLimit := rateLimit;
      this.sessions := sessions;
    }

    /**
     `verified` is the user that the password check would find; `token`, `id` and `clock` are what the
     session creation draws. A refused attempt reaches neither the check nor the session table.
     */
    method Login(ip: Option<Text>, email: Text, verified: Option<Text>, token: Text, id: Text, clock: int)
      returns (r: Result<LoggedIn, LoginError>)
      requires sessions.Valid()
      modifies rateLimit.redis`store, sessions`rows
      ensures var key := (if ip.Some? then ip.value else Ascii("unknown")) + Ascii(":") + email;
              var before := old(rateLimit.redis.store);
              var live := RateLimit.Live(before, key, rateLimit.redis.now);
              var count := if live then before[key].count + 1 else 1;
              var deadline := if count == 1 then Some(rateLimit.redis.now + 15 * 60 * 1000) else before[key].deadline;
              var refused := count > 5;
              var taken := sessions.hash(token) in old(sessions.rows) || Sessions.IdTaken(old(sessions.rows), id);
              && (r == Err(RateLimited) <==> refused)
              && (r == Err(Unauthorized) <==> !refused && verified.None?)
              && (r == Err(Internal) <==> !refused && verified.Some? && taken)
              && (r.Ok? <==> !refused && verified.Some? && !taken)
              && rateLimit.redis.store
                 == if refused || verified.None? then before[key := RateLimit.Counter(count, deadline)]
                    else RateLimit.DelStore(before, key)
      ensures sessions.Valid()
      ensures r.Err? ==> sessions.rows == old(sessions.rows)
      ensures r.Ok? ==>
                && r.value == LoggedIn(token, clock + 12 * 60 * 60 * 1000)
                && sessions.rows == old(sessions.rows)[sessions.hash(token) := Sessions.Row(
                     id, verified.value, clock + 12 * 60 * 60 * 1000, clock)]
    {
      var key := Identifier(IpOf(ip), email);
      IdentifierIs(ip, email);
      var allowed := rateLimit.AssertLoginAllowed(key);
      if allowed.Err? { return Err(RateLimited); }
      if verified.None? { return Err(Unauthorized); }
      rateLimit.Clear(key);
      var session := sessions.Create(verified.value, token, id, clock);
      match session
      case Err(_) => return Err(Internal);
      case Ok(expiresAt) => return Ok(LoggedIn(token, expiresAt));
    }

    /** A missing or empty cookie revokes nothing. */
    method Logout(cookie: Option<Text>)
      requires sessions.Valid()
      modifies sessions`rows
      ensures sessions.Valid()
      ensures sessions.rows == if cookie.Some? && cookie.value != []
                               then old(sessions.rows) - {sessions.hash(cookie.value)}
                               else old(sessions.rows)
    {
      if cookie.Some? && cookie.value != [] {
        sessions.Revoke(cookie.value);
      }
    }
  }

  // ----- identifiers

  lemma ShorterAddressDiffers(ip: Text, email: Text, ip': Text, email': Text)
    requires |ip| < |ip'| && COLON !in email
    ensures Identifier(ip, email) != Identifier(ip', email')
  {
    var a, b, k := Identifier(ip, email), Identifier(ip', email'), |ip'| - |ip| - 1;
    assert b[|ip'|] == COLON;
    if k < |email| { assert a[|ip'|] == email[k] && email[k] in email; }
  }

  /** An e-mail address without a colon can be read off the identifier, though an IPv6 address has colons. */
  lemma IdentifierUnique(ip: Text, email: Text, ip': Text, email': Text)
    requires COLON !in email && COLON !in email'
    ensures Identifier(ip, email) == Identifier(ip', email') <==> ip == ip' && email == email'
  {
    var a, b := Identifier(ip, email), Identifier(ip', email');
    if |ip| < |ip'| {
      ShorterAddressDiffers(ip, email, ip', email');
    } else if |ip'| < |ip| {
      ShorterAddressDiffers(ip', email', ip, email);
    } else {
      assert a[..|ip|] == ip && b[..|ip|] == ip' && a[|ip| + 1..] == email && b[|ip| + 1..] == email';
    }
  }

  /** No step of one pair's calls, nor a clear for it, changes anything that concerns another pair. */
  lemma PairsApart(s: RateLimit.State, op: RateLimit.Op, ip: Text, email: Text, ip': Text, email': Text)
    requires COLON !in email && COLON !in email' && (ip, email) != (ip', email')
    requires RateLimit.Enabled(s, op) && !op.Tick?
    requires RateLimitTheorems.Concerns(s, op, Identifier(ip', email'))
    ensures RateLimitTheorems.Only(RateLimit.Step(s, op), Identifier(ip, email))
            == RateLimitTheorems.Only(s, Identifier(ip, email))
  {
    IdentifierUnique(ip, email, ip', email');
    RateLimitTheorems.StepOnly(s, op, Identifier(ip, email));
  }

  // ----- a series of failed logins

  /** Failed logins at the given times, each running to its end before the next. */
  function Failures(store: RateLimit.Store, key: Text, times: seq<int>): RateLimit.Store {
    if times == [] then store
    else RateLimit.AttemptStore(Failures(store, key, times[..|times| - 1]), key, times[|times| - 1])
  }

  ghost predicate InWindow(times: seq<int>) {
    && (forall i, j :: 0 <= i < j < |times| ==> times[i] <= times[j])
    && (forall i :: 0 <= i < |times| ==> times[i] <= times[0] + 15 * 60 * 1000)
  }

  lemma {:induction false} FailuresCount(store: RateLimit.Store, key: Text, times: seq<int>)
    requires times != [] && InWindow(times) && !RateLimit.Live(store, key, times[0])
    ensures key in Failures(store, key, times)
    ensures Failures(store, key, times)[key]
            == RateLimit.Counter(|times|, Some(times[0] + RateLimit.WINDOW))
  {
    var before := times[..|times| - 1];
    if before != [] {
      FailuresCount(store, key, before);
    } else {
      assert Failures(store, key, before) == store;
    }
  }

  /**
   After a series of failures within fifteen minutes of the first, the next login gets as far as the
   password check exactly when there were fewer than five, or more than fifteen minutes have passed
   since the first.
   */
  lemma LockedOutIff(store: RateLimit.Store, key: Text, times: seq<int>, t: int)
    requires times != [] && InWindow(times) && !RateLimit.Live(store, key, times[0])
    ensures RateLimit.LetThrough(RateLimit.CountAfterIncr(Failures(store, key, times), key, t))
            <==> |times| < 5 || t > times[0] + 15 * 60 * 1000
  {
    FailuresCount(store, key, times);
  }

  // ----- the same series in the protocol

  /** An uninterrupted call is the run of its two steps. */
  lemma CallRun(s: RateLimit.State, id: RateLimit.CallId, key: Text) returns (ops: seq<RateLimit.Op>)
    requires RateLimitTheorems.FreeFrom(s, id)
    ensures RateLimit.CanRun(s, ops)
    ensures var s' := RateLimit.After(s, ops);
            && s'.store == RateLimit.AttemptStore(s.store, key, s.now) && s'.now == s.now
            && RateLimitTheorems.FreeFrom(s', id + 1)
            && id in s'.calls && s'.calls[id].key == key && s'.calls[id].count == s'.store[key].count
  {
    var s1 := RateLimit.Step(s, RateLimit.Arrive(id, key));
    RateLimitTheorems.OneStep(s, RateLimit.Arrive(id, key));
    if RateLimit.Owes(s1, id) {
      ops := [RateLimit.Arrive(id, key)] + [RateLimit.SendExpire(id)];
      RateLimitTheorems.OneStep(s1, RateLimit.SendExpire(id));
      RateLimitTheorems.RunConcat(s, [RateLimit.Arrive(id, key)], [RateLimit.SendExpire(id)]);
    } else {
      ops := [RateLimit.Arrive(id, key)];
    }
  }

  /** A series of failed logins is a run of the protocol, whatever the state it starts in. */
  lemma {:induction false} FailuresRun(s: RateLimit.State, first: RateLimit.CallId, key: Text, times: seq<int>)
    returns (ops: seq<RateLimit.Op>)
    requires RateLimitTheorems.FreeFrom(s, first) && times != [] && s.now <= times[0]
    requires forall i, j :: 0 <= i < j < |times| ==> times[i] <= times[j]
    ensures RateLimit.CanRun(s, ops)
    ensures var s' := RateLimit.After(s, ops);
            && s'.store == Failures(s.store, key, times) && s'.now == times[|times| - 1]
            && RateLimitTheorems.FreeFrom(s', first + |times|)
    decreases |times|
  {
    var n := |times| - 1;
    var before: seq<RateLimit.Op> := [];
    if n > 0 { before := FailuresRun(s, first, key, times[..n]); }
    var s1 := RateLimit.After(s, before);
    assert n == 0 ==> Failures(s.store, key, times[..n]) == s.store;
    var wait := RateLimit.Tick(times[n] - s1.now);
    RateLimitTheorems.OneStep(s1, wait);
    var call := CallRun(RateLimit.Step(s1, wait), first + n, key);
    RateLimitTheorems.RunConcat(s1, [wait], call);
    RateLimitTheorems.RunConcat(s, before, [wait] + call);
    ops := before + ([wait] + call);
  }
}
