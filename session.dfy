/** The reddit session: an OAuth token with its expiry, and the rate-limit budget the last
    response reported. Time is a clock in whole seconds that the caller passes in. */
module Sessions {
  import opened Base
  import opened Reddit

  /** The largest `u32`; the remaining-requests count is saturated to it. */
  const U32Max: nat := 0xFFFF_FFFF

  /** A token that expires within this many seconds is renewed before use. */
  const ExpiryMargin: nat := 90

  /** A rate-limit header: not sent, sent but not a number, or its value. */
  datatype HeaderValue = Absent | Unparsable | Parsed(n: nat)

  /** The `x-ratelimit-remaining` and `x-ratelimit-reset` headers of a response. */
  datatype RateHeaders = RateHeaders(remaining: HeaderValue, reset: HeaderValue)

  /** The decoded body of a successful login. */
  datatype LoginBody = LoginBody(accessToken: string, expiresIn: nat)

  /** What the login endpoint answers; `body` is `None` when the body does not decode. */
  datatype LoginReply = LoginUnreachable | LoginReplied(status: nat, headers: RateHeaders, body: Option<LoginBody>)

  /** The mutable part of a `Session`. */
  datatype SessionState = SessionState(token: Option<string>, expires: nat, remain: nat, reset: nat)

  /** `as u32` on a count too large for it. */
  function Saturate(n: nat): (r: nat)
    ensures r <= U32Max
    ensures n <= U32Max ==> r == n
    ensures n > U32Max ==> r == U32Max
  {
    if n > U32Max then U32Max else n
  }

  /** `Session::new` at clock `now`: no token, and no requests left until `now`. */
  function Initial(now: nat): SessionState
  {
    SessionState(None, now, 0, now)
  }

  /** `token_expired`: no token, or it expires within the margin. */
  function TokenExpired(s: SessionState, now: nat): (r: bool)
    ensures r <==> s.token.None? || now > s.expires || s.expires - now < ExpiryMargin
  {
    s.token.None? || s.expires < now + ExpiryMargin
  }

  /** `update`: both headers must be present and parse, or nothing changes and the answer is
      `false`; otherwise the budget and its reset time are taken from them. The token is
      never touched. */
  function Updated(s: SessionState, h: RateHeaders, now: nat): (r: (bool, SessionState))
    ensures !r.0 <==> !h.remaining.Parsed? || !h.reset.Parsed?
    ensures !r.0 ==> r.1 == s
    ensures r.1.token == s.token && r.1.expires == s.expires
    ensures r.0 ==> r.1.remain == Saturate(h.remaining.n) && r.1.reset == now + h.reset.n
  {
    match (h.remaining, h.reset)
    case (Parsed(remain), Parsed(secs)) => (true, s.(remain := Saturate(remain), reset := now + secs))
    case _ => (false, s)
  }

  /** `wait_for_reset`: the clock after sleeping until the reset time, if it is still ahead. */
  function WaitClock(s: SessionState, now: nat): (t: nat)
    ensures t >= now && t >= s.reset
    ensures t == now || t == s.reset
  {
    if now < s.reset then s.reset else now
  }

  /** `prepare`: the clock after waiting, which happens only when fewer than two requests are
      left (one for the request, one for a possible login). */
  function PrepareClock(s: SessionState, now: nat): (t: nat)
    ensures t >= now
    ensures s.remain >= 2 || t >= s.reset
    ensures t != now ==> s.remain < 2 && now < s.reset && t == s.reset
  {
    if s.remain < 2 then WaitClock(s, now) else now
  }

  /** `bearer` at clock `now`, `reply` being what the login endpoint would answer. */
  function BearerStep(s: SessionState, now: nat, reply: LoginReply): (r: (Result<string, RedditError>, SessionState))
    ensures !TokenExpired(s, now) ==> r == (Ok(s.token.value), s)
    ensures r.0.Ok? ==> r.1.token == Some(r.0.value)
    ensures TokenExpired(s, now) && reply.LoginUnreachable? ==> r == (Err(OtherError), s)
    ensures TokenExpired(s, now) && reply.LoginReplied? ==>
              r.1.remain == Updated(s, reply.headers, now).1.remain &&
              r.1.reset == Updated(s, reply.headers, now).1.reset
    ensures TokenExpired(s, now) && reply.LoginReplied? && reply.status == StatusOk && reply.body.Some? ==>
              r.0 == Ok(reply.body.value.accessToken) && r.1.expires == now + reply.body.value.expiresIn
    ensures TokenExpired(s, now) && reply.LoginReplied? && reply.status == StatusOk && reply.body.None? ==>
              r.0 == Err(BadCredentials)
    ensures TokenExpired(s, now) && reply.LoginReplied? && reply.status == StatusUnauthorized ==>
              r.0 == Err(Unauthorized)
    ensures TokenExpired(s, now) && reply.LoginReplied? && reply.status != StatusOk && reply.status != StatusUnauthorized ==>
              r.0 == Err(OtherStatus(reply.status))
    ensures r.0.Err? ==> r.1.token == s.token && r.1.expires == s.expires
  {
    if !TokenExpired(s, now) then (Ok(s.token.value), s)
    else
      match reply
      case LoginUnreachable => (Err(OtherError), s)
      case LoginReplied(status, headers, body) =>
        var u := Updated(s, headers, now).1;
        if status == StatusOk then
          if body.Some? then
            (Ok(body.value.accessToken), u.(token := Some(body.value.accessToken), expires := now + body.value.expiresIn))
          else (Err(BadCredentials), u)
        else if status == StatusUnauthorized then (Err(Unauthorized), u)
        else (Err(OtherStatus(status)), u)
  }

  /** A new session has to log in, and its first `prepare` waits until the creation time. */
  lemma InitialMustLogIn(created: nat, now: nat)
    ensures TokenExpired(Initial(created), now)
    ensures PrepareClock(Initial(created), now) == if now < created then created else now
  {
  }

  /** Applying the same headers at the same clock twice is the same as once. */
  lemma UpdatedIdempotent(s: SessionState, h: RateHeaders, now: nat)
    ensures Updated(Updated(s, h, now).1, h, now).1 == Updated(s, h, now).1
  {
  }

  /** Waiting again right after `prepare` does not move the clock. */
  lemma PrepareIdempotent(s: SessionState, now: nat)
    ensures PrepareClock(s, PrepareClock(s, now)) == PrepareClock(s, now)
  {
  }

  /** A login that hands out a token valid beyond the margin makes the next `bearer` at the
      same clock reuse that token without logging in, whatever the endpoint would answer. */
  lemma BearerReusesFreshToken(s: SessionState, now: nat, reply: LoginReply, next: LoginReply)
    requires TokenExpired(s, now)
    requires reply.LoginReplied? && reply.status == StatusOk && reply.body.Some?
    requires reply.body.value.expiresIn >= ExpiryMargin
    ensures !TokenExpired(BearerStep(s, now, reply).1, now)
    ensures BearerStep(BearerStep(s, now, reply).1, now, next) == BearerStep(s, now, reply)
  {
  }

  /** `Session`: the credentials, fixed at creation, and the state that `bearer` and
      `update` change. */
  class Session {
    const id: string
    const secret: string
    const user: string
    const pass: string

    var token: Option<string>
    var expires: nat
    var remain: nat
    var reset: nat

    function State(): SessionState
      reads this
    {
      SessionState(token, expires, remain, reset)
    }

    /** `Session::new` at clock `now`. */
    constructor(id: string, secret: string, user: string, pass: string, now: nat)
      ensures this.id == id && this.secret == secret && this.user == user && this.pass == pass
      ensures State() == Initial(now)
    {
      this.id := id;
      this.secret := secret;
      this.user := user;
      this.pass := pass;
      token := None;
      expires := now;
      remain := 0;
      reset := now;
    }

    /** `update`. */
    method Update(headers: RateHeaders, now: nat) returns (updated: bool)
      modifies this
      ensures (updated, State()) == Updated(old(State()), headers, now)
    {
      if !headers.remaining.Parsed? {
        return false;
      }
      var remain := Saturate(headers.remaining.n);
      if !headers.reset.Parsed? {
        return false;
      }
      var reset := now + headers.reset.n;
      this.remain := remain;
      this.reset := reset;
      return true;
    }

    /** `bearer`: logs in when the token is missing or about to expire; the final `unwrap`
        of the token cannot fail. */
    method Bearer(now: nat, reply: LoginReply) returns (r: Result<string, RedditError>)
      modifies this
      ensures (r, State()) == BearerStep(old(State()), now, reply)
    {
      if TokenExpired(State(), now) {
        if reply.LoginUnreachable? {
          return Err(OtherError);
        }
        var _ := Update(reply.headers, now);
        if reply.status == StatusOk {
          if reply.body.Some? {
            token := Some(reply.body.value.accessToken);
            expires := now + reply.body.value.expiresIn;
          } else {
            return Err(BadCredentials);
          }
        } else if reply.status == StatusUnauthorized {
          return Err(Unauthorized);
        } else {
          return Err(OtherStatus(reply.status));
        }
      }
      return Ok(token.value);
    }

    /** `prepare`: returns the clock once any wait is over. */
    method Prepare(now: nat) returns (clock: nat)
      ensures clock == PrepareClock(State(), now)
    {
      if remain < 2 {
        clock := WaitForReset(now);
      } else {
        clock := now;
      }
    }

    /** `wait_for_reset`. */
    method WaitForReset(now: nat) returns (clock: nat)
      ensures clock == WaitClock(State(), now)
    {
      if now < reset {
        clock := reset;
      } else {
        clock := now;
      }
    }
  }
}
