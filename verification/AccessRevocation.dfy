/**
 Logout of access tokens: the blacklist written to Redis and the check that reads it.

 The clock is in milliseconds since the epoch. Redis is available, and a key set with a time to live of
 `s` seconds at instant `t` is read back before `t + 1000 * s` and not after. Signatures
 are taken as verified; a token is the payload it carries.
 */
module AccessRevocation {
  import opened Common

  /** Only what the two operations look at. `exp` is in seconds (section 4.1.4 of RFC 7519). */
  datatype Payload = Payload(sub: string, jti: Option<string>, exp: Option<int>)

  const DEFAULT_TTL_SEC: int := 86400

  datatype Error = TokenExpired | TokenRevoked

  /** The blacklist: the instant at which each revoked `jti` is forgotten. */
  type Blacklist = map<string, int>

  predicate Remembers(redis: Blacklist, jti: string, now: int) {
    jti in redis && now < redis[jti]
  }

  /** Verification of the expiry: a token is dead from the second it names. */
  predicate Expired(p: Payload, now: int) {
    p.exp.Some? && p.exp.value <= now / 1000
  }

  function Parse(redis: Blacklist, p: Payload, now: int): Result<Payload, Error> {
    if Expired(p, now) then Err(TokenExpired)
    else if p.jti.Some? && p.jti.value != "" && Remembers(redis, p.jti.value, now) then Err(TokenRevoked)
    else Ok(p)
  }

  /** `exp` set to zero counts as absent, as it does in the code. */
  function TtlSeconds(p: Payload, now: int): int {
    if p.exp.Some? && p.exp.value != 0 then (if p.exp.value - now / 1000 > 0 then p.exp.value - now / 1000 else 0)
    else DEFAULT_TTL_SEC
  }

  function LoggedOut(redis: Blacklist, p: Payload, now: int): Blacklist {
    if Expired(p, now) || p.jti.None? || p.jti.value == "" || TtlSeconds(p, now) <= 0 then redis
    else redis[p.jti.value := now + TtlSeconds(p, now) * 1000]
  }

  class AuthController {
    var redis: Blacklist

    constructor ()
      ensures redis == map[]
    {
      redis := map[];
    }

    /** Answers whether the logout was accepted; an invalid token is refused with no effect. */
    method Logout(p: Payload, now: int) returns (ok: bool)
      modifies this
      ensures ok == !Expired(p, now) && redis == LoggedOut(old(redis), p, now)
    {
      if Expired(p, now) {
        return false;
      }
      if p.jti.None? || p.jti.value == "" {
        return true;
      }
      var nowSec := now / 1000;
      var ttlSec := DEFAULT_TTL_SEC;
      if p.exp.Some? && p.exp.value != 0 {
        ttlSec := if p.exp.value - nowSec > 0 then p.exp.value - nowSec else 0;
      }
      if ttlSec > 0 {
        redis := redis[p.jti.value := now + ttlSec * 1000];
      }
      return true;
    }
  }

  /** A run of logouts. Redis forgets nothing early. */
  function LogoutAll(redis: Blacklist, logouts: seq<(Payload, int)>): Blacklist
    decreases |logouts|
  {
    if logouts == [] then redis else LogoutAll(LoggedOut(redis, logouts[0].0, logouts[0].1), logouts[1..])
  }

  /** A `jti` belongs to one token. */
  predicate OwnJti(p: Payload, logouts: seq<(Payload, int)>) {
    forall l <- logouts :: l.0.jti == p.jti ==> l.0 == p
  }

  /** The entry of a token outlives the token, by less than one second. */
  predicate Covers(redis: Blacklist, p: Payload) {
    p.jti.Some? && p.exp.Some? && p.jti.value in redis && p.exp.value * 1000 <= redis[p.jti.value] < (p.exp.value + 1) * 1000
  }

  lemma LogoutCovers(redis: Blacklist, p: Payload, now: int)
    requires p.jti.Some? && p.jti.value != "" && p.exp.Some? && p.exp.value != 0 && !Expired(p, now)
    ensures Covers(LoggedOut(redis, p, now), p)
  {
  }

  lemma {:induction false} CoverLasts(redis: Blacklist, p: Payload, logouts: seq<(Payload, int)>)
    requires Covers(redis, p) && p.exp.value != 0 && p.jti.value != "" && OwnJti(p, logouts)
    ensures Covers(LogoutAll(redis, logouts), p)
    decreases |logouts|
  {
    if logouts != [] {
      var (q, t) := logouts[0];
      if q.jti == p.jti && !Expired(p, t) {
        LogoutCovers(redis, p, t);
      }
      CoverLasts(LoggedOut(redis, q, t), p, logouts[1..]);
    }
  }

  /** After its logout a token with an expiry is refused at every instant, whatever other
      tokens log out meanwhile: the entry, whose time to live was floored to seconds, is
      there until the expiry takes over. */
  lemma LogoutIsFinal(redis: Blacklist, p: Payload, at: nat, logouts: seq<(Payload, int)>, now: int)
    requires p.jti.Some? && p.jti.value != "" && p.exp.Some? && !Expired(p, at)
    requires OwnJti(p, logouts)
    ensures Parse(LogoutAll(LoggedOut(redis, p, at), logouts), p, now).Err?
  {
    LogoutCovers(redis, p, at);
    CoverLasts(LoggedOut(redis, p, at), p, logouts);
  }

  /** The logout of a token ends it: it is refused from then on, at every instant. */
  ghost predicate EndsForGood(redis: Blacklist, p: Payload, at: int) {
    forall now | at <= now :: Parse(LoggedOut(redis, p, at), p, now).Err?
  }

  /** A logout ends every token that has already expired, and any other exactly when it names
      both an identifier and an expiry: without an identifier it is still accepted at once,
      without an expiry again after a day. */
  lemma FinalExactlyWithExpiry(redis: Blacklist, p: Payload, at: nat)
    ensures EndsForGood(redis, p, at) <==>
              Expired(p, at) || (p.jti.Some? && p.jti.value != "" && p.exp.Some?)
  {
    if Expired(p, at) {
      ExpiryIsFinal(redis, p, at);
    } else if p.jti.None? || p.jti.value == "" {
      assert Parse(LoggedOut(redis, p, at), p, at).Ok?;
    } else if p.exp.None? {
      assert Parse(LoggedOut(redis, p, at), p, at + DEFAULT_TTL_SEC * 1000).Ok?;
    } else {
      forall now | at <= now
        ensures Parse(LoggedOut(redis, p, at), p, now).Err?
      {
        LogoutIsFinal(redis, p, at, [], now);
      }
    }
  }

  lemma ExpiryIsFinal(redis: Blacklist, p: Payload, at: int)
    requires Expired(p, at)
    ensures EndsForGood(redis, p, at)
  {
  }

  /** A token without an expiry is refused for exactly one day. */
  lemma ForgottenAfterADay(redis: Blacklist, p: Payload, at: int, now: int)
    requires p.jti.Some? && p.jti.value != "" && p.exp.None?
    ensures Parse(LoggedOut(redis, p, at), p, now).Err? <==> now < at + 86_400_000
  {
  }

  /** No logout of the run names the token's identifier. */
  predicate NeverLoggedOut(p: Payload, logouts: seq<(Payload, int)>) {
    p.jti.None? || p.jti.value == "" || forall l <- logouts :: l.0.jti != p.jti
  }

  lemma {:induction false} NotRemembered(redis: Blacklist, p: Payload, logouts: seq<(Payload, int)>)
    requires NeverLoggedOut(p, logouts) && p.jti.Some? && p.jti.value != "" && p.jti.value !in redis
    ensures p.jti.value !in LogoutAll(redis, logouts)
    decreases |logouts|
  {
    if logouts != [] {
      assert logouts[0] in logouts;
      NotRemembered(LoggedOut(redis, logouts[0].0, logouts[0].1), p, logouts[1..]);
    }
  }

  /** A token that is not logged out is accepted, as it is, exactly until its expiry, whatever
      other tokens log out. */
  lemma AcceptedUntilExpiry(p: Payload, logouts: seq<(Payload, int)>, now: int)
    requires NeverLoggedOut(p, logouts)
    ensures Parse(LogoutAll(map[], logouts), p, now) == Ok(p) <==> p.exp.None? || now / 1000 < p.exp.value
    ensures Parse(LogoutAll(map[], logouts), p, now) != Err(TokenRevoked)
  {
    if p.jti.Some? && p.jti.value != "" {
      NotRemembered(map[], p, logouts);
    }
  }

  /** Logging one token out refuses no other token. */
  lemma LogoutSparesOthers(redis: Blacklist, p: Payload, q: Payload, at: int, now: int)
    requires p.jti != q.jti
    ensures Parse(LoggedOut(redis, p, at), q, now) == Parse(redis, q, now)
  {
  }
}
