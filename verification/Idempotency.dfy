/**
 Idempotent replay of write requests: the response cache around the handler. Redis is
 available, an entry set at instant `t` (milliseconds) is read back before `t` plus its
 time to live. Requests do not overlap first: the next is looked up after the last answer
 was stored. `SplitIdempotency` below lets them. A body is the JSON text it is stored as.
 */
module Idempotency {
  import opened Common

  const TTL_MS: int := 86400 * 1000

  datatype User = User(sub: Option<string>, id: Option<string>)

  /** `httpMethod` is upper case; `key` is the header, the first one if it was repeated. */
  datatype Request = Request(httpMethod: string, key: Option<string>, user: Option<User>)

  datatype Response = Response(status: int, body: string)

  datatype Entry = Entry(response: Response, expiresAt: int)

  type Cache = map<string, Entry>

  datatype Outcome = Ran(response: Response) | Replayed(response: Response) | InvalidKey

  predicate Skipped(httpMethod: string) {
    httpMethod in {"GET", "HEAD", "OPTIONS"}
  }

  predicate KeyChar(c: char) {
    'a' <= c <= 'z' || 'A' <= c <= 'Z' || '0' <= c <= '9' || c == '_' || c == '-'
  }

  predicate ValidKey(key: string) {
    8 <= |key| <= 128 && forall c <- key :: KeyChar(c)
  }

  predicate Success(r: Response) {
    200 <= r.status < 300
  }

  function UserId(req: Request): string {
    if req.user.Some? && req.user.value.sub.Some? then req.user.value.sub.value
    else if req.user.Some? && req.user.value.id.Some? then req.user.value.id.value
    else "anon"
  }

  function FullKey(userId: string, key: string): string {
    "idem:" + userId + ":" + key
  }

  /** The request goes through the cache. */
  predicate Keyed(req: Request) {
    !Skipped(req.httpMethod) && req.key.Some? && ValidKey(req.key.value)
  }

  function CacheKey(req: Request): string
    requires Keyed(req)
  {
    FullKey(UserId(req), req.key.value)
  }

  /** One request at `now`, where `answer` is what the handler returns if it is run. */
  function Next(cache: Cache, req: Request, now: int, answer: Response): (Cache, Outcome) {
    if Skipped(req.httpMethod) || req.key.None? || req.key.value == "" then (cache, Ran(answer))
    else if !ValidKey(req.key.value) then (cache, InvalidKey)
    else
      var k := FullKey(UserId(req), req.key.value);
      if k in cache && now < cache[k].expiresAt then (cache, Replayed(cache[k].response))
      else (if Success(answer) then cache[k := Entry(answer, now + TTL_MS)] else cache, Ran(answer))
  }

  class IdempotencyInterceptor {
    var redis: Cache

    constructor ()
      ensures redis == map[]
    {
      redis := map[];
    }

    method Intercept(req: Request, now: int, answer: Response) returns (outcome: Outcome)
      modifies this
      ensures (redis, outcome) == Next(old(redis), req, now, answer)
    {
      if Skipped(req.httpMethod) || req.key.None? || req.key.value == "" {
        return Ran(answer);
      }
      var key := req.key.value;
      if !ValidKey(key) {
        return InvalidKey;
      }
      var fullKey := FullKey(UserId(req), key);
      if fullKey in redis && now < redis[fullKey].expiresAt {
        return Replayed(redis[fullKey].response);
      }
      if Success(answer) {
        redis := redis[fullKey := Entry(answer, now + TTL_MS)];
      }
      return Ran(answer);
    }
  }

  /** Different users or keys never share an entry, whatever characters a user id has: a
      valid key has no colon, so the last colon separates the two. */
  lemma FullKeyInjective(u: string, k: string, u': string, k': string)
    requires ValidKey(k) && ValidKey(k') && FullKey(u, k) == FullKey(u', k')
    ensures u == u' && k == k'
  {
    var f := FullKey(u, k);
    assert f[|f| - |k| - 1] == ':' && f[|f| - |k'| - 1] == ':';
    assert forall i | |f| - |k| <= i < |f| :: f[i] == k[i - (|f| - |k|)] && f[i] in k;
    assert forall i | |f| - |k'| <= i < |f| :: f[i] == k'[i - (|f| - |k'|)] && f[i] in k';
    assert |k| == |k'|;
    assert u == f[5..|f| - |k| - 1] && u' == f[5..|f| - |k| - 1];
    assert k == f[|f| - |k|..] && k' == f[|f| - |k|..];
  }

  /** Reads go by the cache, as do writes without a key; a malformed key is refused; none of
      them changes it. */
  lemma UnkeyedGoBy(cache: Cache, req: Request, now: int, answer: Response)
    ensures (req.httpMethod == "GET" || req.httpMethod == "HEAD" || req.httpMethod == "OPTIONS"
             || req.key.None? || req.key.value == "") ==> Next(cache, req, now, answer) == (cache, Ran(answer))
    ensures Next(cache, req, now, answer).1 == InvalidKey <==>
              && req.httpMethod != "GET" && req.httpMethod != "HEAD" && req.httpMethod != "OPTIONS"
              && req.key.Some? && req.key.value != ""
              && !(8 <= |req.key.value| <= 128
                   && forall c <- req.key.value :: 'a' <= c <= 'z' || 'A' <= c <= 'Z' || '0' <= c <= '9' || c == '_' || c == '-')
    ensures Next(cache, req, now, answer).1 == InvalidKey ==> Next(cache, req, now, answer).0 == cache
  {
  }

  // ----- Runs -----

  datatype Exchange = Exchange(req: Request, now: int, answer: Response)

  predicate Ordered(xs: seq<Exchange>) {
    forall i, j | 0 <= i < j < |xs| :: xs[i].now <= xs[j].now
  }

  /** The cache after the first `n` exchanges, which began with an empty one. */
  function CacheAfter(xs: seq<Exchange>, n: nat): Cache
    requires n <= |xs|
  {
    if n == 0 then map[] else Next(CacheAfter(xs, n - 1), xs[n - 1].req, xs[n - 1].now, xs[n - 1].answer).0
  }

  function OutcomeAt(xs: seq<Exchange>, j: nat): Outcome
    requires j < |xs|
  {
    Next(CacheAfter(xs, j), xs[j].req, xs[j].now, xs[j].answer).1
  }

  /** Exchange `i` ran the handler for this cache key and succeeded with `r`. */
  predicate Succeeds(xs: seq<Exchange>, i: nat, k: string, r: Response)
    requires i < |xs|
  {
    Keyed(xs[i].req) && CacheKey(xs[i].req) == k && OutcomeAt(xs, i) == Ran(r) && Success(r)
  }

  /** Every entry was stored by some success. */
  lemma {:induction false} EntryHasSource(xs: seq<Exchange>, n: nat, k: string) returns (i: nat)
    requires n <= |xs| && k in CacheAfter(xs, n)
    ensures i < n && Succeeds(xs, i, k, CacheAfter(xs, n)[k].response)
    ensures CacheAfter(xs, n)[k].expiresAt == xs[i].now + TTL_MS
    decreases n
  {
    var before := CacheAfter(xs, n - 1);
    if k in before && CacheAfter(xs, n)[k] == before[k] {
      i := EntryHasSource(xs, n - 1, k);
    } else {
      i := n - 1;
    }
  }

  /** An entry is not replaced while it lives. */
  lemma {:induction false} EntryStays(xs: seq<Exchange>, i: nat, n: nat, k: string, r: Response)
    requires i < n <= |xs| && Ordered(xs) && Succeeds(xs, i, k, r)
    requires n < |xs| ==> xs[n].now < xs[i].now + TTL_MS
    requires n == |xs| ==> xs[n - 1].now < xs[i].now + TTL_MS
    ensures k in CacheAfter(xs, n) && CacheAfter(xs, n)[k] == Entry(r, xs[i].now + TTL_MS)
    decreases n
  {
    if n > i + 1 {
      EntryStays(xs, i, n - 1, k, r);
    }
  }

  /** A response is replayed exactly when an earlier request of the same user and key ran
      the handler and succeeded with that response less than a day before. So the handler
      runs until its first success, and for a day every repetition gets that answer. */
  lemma ReplayedExactly(xs: seq<Exchange>, j: nat, r: Response)
    requires Ordered(xs) && j < |xs| && Keyed(xs[j].req)
    ensures OutcomeAt(xs, j) == Replayed(r) <==>
              exists i: nat | i < j :: Succeeds(xs, i, CacheKey(xs[j].req), r) && xs[j].now < xs[i].now + TTL_MS
  {
    var k := CacheKey(xs[j].req);
    if OutcomeAt(xs, j) == Replayed(r) {
      var i := EntryHasSource(xs, j, k);
    }
    if i: nat :| i < j && Succeeds(xs, i, k, r) && xs[j].now < xs[i].now + TTL_MS {
      EntryStays(xs, i, j, k, r);
    }
  }

  /** What a request leaves behind for a later one with the same user and key: an answer that
      ran with a status from 200 to 299 is replayed for a day from then, any other answer not
      at all. */
  lemma KeptForADay(cache: Cache, req: Request, now: int, answer: Response, later: int, other: Response)
    requires Keyed(req) && CacheKey(req) !in cache
    ensures Next(Next(cache, req, now, answer).0, req, later, other).1
              == if 200 <= answer.status <= 299 && later < now + 86_400_000 then Replayed(answer) else Ran(other)
  {
  }

  /** The name a user goes by: the subject of the token, else the id, else anonymous. */
  predicate GoesBy(user: Option<User>, name: string) {
    if user.Some? && user.value.sub.Some? then user.value.sub == Some(name)
    else if user.Some? && user.value.id.Some? then user.value.id == Some(name)
    else name == "anon"
  }

  /** Requests that go by one name with one key share a cache entry, and only those. */
  lemma EntryPerUserAndKey(req: Request, other: Request, name: string)
    requires Keyed(req) && Keyed(other) && GoesBy(req.user, name)
    ensures CacheKey(req) == CacheKey(other) <==> GoesBy(other.user, name) && req.key == other.key
  {
    if CacheKey(req) == CacheKey(other) {
      FullKeyInjective(UserId(req), req.key.value, UserId(other), other.key.value);
    }
  }

  /** The success behind a replay came from the same user with the same key. */
  lemma ReplayIsOwn(xs: seq<Exchange>, j: nat)
    requires Ordered(xs) && j < |xs| && Keyed(xs[j].req) && OutcomeAt(xs, j).Replayed?
    ensures exists i: nat | i < j ::
              && Keyed(xs[i].req) && xs[i].req.key == xs[j].req.key
              && (exists name :: GoesBy(xs[i].req.user, name) && GoesBy(xs[j].req.user, name))
              && OutcomeAt(xs, i) == Ran(OutcomeAt(xs, j).response)
  {
    var k := CacheKey(xs[j].req);
    var i := EntryHasSource(xs, j, k);
    FullKeyInjective(UserId(xs[i].req), xs[i].req.key.value, UserId(xs[j].req), xs[j].req.key.value);
    assert GoesBy(xs[i].req.user, UserId(xs[i].req)) && GoesBy(xs[j].req.user, UserId(xs[j].req));
  }

  /** Within a day of a success the handler of the same user and key does not run again,
      whatever it would answer: every request gets the answer of that success. */
  lemma RunsOncePerDay(xs: seq<Exchange>, i: nat, j: nat, r: Response)
    requires Ordered(xs) && i < j < |xs| && Keyed(xs[j].req) && Succeeds(xs, i, CacheKey(xs[j].req), r)
    requires xs[j].now < xs[i].now + 86_400_000
    ensures OutcomeAt(xs, j) == Replayed(r)
  {
    ReplayedExactly(xs, j, r);
  }
}

/**
 The same cache when requests overlap: the lookup of a request and the storing of its
 answer are separate steps, and any number of requests interleave between them. Only
 requests that go through the cache take part; they are known by their cache key.
 */
module SplitIdempotency {
  import opened Common
  import Idem = Idempotency

  type Request = nat

  /** A pending request has missed the cache under its key and is running the handler. */
  datatype State = State(cache: Idem.Cache, pending: map<Request, string>)

  datatype Event =
    | Lookup(req: Request, key: string, now: int)
    | Finish(req: Request, answer: Idem.Response, now: int)

  predicate Hit(cache: Idem.Cache, k: string, now: int) {
    k in cache && now < cache[k].expiresAt
  }

  predicate Enabled(s: State, e: Event) {
    match e
    case Lookup(req, _, _) => req !in s.pending
    case Finish(req, _, _) => req in s.pending
  }

  function Stored(cache: Idem.Cache, k: string, answer: Idem.Response, now: int): Idem.Cache {
    if Idem.Success(answer) then cache[k := Idem.Entry(answer, now + Idem.TTL_MS)] else cache
  }

  function Next(s: State, e: Event): State
    requires Enabled(s, e)
  {
    match e
    case Lookup(req, k, now) => if Hit(s.cache, k, now) then s else s.(pending := s.pending[req := k])
    case Finish(req, answer, now) => State(Stored(s.cache, s.pending[req], answer, now), s.pending - {req})
  }

  predicate ValidRun(s: State, events: seq<Event>)
    decreases |events|
  {
    events == [] || (Enabled(s, events[0]) && ValidRun(Next(s, events[0]), events[1..]))
  }

  function Run(s: State, events: seq<Event>): State
    requires ValidRun(s, events)
    decreases |events|
  {
    if events == [] then s else Run(Next(s, events[0]), events[1..])
  }

  /** The event starts a run of the handler for the key. */
  predicate StartsRun(s: State, e: Event, k: string) {
    e.Lookup? && e.key == k && !Hit(s.cache, k, e.now)
  }

  /** The event ends one, with a success. */
  predicate Succeeds(s: State, e: Event, k: string)
    requires Enabled(s, e)
  {
    e.Finish? && s.pending[e.req] == k && Idem.Success(e.answer)
  }

  /** The requests running the handler for the key. */
  function Running(s: State, k: string): set<Request> {
    set req | req in s.pending && s.pending[req] == k
  }

  /** How many handler runs for the key begin. */
  function Runs(s: State, events: seq<Event>, k: string): nat
    requires ValidRun(s, events)
    decreases |events|
  {
    if events == [] then 0 else (if StartsRun(s, events[0], k) then 1 else 0) + Runs(Next(s, events[0]), events[1..], k)
  }

  /** How many of them begin while another is running. */
  function Overlaps(s: State, events: seq<Event>, k: string): nat
    requires ValidRun(s, events)
    decreases |events|
  {
    if events == [] then 0
    else (if StartsRun(s, events[0], k) && Running(s, k) != {} then 1 else 0) + Overlaps(Next(s, events[0]), events[1..], k)
  }

  function Successes(s: State, events: seq<Event>, k: string): nat
    requires ValidRun(s, events)
    decreases |events|
  {
    if events == [] then 0 else (if Succeeds(s, events[0], k) then 1 else 0) + Successes(Next(s, events[0]), events[1..], k)
  }

  /** All events happen on one day, in any order. */
  predicate Within(events: seq<Event>, start: int) {
    forall e <- events :: start <= e.now < start + Idem.TTL_MS
  }

  /** An entry that outlives the day. */
  predicate Covered(s: State, k: string, start: int) {
    k in s.cache && start + Idem.TTL_MS <= s.cache[k].expiresAt
  }

  lemma WithinTail(events: seq<Event>, start: int)
    requires Within(events, start) && events != []
    ensures start <= events[0].now < start + Idem.TTL_MS && Within(events[1..], start)
  {
    assert events[0] in events;
  }

  lemma RunningStep(s: State, e: Event, k: string)
    requires Enabled(s, e)
    ensures Running(Next(s, e), k)
              == if StartsRun(s, e, k) then Running(s, k) + {e.req}
                 else if e.Finish? && s.pending[e.req] == k then Running(s, k) - {e.req}
                 else Running(s, k)
  {
  }

  /** An entry that covers the day stays, and no run begins. */
  lemma CoveredStep(s: State, e: Event, k: string, start: int)
    requires Enabled(s, e) && start <= e.now < start + Idem.TTL_MS
    requires Covered(s, k, start) || Succeeds(s, e, k)
    ensures Covered(Next(s, e), k, start)
    ensures Covered(s, k, start) ==> !StartsRun(s, e, k)
  {
  }

  // ----- Answers that may fail -----

  /** At every point of the run at most one request is running the handler or has succeeded
      with it; `done` counts the successes so far. */
  predicate AtMostOne(s: State, events: seq<Event>, k: string, done: nat)
    requires ValidRun(s, events)
    decreases |events|
  {
    && done + |Running(s, k)| <= 1
    && (events == [] || AtMostOne(Next(s, events[0]), events[1..], k, done + if Succeeds(s, events[0], k) then 1 else 0))
  }

  lemma {:induction false} AtMostOneUnlessOverlap(s: State, events: seq<Event>, k: string, done: nat, start: int)
    requires ValidRun(s, events) && Within(events, start)
    requires done + |Running(s, k)| <= 1 && (done > 0 ==> Covered(s, k, start))
    ensures AtMostOne(s, events, k, done) <==> Overlaps(s, events, k) == 0
    decreases |events|
  {
    if events != [] {
      var e, s' := events[0], Next(s, events[0]);
      WithinTail(events, start);
      RunningStep(s, e, k);
      if done > 0 || Succeeds(s, e, k) {
        CoveredStep(s, e, k, start);
      }
      if StartsRun(s, e, k) && Running(s, k) != {} {
        TwoRunning(s, e.req, k);
      } else {
        AtMostOneUnlessOverlap(s', events[1..], k, done + if Succeeds(s, e, k) then 1 else 0, start);
      }
    }
  }

  lemma TwoRunning(s: State, req: Request, k: string)
    requires Running(s, k) != {} && req !in s.pending
    ensures |Running(s, k) + {req}| >= 2
  {
  }

  /** On any one day, whatever the handlers answer, no request runs beside another of its
      key or after a success exactly when none is looked up in vain while another is
      running. */
  lemma ExclusiveExactly(s: State, events: seq<Event>, k: string, start: int)
    requires ValidRun(s, events) && Within(events, start) && Running(s, k) == {}
    ensures AtMostOne(s, events, k, 0) <==> Overlaps(s, events, k) == 0
  {
    AtMostOneUnlessOverlap(s, events, k, 0, start);
  }

  lemma {:induction false} SuccessesBounded(s: State, events: seq<Event>, k: string, done: nat)
    requires ValidRun(s, events) && AtMostOne(s, events, k, done)
    ensures done + Successes(s, events, k) <= 1
    decreases |events|
  {
    if events != [] {
      SuccessesBounded(Next(s, events[0]), events[1..], k, done + if Succeeds(s, events[0], k) then 1 else 0);
    }
  }

  /** Without an overlap the handler succeeds at most once a day. */
  lemma SucceedsOnceWithoutOverlap(s: State, events: seq<Event>, k: string, start: int)
    requires ValidRun(s, events) && Within(events, start) && Running(s, k) == {} && Overlaps(s, events, k) == 0
    ensures Successes(s, events, k) <= 1
  {
    ExclusiveExactly(s, events, k, start);
    SuccessesBounded(s, events, k, 0);
  }

  // ----- Answers that succeed -----

  predicate Succeeding(events: seq<Event>) {
    forall e <- events :: e.Finish? ==> Idem.Success(e.answer)
  }

  lemma {:induction false} OnceRunOnlyOverlaps(s: State, events: seq<Event>, k: string, start: int)
    requires ValidRun(s, events) && Within(events, start) && Succeeding(events)
    requires Running(s, k) != {} || Covered(s, k, start)
    ensures Runs(s, events, k) == Overlaps(s, events, k)
    decreases |events|
  {
    if events != [] {
      var e := events[0];
      assert e in events;
      WithinTail(events, start);
      RunningStep(s, e, k);
      if Covered(s, k, start) || Succeeds(s, e, k) {
        CoveredStep(s, e, k, start);
      }
      OnceRunOnlyOverlaps(Next(s, e), events[1..], k, start);
    }
  }

  /** Every run but the first begins while another is running. */
  lemma {:induction false} AllButFirstOverlap(s: State, events: seq<Event>, k: string, start: int)
    requires ValidRun(s, events) && Within(events, start) && Succeeding(events) && Running(s, k) == {}
    ensures var n := Runs(s, events, k);
            Overlaps(s, events, k) == if n == 0 then 0 else n - 1
    decreases |events|
  {
    if events != [] {
      var e := events[0];
      WithinTail(events, start);
      RunningStep(s, e, k);
      if StartsRun(s, e, k) {
        OnceRunOnlyOverlaps(Next(s, e), events[1..], k, start);
      } else {
        AllButFirstOverlap(Next(s, e), events[1..], k, start);
      }
    }
  }

  /** On any one day on which the handlers succeed, the handler of a key runs at most once
      exactly when no request of that key is looked up in vain while another is running. */
  lemma RunsOnceExactly(s: State, events: seq<Event>, k: string, start: int)
    requires ValidRun(s, events) && Within(events, start) && Succeeding(events) && Running(s, k) == {}
    ensures Runs(s, events, k) <= 1 <==> Overlaps(s, events, k) == 0
  {
    AllButFirstOverlap(s, events, k, start);
  }

  // ----- A double click -----

  lemma RunCons(s: State, e: Event, rest: seq<Event>, k: string)
    requires Enabled(s, e) && ValidRun(Next(s, e), rest)
    ensures ValidRun(s, [e] + rest) && Run(s, [e] + rest) == Run(Next(s, e), rest)
    ensures Successes(s, [e] + rest, k) == (if Succeeds(s, e, k) then 1 else 0) + Successes(Next(s, e), rest, k)
    ensures Runs(s, [e] + rest, k) == (if StartsRun(s, e, k) then 1 else 0) + Runs(Next(s, e), rest, k)
  {
  }

  function DoubleClick(t: Request, u: Request, k: string, answer: Idem.Response, other: Idem.Response, now: int): seq<Event> {
    [Lookup(u, k, now)] + ([Finish(t, answer, now)] + ([Finish(u, other, now)] + []))
  }

  /** The protection does not cover overlaps: whenever a second request of a key misses
      while one is running, both handlers can succeed, and the second answer replaces the
      first in the cache. */
  lemma OverlappingRequestsBothRun(s: State, t: Request, u: Request, k: string,
                                   answer: Idem.Response, other: Idem.Response, now: int)
    requires t in Running(s, k) && u !in s.pending && !Hit(s.cache, k, now)
    requires Idem.Success(answer) && Idem.Success(other)
    ensures var events := DoubleClick(t, u, k, answer, other, now);
            && ValidRun(s, events) && Successes(s, events, k) == 2
            && Run(s, events).cache == s.cache[k := Idem.Entry(other, now + Idem.TTL_MS)]
  {
    var look, first, second := Lookup(u, k, now), Finish(t, answer, now), Finish(u, other, now);
    var s1 := Next(s, look);
    var s2 := Next(s1, first);
    RunCons(s2, second, [], k);
    RunCons(s1, first, [second] + [], k);
    RunCons(s, look, [first] + ([second] + []), k);
  }

  // ----- An uninterrupted request -----

  function Alone(s: State, req: Request, k: string, answer: Idem.Response, now: int): seq<Event> {
    [Lookup(req, k, now)] + if Hit(s.cache, k, now) then [] else [Finish(req, answer, now)] + []
  }

  /** Uninterrupted, lookup and storing compose to the one step of the interceptor. */
  lemma RequestRunsAlone(s: State, req: Request, r: Idem.Request, answer: Idem.Response, now: int)
    requires Idem.Keyed(r) && req !in s.pending
    ensures var events, (cache, outcome) := Alone(s, req, Idem.CacheKey(r), answer, now), Idem.Next(s.cache, r, now, answer);
            && ValidRun(s, events) && Run(s, events) == State(cache, s.pending)
            && (outcome.Ran? <==> Runs(s, events, Idem.CacheKey(r)) == 1)
            && (outcome.Replayed? <==> Runs(s, events, Idem.CacheKey(r)) == 0)
  {
    var k := Idem.CacheKey(r);
    var look, finish := Lookup(req, k, now), Finish(req, answer, now);
    var s1 := Next(s, look);
    if Hit(s.cache, k, now) {
      RunCons(s, look, [], k);
    } else {
      assert Next(s1, finish).pending == s.pending;
      RunCons(s1, finish, [], k);
      RunCons(s, look, [finish] + [], k);
    }
  }
}
