/**
 The subscription of a tenant: trial expiry by the nightly sweep, extension by payment,
 and the gate in front of write requests. Instants are milliseconds.
 */
module Subscription {
  import opened Common

  const YEAR_MS: int := 365 * 86_400_000

  datatype Status = Trial | Active | Expired | Archived | Frozen

  datatype Tenant = Tenant(status: Status, trialEndsAt: Option<int>, subscribedUntil: Option<int>)

  type Tenants = map<string, Tenant>

  function Max(a: int, b: int): int {
    if a < b then b else a
  }

  /** `GREATEST(COALESCE(subscribed_until, NOW()), NOW())` */
  function PeriodStart(t: Tenant, now: int): int {
    Max(if t.subscribedUntil.Some? then t.subscribedUntil.value else now, now)
  }

  function PaidTenant(t: Tenant, now: int): Tenant {
    t.(status := Active, subscribedUntil := Some(PeriodStart(t, now) + YEAR_MS))
  }

  predicate OverdueTrial(t: Tenant, now: int) {
    t.status == Trial && t.trialEndsAt.Some? && t.trialEndsAt.value < now
  }

  function SweptTenant(t: Tenant, now: int): Tenant {
    if OverdueTrial(t, now) then t.(status := Expired) else t
  }

  function Swept(ts: Tenants, now: int): Tenants {
    map id | id in ts :: SweptTenant(ts[id], now)
  }

  function Paid(ts: Tenants, id: string, now: int): Tenants {
    if id in ts then ts[id := PaidTenant(ts[id], now)] else ts
  }

  // ----- The three components -----

  /** A decrypted payment notice: its trade state and the tenant id it carries along. */
  datatype Notice = Notice(success: bool, attach: Option<string>)

  class TenantStore {
    var tenants: Tenants

    constructor (tenants: Tenants)
      ensures this.tenants == tenants
    {
      this.tenants := tenants;
    }

    /** The callback of a verified notice. Notices are not deduplicated. */
    method WxpayCallback(n: Notice, now: int)
      modifies this
      ensures tenants == if n.success && n.attach.Some? && |n.attach.value| == 32
                         then Paid(old(tenants), n.attach.value, now) else old(tenants)
    {
      if n.success {
        if n.attach.Some? && |n.attach.value| == 32 {
          var id := n.attach.value;
          if id in tenants {
            var t := tenants[id];
            var from := if t.subscribedUntil.Some? then t.subscribedUntil.value else now;
            tenants := tenants[id := t.(status := Active,
                                        subscribedUntil := Some((if from < now then now else from) + YEAR_MS))];
          }
        }
      }
    }

    /** The nightly sweep; the answer names the tenants it expired. */
    method ExpireOverdueTrials(now: int) returns (expired: set<string>)
      modifies this
      ensures tenants == Swept(old(tenants), now)
      ensures expired == set id | id in tenants && tenants[id] != old(tenants)[id]
    {
      expired := set id | id in tenants && OverdueTrial(tenants[id], now);
      tenants := map id | id in tenants :: if id in expired then tenants[id].(status := Expired) else tenants[id];
      assert tenants == Swept(old(tenants), now);
    }
  }

  datatype User = User(role: string, tenantId: Option<string>)

  datatype Verdict = Pass | Refused(status: Status)

  predicate IsPlatformRole(role: string) {
    role == "platform_admin" || role == "finance_admin"
  }

  predicate StartsWith(s: string, prefix: string) {
    prefix <= s
  }

  /** Payment, public and login paths stay open. */
  predicate Exempt(path: string) {
    StartsWith(path, "/api/checkout/") || StartsWith(path, "/api/public/") || StartsWith(path, "/api/auth/")
  }

  /** The gate before every request; `httpMethod` is upper case and `path` has no query. */
  function CanActivate(ts: Tenants, httpMethod: string, path: string, user: Option<User>): Verdict {
    if httpMethod == "GET" then Pass
    else if Exempt(path) then Pass
    else if user.None? || IsPlatformRole(user.value.role) then Pass
    else if user.value.tenantId.None? || user.value.tenantId.value == "" then Pass
    else if user.value.tenantId.value !in ts then Pass
    else
      var status := ts[user.value.tenantId.value].status;
      if status == Expired || status == Archived || status == Frozen then Refused(status) else Pass
  }

  /** Only a write can be refused, only outside the open paths, only to a user of a known
      tenant who is not of the platform, and then exactly when the tenant is expired,
      archived or frozen. */
  lemma GateExactly(ts: Tenants, httpMethod: string, path: string, user: Option<User>, status: Status)
    ensures CanActivate(ts, httpMethod, path, user) == Refused(status) <==>
              && httpMethod != "GET"
              && !("/api/checkout/" <= path) && !("/api/public/" <= path) && !("/api/auth/" <= path)
              && user.Some? && user.value.role != "platform_admin" && user.value.role != "finance_admin"
              && user.value.tenantId.Some? && user.value.tenantId.value != "" && user.value.tenantId.value in ts
              && ts[user.value.tenantId.value].status == status
              && (status == Expired || status == Archived || status == Frozen)
  {
  }

  // ----- Runs -----

  datatype Step = Payment(id: string, now: int) | Sweep(now: int)

  function Next(ts: Tenants, step: Step): Tenants {
    match step
    case Payment(id, now) => Paid(ts, id, now)
    case Sweep(now) => Swept(ts, now)
  }

  function Run(ts: Tenants, steps: seq<Step>): (r: Tenants)
    ensures r.Keys == ts.Keys
    decreases |steps|
  {
    if steps == [] then ts else Run(Next(ts, steps[0]), steps[1..])
  }

  /** A period bought at `paidAt`, from `start` up to but not including `end`. */
  datatype Period = Period(paidAt: int, start: int, end: int)

  function Bought(t: Tenant, now: int): Period {
    Period(now, PeriodStart(t, now), PeriodStart(t, now) + YEAR_MS)
  }

  /** The periods a tenant buys in a run, in order. */
  function Periods(ts: Tenants, steps: seq<Step>, id: string): seq<Period>
    decreases |steps|
  {
    if steps == [] then []
    else
      (if steps[0].Payment? && steps[0].id == id && id in ts
       then [Bought(ts[id], steps[0].now)] else [])
      + Periods(Next(ts, steps[0]), steps[1..], id)
  }

  ghost predicate Disjoint(ps: seq<Period>) {
    forall i, j | 0 <= i < j < |ps| :: ps[i].end <= ps[j].start
  }

  /** In every run, clocks in order or not, the periods a tenant buys are disjoint years,
      none starts before its payment, none before what was already paid for, and the
      subscription runs to the end of the last. */
  lemma {:induction false} PeriodsAddUp(ts: Tenants, steps: seq<Step>, id: string)
    requires id in ts
    ensures PeriodsFit(Periods(ts, steps, id), ts[id].subscribedUntil, Run(ts, steps)[id].subscribedUntil)
    decreases |steps|
  {
    if steps != [] {
      PeriodsAddUp(Next(ts, steps[0]), steps[1..], id);
      PeriodsUnfold(ts, steps, id);
      PeriodsFitStep(ts, steps[0], id, Periods(Next(ts, steps[0]), steps[1..], id), Run(ts, steps)[id].subscribedUntil);
    }
  }

  lemma PeriodsUnfold(ts: Tenants, steps: seq<Step>, id: string)
    requires id in ts && steps != []
    ensures var rest := Periods(Next(ts, steps[0]), steps[1..], id);
            Periods(ts, steps, id)
              == if steps[0].Payment? && steps[0].id == id then [Bought(ts[id], steps[0].now)] + rest else rest
  {
  }

  lemma PeriodsFitStep(ts: Tenants, step: Step, id: string, rest: seq<Period>, after: Option<int>)
    requires id in ts && PeriodsFit(rest, Next(ts, step)[id].subscribedUntil, after)
    ensures PeriodsFit(if step.Payment? && step.id == id then [Bought(ts[id], step.now)] + rest else rest,
                       ts[id].subscribedUntil, after)
  {
    if step.Payment? && step.id == id {
      PeriodsFitCons(Bought(ts[id], step.now), rest, ts[id].subscribedUntil, after);
    }
  }

  /** The period is a year that starts at its payment or later, and not before `before`. */
  predicate FullYear(p: Period, before: Option<int>) {
    p.end == p.start + YEAR_MS && p.paidAt <= p.start && (before.Some? ==> before.value <= p.start)
  }

  /** Disjoint years, one after the other, from what was paid for before to `after`. */
  ghost predicate PeriodsFit(ps: seq<Period>, before: Option<int>, after: Option<int>) {
    && Disjoint(ps)
    && (forall p <- ps :: FullYear(p, before))
    && after == if ps == [] then before else Some(ps[|ps| - 1].end)
  }

  lemma PeriodsFitCons(p: Period, ps: seq<Period>, before: Option<int>, after: Option<int>)
    requires PeriodsFit(ps, Some(p.end), after)
    requires FullYear(p, before)
    ensures PeriodsFit([p] + ps, before, after)
  {
    var qs := [p] + ps;
    forall i, j | 0 <= i < j < |qs|
      ensures qs[i].end <= qs[j].start
    {
      assert qs[j] == ps[j - 1] && ps[j - 1] in ps;
      assert FullYear(ps[j - 1], Some(p.end));
    }
    forall q | q in qs
      ensures FullYear(q, before)
    {
      assert q == p || FullYear(q, Some(p.end));
    }
  }

  /** Each year starts at its payment or at the end of the one before, whichever is later: no
      paid day is lost and none is given away. */
  ghost predicate Chained(ps: seq<Period>, before: Option<int>) {
    ps == [] ||
    (&& ps[0].start == (if before.Some? && ps[0].paidAt < before.value then before.value else ps[0].paidAt)
     && ps[0].end == ps[0].start + 365 * 86_400_000
     && Chained(ps[1..], Some(ps[0].end)))
  }

  /** The instants at which a tenant pays, in order. */
  function PaymentTimes(steps: seq<Step>, id: string): seq<int> {
    if steps == [] then []
    else (if steps[0].Payment? && steps[0].id == id then [steps[0].now] else []) + PaymentTimes(steps[1..], id)
  }

  function TimesPaid(ps: seq<Period>): seq<int> {
    if ps == [] then [] else [ps[0].paidAt] + TimesPaid(ps[1..])
  }

  /** In every run each payment of a tenant buys one year, chained to the ones before. */
  lemma {:induction false} PeriodsChain(ts: Tenants, steps: seq<Step>, id: string)
    requires id in ts
    ensures Chained(Periods(ts, steps, id), ts[id].subscribedUntil)
    ensures TimesPaid(Periods(ts, steps, id)) == PaymentTimes(steps, id)
    decreases |steps|
  {
    if steps != [] {
      var rest := Periods(Next(ts, steps[0]), steps[1..], id);
      PeriodsChain(Next(ts, steps[0]), steps[1..], id);
      PeriodsUnfold(ts, steps, id);
      if steps[0].Payment? && steps[0].id == id {
        ChainCons(Bought(ts[id], steps[0].now), rest, ts[id].subscribedUntil);
        assert Next(ts, steps[0])[id].subscribedUntil == Some(Bought(ts[id], steps[0].now).end);
      } else {
        assert Next(ts, steps[0])[id].subscribedUntil == ts[id].subscribedUntil;
        assert PaymentTimes(steps, id) == PaymentTimes(steps[1..], id);
      }
    }
  }

  lemma ChainCons(p: Period, ps: seq<Period>, before: Option<int>)
    requires Chained(ps, Some(p.end))
    requires p.start == if before.Some? && p.paidAt < before.value then before.value else p.paidAt
    requires p.end == p.start + 365 * 86_400_000
    ensures Chained([p] + ps, before) && TimesPaid([p] + ps) == [p.paidAt] + TimesPaid(ps)
  {
    assert ([p] + ps)[1..] == ps;
  }

  /** A payment activates the tenant that pays, whatever its status, keeps its trial date, and
      touches no other tenant. */
  lemma PaymentTouchesOne(ts: Tenants, id: string, now: int, other: string)
    requires other in ts
    ensures var ts' := Next(ts, Payment(id, now));
            && ts'.Keys == ts.Keys
            && (other != id ==> ts'[other] == ts[other])
            && (other == id ==> ts'[id].status == Active && ts'[id].trialEndsAt == ts[id].trialEndsAt)
  {
  }

  lemma {:induction false} YearsSpan(ps: seq<Period>)
    requires ps != [] && Disjoint(ps) && forall p <- ps :: FullYear(p, None)
    ensures ps[0].start + |ps| * YEAR_MS <= ps[|ps| - 1].end
    decreases |ps|
  {
    if |ps| > 1 {
      YearsSpan(ps[1..]);
      assert ps[0].end <= ps[1].start;
    }
    assert ps[0] in ps && FullYear(ps[0], None);
  }

  /** After `n` payments the subscription reaches at least `n` years past the start of the
      first, and past what was paid for before. */
  lemma YearsBought(ts: Tenants, steps: seq<Step>, id: string)
    requires id in ts && Periods(ts, steps, id) != []
    ensures var ps, end, before := Periods(ts, steps, id), Run(ts, steps)[id].subscribedUntil, ts[id].subscribedUntil;
            && end.Some?
            && ps[0].start + |ps| * YEAR_MS <= end.value
            && (before.Some? ==> before.value + |ps| * YEAR_MS <= end.value)
  {
    PeriodsAddUp(ts, steps, id);
    YearsSpan(Periods(ts, steps, id));
    assert Periods(ts, steps, id)[0] in Periods(ts, steps, id);
  }

  /** The first period starts no earlier than its payment. */
  lemma FirstPeriod(ts: Tenants, id: string, now: int, rest: seq<Step>)
    requires id in ts
    ensures var steps := [Payment(id, now)] + rest;
            && Run(ts, steps)[id].subscribedUntil.Some?
            && now + |Periods(ts, steps, id)| * YEAR_MS <= Run(ts, steps)[id].subscribedUntil.value
  {
    var steps := [Payment(id, now)] + rest;
    assert steps[1..] == rest;
    YearsBought(ts, steps, id);
  }

  /** A sweep changes exactly the trials whose end has passed, by their status alone, and the
      same sweep again, or an earlier one, changes nothing. */
  lemma SweepIsIdempotent(ts: Tenants, now: int, again: int)
    requires again <= now
    ensures Swept(Swept(ts, now), again) == Swept(ts, now) && Swept(ts, now).Keys == ts.Keys
    ensures forall id <- ts.Keys :: Swept(ts, now)[id]
              == if ts[id].status == Trial && ts[id].trialEndsAt.Some? && ts[id].trialEndsAt.value < now
                 then ts[id].(status := Expired) else ts[id]
  {
  }

  /** Once a tenant has paid, no payment and no sweep makes the gate refuse any of its
      requests again; the gate never looks at the end of the subscription. */
  lemma {:induction false} PaidTenantPasses(ts: Tenants, steps: seq<Step>, id: string, httpMethod: string, path: string, role: string)
    requires id in ts && ts[id].status == Active
    ensures id in Run(ts, steps) && Run(ts, steps)[id].status == Active
    ensures CanActivate(Run(ts, steps), httpMethod, path, Some(User(role, Some(id)))) == Pass
    decreases |steps|
  {
    if steps != [] {
      PaidTenantPasses(Next(ts, steps[0]), steps[1..], id, httpMethod, path, role);
    }
  }

  /** A payment always opens the gate, also for a tenant that was frozen or archived. */
  lemma PaymentOpensGate(ts: Tenants, steps: seq<Step>, id: string, now: int, httpMethod: string, path: string, role: string)
    requires id in ts
    ensures CanActivate(Run(Paid(ts, id, now), steps), httpMethod, path, Some(User(role, Some(id)))) == Pass
  {
    PaidTenantPasses(Paid(ts, id, now), steps, id, httpMethod, path, role);
  }

  /** Without a payment, a trial is refused a write exactly from the first sweep that finds
      it overdue. */
  lemma {:induction false} UnpaidTrial(ts: Tenants, steps: seq<Step>, id: string, httpMethod: string, path: string, role: string)
    requires id in ts && ts[id].status == Trial && id != "" && !IsPlatformRole(role)
    requires httpMethod != "GET" && !Exempt(path)
    requires forall s <- steps :: s.Sweep? || s.id != id
    ensures var overdue := ts[id].trialEndsAt.Some? && exists s <- steps :: s.Sweep? && ts[id].trialEndsAt.value < s.now;
            && id in Run(ts, steps)
            && CanActivate(Run(ts, steps), httpMethod, path, Some(User(role, Some(id))))
                 == if overdue then Refused(Expired) else Pass
    decreases |steps|
  {
    if steps != [] {
      var ts', rest := Next(ts, steps[0]), steps[1..];
      assert steps == [steps[0]] + rest && steps[0] in steps;
      if ts'[id].status == Trial {
        assert ts'[id] == ts[id];
        UnpaidTrial(ts', rest, id, httpMethod, path, role);
        assert forall s :: s in steps <==> s == steps[0] || s in rest;
      } else {
        var first := steps[0];
        assert first.Sweep? && OverdueTrial(ts[id], first.now);
        ExpiredStays(ts', rest, id);
      }
    }
  }

  lemma {:induction false} ExpiredStays(ts: Tenants, steps: seq<Step>, id: string)
    requires id in ts && ts[id].status == Expired
    requires forall s <- steps :: s.Sweep? || s.id != id
    ensures id in Run(ts, steps) && Run(ts, steps)[id].status == Expired
    decreases |steps|
  {
    if steps != [] {
      ExpiredStays(Next(ts, steps[0]), steps[1..], id);
    }
  }
}
