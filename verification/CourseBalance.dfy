/**
 Lesson packages: the five-status machine on values, as the in-memory operations compute
 it, and the invariants of every run of it.

 Lesson counts and frozen days are integers; instants are milliseconds.
 */
module CourseBalance {
  import opened Common

  const LOW_BALANCE_THRESHOLD: int := 5
  const DAY_MS: int := 86_400_000

  datatype Status = Active | Expired | Depleted | Frozen | Refunded

  datatype CoursePackage = CoursePackage(id: string, totalLessons: int, validityMonths: int, active: bool)

  datatype StudentPackage = StudentPackage(
    id: string, studentId: string, coursePackageId: string,
    totalLessons: int, usedLessons: int, refundedLessons: int, remainingLessons: int,
    activatedAt: int, expiresAt: int, status: Status, lowBalanceAlerted: bool)

  datatype Error =
    | BadId | BadStudentId | NoLessons | PackageNotActive
    | NotDeductible(status: Status) | PackageDepleted
    | BadCount | RefundOverflow
    | NotFreezable(status: Status) | NotUnfreezable(status: Status) | BadFrozenDays
    | NotFound

  datatype Deduction = Deduction(updated: StudentPackage, lowBalanceAlertNow: bool)

  // ----- Operations -----

  function Activate(id: string, studentId: string, pkg: CoursePackage, now: int): Result<StudentPackage, Error> {
    if |id| != 32 then Err(BadId)
    else if |studentId| != 32 then Err(BadStudentId)
    else if pkg.totalLessons <= 0 then Err(NoLessons)
    else if !pkg.active then Err(PackageNotActive)
    else Ok(StudentPackage(id, studentId, pkg.id, pkg.totalLessons, 0, 0, pkg.totalLessons,
                           now, now + pkg.validityMonths * 30 * DAY_MS, Active, false))
  }

  function Deduct(p: StudentPackage): Result<Deduction, Error> {
    if p.status != Active then Err(NotDeductible(p.status))
    else if p.remainingLessons <= 0 then Err(PackageDepleted)
    else
      var used := p.usedLessons + 1;
      var remaining := p.totalLessons - used - p.refundedLessons;
      var alert := !p.lowBalanceAlerted && 0 < remaining <= LOW_BALANCE_THRESHOLD;
      Ok(Deduction(p.(usedLessons := used, remainingLessons := remaining,
                      status := if remaining == 0 then Depleted else p.status,
                      lowBalanceAlerted := if alert then true else p.lowBalanceAlerted), alert))
  }

  function Refund(p: StudentPackage, count: int): Result<StudentPackage, Error> {
    if count <= 0 then Err(BadCount)
    else if p.usedLessons + p.refundedLessons + count > p.totalLessons then Err(RefundOverflow)
    else
      var refunded := p.refundedLessons + count;
      var remaining := p.totalLessons - p.usedLessons - refunded;
      var status := if remaining == 0 && p.usedLessons > 0 then Depleted else p.status;
      Ok(p.(refundedLessons := refunded, remainingLessons := remaining,
            status := if remaining + p.usedLessons == 0 then Refunded else status))
  }

  function Freeze(p: StudentPackage): Result<StudentPackage, Error> {
    if p.status != Active then Err(NotFreezable(p.status)) else Ok(p.(status := Frozen))
  }

  function Unfreeze(p: StudentPackage, frozenDays: int): Result<StudentPackage, Error> {
    if p.status != Frozen then Err(NotUnfreezable(p.status))
    else if frozenDays < 0 then Err(BadFrozenDays)
    else Ok(p.(status := Active, expiresAt := p.expiresAt + frozenDays * DAY_MS))
  }

  /** One package under the daily expiry scan. */
  function Scan(p: StudentPackage, now: int): StudentPackage {
    if p.status == Active && p.expiresAt < now then p.(status := Expired) else p
  }

  datatype Reason = NoPackage | PackageFrozen | PackageRefunded | PackageIsDepleted | PackageExpired | NoRemainingLessons

  /** `None` when the package can be scheduled, else the reason it cannot. */
  function CheckSchedulable(p: Option<StudentPackage>, now: int): Option<Reason> {
    match p
    case None => Some(NoPackage)
    case Some(p) =>
      if p.status == Frozen then Some(PackageFrozen)
      else if p.status == Refunded then Some(PackageRefunded)
      else if p.status == Depleted then Some(PackageIsDepleted)
      else if p.status == Expired then Some(PackageExpired)
      else if p.expiresAt < now then Some(PackageExpired)
      else if p.remainingLessons <= 0 then Some(NoRemainingLessons)
      else None
  }

  // ----- The invariant -----

  predicate Inv(p: StudentPackage) {
    && 0 <= p.usedLessons && 0 <= p.refundedLessons && 0 < p.totalLessons
    && p.remainingLessons == p.totalLessons - p.usedLessons - p.refundedLessons
    && 0 <= p.remainingLessons
    && (p.remainingLessons == 0 <==> p.status == Depleted || p.status == Refunded)
    && (p.status == Refunded <==> p.remainingLessons == 0 && p.usedLessons == 0)
  }

  /** Nothing more can happen to the package. */
  predicate Terminal(p: StudentPackage) {
    p.status == Depleted || p.status == Refunded
  }

  datatype Op = OpDeduct | OpRefund(count: int) | OpFreeze | OpUnfreeze(days: int) | OpScan(now: int)

  /** The package after an operation; a refused operation leaves it as it was. */
  function Apply(p: StudentPackage, op: Op): (StudentPackage, bool) {
    match op
    case OpDeduct => (match Deduct(p) case Ok(d) => (d.updated, true) case Err(_) => (p, false))
    case OpRefund(n) => (match Refund(p, n) case Ok(q) => (q, true) case Err(_) => (p, false))
    case OpFreeze => (match Freeze(p) case Ok(q) => (q, true) case Err(_) => (p, false))
    case OpUnfreeze(days) => (match Unfreeze(p, days) case Ok(q) => (q, true) case Err(_) => (p, false))
    case OpScan(now) => (Scan(p, now), true)
  }

  /** What one operation adds to each account of the package. */
  datatype Tally = Tally(deducted: nat, refunded: nat, frozenDays: nat, alerts: nat)

  function Entry(p: StudentPackage, op: Op): Tally {
    var done := Apply(p, op).1;
    match op
    case OpDeduct => Tally(if done then 1 else 0, 0, 0, if done && Deduct(p).value.lowBalanceAlertNow then 1 else 0)
    case OpRefund(n) => Tally(0, if done && n > 0 then n else 0, 0, 0)
    case OpUnfreeze(days) => Tally(0, 0, if done && days >= 0 then days else 0, 0)
    case _ => Tally(0, 0, 0, 0)
  }

  function Add(a: Tally, b: Tally): Tally {
    Tally(a.deducted + b.deducted, a.refunded + b.refunded, a.frozenDays + b.frozenDays, a.alerts + b.alerts)
  }

  function Run(p: StudentPackage, ops: seq<Op>): (StudentPackage, Tally)
    decreases |ops|
  {
    if ops == [] then (p, Tally(0, 0, 0, 0))
    else
      var rest := Run(Apply(p, ops[0]).0, ops[1..]);
      (rest.0, Add(Entry(p, ops[0]), rest.1))
  }

  lemma ActivateEstablishes(id: string, studentId: string, pkg: CoursePackage, now: int)
    ensures var r := Activate(id, studentId, pkg, now);
            && (r.Ok? <==> |id| == 32 && |studentId| == 32 && pkg.totalLessons > 0 && pkg.active)
            && (r.Ok? ==> Inv(r.value) && r.value.status == Active && !r.value.lowBalanceAlerted
                          && r.value.id == id && r.value.studentId == studentId && r.value.coursePackageId == pkg.id
                          && r.value.remainingLessons == pkg.totalLessons && r.value.activatedAt == now
                          && r.value.expiresAt == now + pkg.validityMonths * 30 * DAY_MS)
  {
  }

  ghost predicate Conserved(p: StudentPackage, q: StudentPackage, t: Tally) {
    && q.usedLessons == p.usedLessons + t.deducted
    && q.refundedLessons == p.refundedLessons + t.refunded
    && q.remainingLessons + t.deducted + t.refunded == p.remainingLessons
    && q.totalLessons == p.totalLessons && q.activatedAt == p.activatedAt && q.id == p.id
    && q.studentId == p.studentId && q.coursePackageId == p.coursePackageId
    && q.lowBalanceAlerted == (p.lowBalanceAlerted || t.alerts > 0)
    && q.expiresAt == p.expiresAt + t.frozenDays * DAY_MS
  }

  lemma StepConserves(p: StudentPackage, op: Op)
    requires Inv(p)
    ensures Inv(Apply(p, op).0) && Conserved(p, Apply(p, op).0, Entry(p, op))
  {
  }

  /** Every run conserves the lessons, keeps the status in step with the balance, and
      moves the expiry by the frozen days alone. */
  lemma {:induction false} RunConserves(p: StudentPackage, ops: seq<Op>)
    requires Inv(p)
    ensures var (q, t) := Run(p, ops);
            Inv(q) && Conserved(p, q, t)
    decreases |ops|
  {
    if ops != [] {
      StepConserves(p, ops[0]);
      RunConserves(Apply(p, ops[0]).0, ops[1..]);
    }
  }

  /** The life of a package from its activation: expiry minus activation is the paid
      validity plus every frozen day. */
  lemma WholeLife(id: string, studentId: string, pkg: CoursePackage, now: int, ops: seq<Op>)
    requires Activate(id, studentId, pkg, now).Ok?
    ensures var (q, t) := Run(Activate(id, studentId, pkg, now).value, ops);
            && Inv(q)
            && q.remainingLessons == pkg.totalLessons - t.deducted - t.refunded
            && q.expiresAt - q.activatedAt == (pkg.validityMonths * 30 + t.frozenDays) * DAY_MS
            && t.alerts <= 1
  {
    var p := Activate(id, studentId, pkg, now).value;
    RunConserves(p, ops);
    AlertsOnce(p, ops);
  }

  lemma TerminalStep(p: StudentPackage, op: Op)
    requires Inv(p) && Terminal(p)
    ensures Apply(p, op).0 == p && Entry(p, op) == Tally(0, 0, 0, 0) && (!op.OpScan? ==> !Apply(p, op).1)
  {
  }

  /** A used-up package refuses everything and never changes again. */
  lemma {:induction false} TerminalForever(p: StudentPackage, ops: seq<Op>)
    requires Inv(p) && Terminal(p)
    ensures Run(p, ops) == (p, Tally(0, 0, 0, 0))
    ensures forall op <- ops :: !op.OpScan? ==> !Apply(p, op).1
    decreases |ops|
  {
    if ops != [] {
      TerminalStep(p, ops[0]);
      TerminalForever(p, ops[1..]);
    }
  }

  /** The check before scheduling passes exactly when the next deduction would succeed and
      the package has not run out by date; its last reason is unreachable. */
  lemma SchedulableMeansDeductible(p: StudentPackage, now: int)
    requires Inv(p)
    ensures CheckSchedulable(Some(p), now).None? <==> Deduct(p).Ok? && now <= p.expiresAt
    ensures CheckSchedulable(Some(p), now) == Some(PackageFrozen) <==> p.status == Frozen
    ensures CheckSchedulable(Some(p), now) == Some(PackageRefunded) <==> p.status == Refunded
    ensures CheckSchedulable(Some(p), now) == Some(PackageIsDepleted) <==> p.status == Depleted
    ensures CheckSchedulable(Some(p), now) == Some(PackageExpired) <==>
              p.status == Expired || (p.status == Active && p.expiresAt < now)
    ensures CheckSchedulable(None, now) == Some(NoPackage)
    ensures CheckSchedulable(Some(p), now) != Some(NoRemainingLessons)
    ensures Deduct(p) != Err(PackageDepleted)
  {
  }

  // ----- Frozen and expired packages -----

  /** A refund is accepted exactly for one lesson up to those that remain, in every status. */
  lemma RefundsWhatRemains(p: StudentPackage, count: int)
    requires Inv(p)
    ensures Refund(p, count).Ok? <==> 1 <= count <= p.remainingLessons
  {
  }

  /** Exactly active packages can be frozen and exactly frozen ones unfrozen; a freeze undone
      after `days` days leaves the package as it was, but expiring so much later. */
  lemma FreezeRoundTrip(p: StudentPackage, days: int)
    ensures Freeze(p).Ok? <==> p.status == Active
    ensures Unfreeze(p, days).Ok? <==> p.status == Frozen && 0 <= days
    ensures Freeze(p).Ok? ==> Freeze(p).value == p.(status := Frozen)
    ensures Freeze(p).Ok? && 0 <= days ==>
              Unfreeze(Freeze(p).value, days) == Ok(p.(expiresAt := p.expiresAt + days * DAY_MS))
  {
  }

  predicate NoUnfreeze(ops: seq<Op>) {
    forall op <- ops :: !op.OpUnfreeze?
  }

  /** Nothing but refunds happens between `p` and `q`. */
  predicate Rests(p: StudentPackage, q: StudentPackage, t: Tally) {
    && Inv(q) && q.usedLessons == p.usedLessons && q.expiresAt == p.expiresAt
    && t.deducted == t.frozenDays == t.alerts == 0
    && (q.status == p.status || Terminal(q))
  }

  lemma RestStep(p: StudentPackage, op: Op)
    requires Inv(p) && p.status != Active && (p.status == Frozen ==> !op.OpUnfreeze?)
    ensures Rests(p, Apply(p, op).0, Entry(p, op))
  {
    StepConserves(p, op);
  }

  /** A package that is neither active nor brought back by an unfreeze stays at rest: no
      lesson is taken, it does not expire, and nothing moves its expiry; only refunds go on. */
  lemma {:induction false} AtRest(p: StudentPackage, ops: seq<Op>)
    requires Inv(p) && p.status != Active && (p.status == Frozen ==> NoUnfreeze(ops))
    ensures Rests(p, Run(p, ops).0, Run(p, ops).1)
    decreases |ops|
  {
    if ops != [] {
      assert ops[0] in ops;
      RestStep(p, ops[0]);
      AtRest(Apply(p, ops[0]).0, ops[1..]);
    }
  }

  /** Frozen means frozen: from a successful freeze on and until an unfreeze, no deduction
      succeeds and no scan expires the package, whatever is tried. */
  lemma FrozenRests(p: StudentPackage, ops: seq<Op>)
    requires Inv(p) && Freeze(p).Ok? && NoUnfreeze(ops)
    ensures var (q, t) := Run(Freeze(p).value, ops);
            && t.deducted == 0 && q.usedLessons == p.usedLessons && q.expiresAt == p.expiresAt
            && (q.status == Frozen || Terminal(q))
  {
    AtRest(Freeze(p).value, ops);
  }

  /** The scan expires exactly the active packages whose date has passed and changes nothing
      else; from then on no lesson of theirs is taken. */
  lemma ScanExactly(p: StudentPackage, now: int, ops: seq<Op>)
    ensures Scan(p, now) == if p.status == Active && p.expiresAt < now then p.(status := Expired) else p
    ensures Inv(p) && p.status == Active && p.expiresAt < now ==>
              var (q, t) := Run(Scan(p, now), ops);
              t.deducted == 0 && (q.status == Expired || Terminal(q))
  {
    if Inv(p) && p.status == Active && p.expiresAt < now {
      AtRest(Scan(p, now), ops);
    }
  }

  // ----- Low-balance alerts -----

  lemma AlertStep(p: StudentPackage, op: Op)
    ensures Entry(p, op).alerts + (if Apply(p, op).0.lowBalanceAlerted then 0 else 1) == if p.lowBalanceAlerted then 0 else 1
  {
  }

  /** The alert is raised at most once in a run, and never after it was raised. */
  lemma {:induction false} AlertsOnce(p: StudentPackage, ops: seq<Op>)
    ensures Run(p, ops).1.alerts <= if p.lowBalanceAlerted then 0 else 1
    decreases |ops|
  {
    if ops != [] {
      AlertStep(p, ops[0]);
      AlertsOnce(Apply(p, ops[0]).0, ops[1..]);
    }
  }

  function Deductions(n: nat): seq<Op> {
    if n == 0 then [] else [OpDeduct] + Deductions(n - 1)
  }

  /** The alerts of `n` deductions in a row. */
  function AlertsOf(p: StudentPackage, n: nat): nat
    decreases n
  {
    if n == 0 then 0 else Entry(p, OpDeduct).alerts + AlertsOf(Apply(p, OpDeduct).0, n - 1)
  }

  lemma {:induction false} RunDeductions(p: StudentPackage, n: nat)
    ensures Run(p, Deductions(n)).1.alerts == AlertsOf(p, n)
    decreases n
  {
    if n > 0 {
      assert Deductions(n)[1..] == Deductions(n - 1);
      RunDeductions(Apply(p, OpDeduct).0, n - 1);
    }
  }

  /** The alert has been raised by the time `n` lessons of `remaining` are taken. */
  predicate AlertedAfter(remaining: int, n: nat) {
    n >= 1 && remaining >= 2 && remaining - n <= LOW_BALANCE_THRESHOLD
  }

  lemma {:induction false} AlertsOfDeductions(p: StudentPackage, n: nat)
    requires Inv(p) && p.status == Active && n <= p.remainingLessons
    ensures AlertsOf(p, n) == if !p.lowBalanceAlerted && AlertedAfter(p.remainingLessons, n) then 1 else 0
    decreases n
  {
    if n > 0 {
      var q := Apply(p, OpDeduct).0;
      DeductionStep(p);
      if n > 1 {
        AlertsOfDeductions(q, n - 1);
      } else {
        assert AlertsOf(q, 0) == 0;
      }
    }
  }

  /** Consumed by deductions alone, an untouched package raises its alert with the
      deduction that first leaves at most five lessons, and so exactly once if it has two
      lessons or more; a package of one lesson never raises it. */
  lemma AlertByDeductions(p: StudentPackage, n: nat)
    requires Inv(p) && p.status == Active && n <= p.remainingLessons
    ensures Run(p, Deductions(n)).1.alerts
              == if !p.lowBalanceAlerted && AlertedAfter(p.remainingLessons, n) then 1 else 0
  {
    RunDeductions(p, n);
    AlertsOfDeductions(p, n);
  }

  lemma DeductionStep(p: StudentPackage)
    requires Inv(p) && p.status == Active
    ensures var q, alert := Apply(p, OpDeduct).0, !p.lowBalanceAlerted && 1 <= p.remainingLessons - 1 <= LOW_BALANCE_THRESHOLD;
            && Inv(q) && q.remainingLessons == p.remainingLessons - 1
            && Entry(p, OpDeduct) == Tally(1, 0, 0, if alert then 1 else 0)
            && (q.remainingLessons > 0 ==> q.status == Active)
            && q.lowBalanceAlerted == (p.lowBalanceAlerted || alert)
  {
  }
}
