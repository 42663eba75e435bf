/**
 Lesson packages as stored rows: guarded updates, and the service calls built on them,
 related to the machine on values in `CourseBalance`.

 `remainingLessons` is a generated column: every write of a counter recomputes it.
 */
module StoredBalance {
  import opened Common
  import opened CourseBalance

  type Rows = map<string, StudentPackage>

  function Generated(p: StudentPackage): StudentPackage {
    p.(remainingLessons := p.totalLessons - p.usedLessons - p.refundedLessons)
  }

  /** What the table itself guarantees of a row. */
  predicate RowOk(p: StudentPackage) {
    p.remainingLessons == p.totalLessons - p.usedLessons - p.refundedLessons
  }

  ghost predicate TableOk(rows: Rows) {
    forall id <- rows.Keys :: rows[id].id == id && RowOk(rows[id])
  }

  // ----- Statements -----

  predicate Deductible(p: StudentPackage) {
    p.status == Active && p.totalLessons - p.usedLessons - p.refundedLessons > 0
  }

  /** The row after the transaction that takes one lesson. */
  function DeductedRow(p: StudentPackage): StudentPackage {
    var q := Generated(p.(usedLessons := p.usedLessons + 1));
    if q.remainingLessons == 0 then q.(status := Depleted) else q
  }

  predicate Refundable(p: StudentPackage, count: int) {
    p.usedLessons + p.refundedLessons + count <= p.totalLessons
  }

  function RefundedRow(p: StudentPackage, count: int): StudentPackage {
    Generated(p.(refundedLessons := p.refundedLessons + count))
  }

  class CoursePackageRepository {
    var rows: Rows

    constructor (rows: Rows)
      ensures this.rows == rows
    {
      this.rows := rows;
    }

    method FindStudentPackageById(id: string) returns (r: Option<StudentPackage>)
      ensures r == if id in rows then Some(rows[id]) else None
    {
      r := if id in rows then Some(rows[id]) else None;
    }

    method DeductOneLesson(id: string) returns (r: Result<StudentPackage, Error>)
      modifies this
      ensures if id in old(rows) && Deductible(old(rows)[id])
              then r == Ok(DeductedRow(old(rows)[id])) && rows == old(rows)[id := DeductedRow(old(rows)[id])]
              else r == Err(NotFound) && rows == old(rows)
    {
      if id !in rows || !Deductible(rows[id]) {
        return Err(NotFound);
      }
      rows := rows[id := Generated(rows[id].(usedLessons := rows[id].usedLessons + 1))];
      if rows[id].remainingLessons == 0 {
        rows := rows[id := rows[id].(status := Depleted)];
      }
      r := Ok(rows[id]);
    }

    method RefundLessons(id: string, count: int) returns (r: Result<StudentPackage, Error>)
      modifies this
      ensures if id in old(rows) && Refundable(old(rows)[id], count)
              then r == Ok(RefundedRow(old(rows)[id], count)) && rows == old(rows)[id := RefundedRow(old(rows)[id], count)]
              else r == Err(NotFound) && rows == old(rows)
    {
      if id !in rows || !Refundable(rows[id], count) {
        return Err(NotFound);
      }
      rows := rows[id := RefundedRow(rows[id], count)];
      r := Ok(rows[id]);
    }

    method SetStatus(id: string, status: Status) returns (r: Result<StudentPackage, Error>)
      modifies this
      ensures if id in old(rows)
              then r == Ok(old(rows)[id].(status := status)) && rows == old(rows)[id := old(rows)[id].(status := status)]
              else r == Err(NotFound) && rows == old(rows)
    {
      if id !in rows {
        return Err(NotFound);
      }
      rows := rows[id := rows[id].(status := status)];
      r := Ok(rows[id]);
    }

    method MarkLowBalanceAlerted(id: string)
      requires id in rows
      modifies this
      ensures rows == old(rows)[id := old(rows)[id].(lowBalanceAlerted := true)]
    {
      rows := rows[id := rows[id].(lowBalanceAlerted := true)];
    }

    method ExtendExpiry(id: string, days: int)
      requires id in rows
      modifies this
      ensures rows == old(rows)[id := old(rows)[id].(expiresAt := old(rows)[id].expiresAt + days * DAY_MS)]
    {
      rows := rows[id := rows[id].(expiresAt := rows[id].expiresAt + days * DAY_MS)];
    }
  }

  /** The refusals of a stored call carry other messages; only refusing or not is compared. */
  predicate SameVerdict<T, U>(r: Result<T, Error>, s: Result<U, Error>) {
    r.Ok? <==> s.Ok?
  }

  /** The answer of `SELECT … WHERE status = 'active' AND expires_at < $1 ORDER BY expires_at`. */
  ghost predicate ExpiredListing(found: seq<string>, rows: Rows, now: int) {
    && (forall id :: id in found <==> id in rows && rows[id].status == Active && rows[id].expiresAt < now)
    && (forall i, j | 0 <= i < j < |found| :: found[i] != found[j])
    && (forall i, j | 0 <= i < j < |found| && found[i] in rows && found[j] in rows ::
          rows[found[i]].expiresAt <= rows[found[j]].expiresAt)
  }

  class CourseBalanceService {
    const repo: CoursePackageRepository

    constructor (repo: CoursePackageRepository)
      ensures this.repo == repo
    {
      this.repo := repo;
    }

    /** Uninterrupted, the stored deduction is the deduction on the value: it refuses the
        same packages and leaves the same row and the same alert. */
    method DeductOnConsumptionInDb(id: string) returns (r: Result<Deduction, Error>)
      requires TableOk(repo.rows)
      modifies repo
      ensures id !in old(repo.rows) ==> r == Err(NotFound) && repo.rows == old(repo.rows)
      ensures id in old(repo.rows) ==> SameVerdict(r, Deduct(old(repo.rows)[id]))
      ensures r.Ok? ==> r == Deduct(old(repo.rows)[id]) && repo.rows == old(repo.rows)[id := r.value.updated]
      ensures r.Err? ==> repo.rows == old(repo.rows)
    {
      var deducted := repo.DeductOneLesson(id);
      if deducted.Err? {
        return Err(deducted.error);
      }
      var updated := deducted.value;
      var alert := !updated.lowBalanceAlerted && 0 < updated.remainingLessons <= LOW_BALANCE_THRESHOLD;
      if alert {
        repo.MarkLowBalanceAlerted(id);
        return Ok(Deduction(updated.(lowBalanceAlerted := true), true));
      }
      r := Ok(Deduction(updated, false));
    }

    /** The stored refund refuses what the refund on the value refuses and moves the same
        counters; it never moves the status. */
    method RefundLessonsInDb(id: string, count: int) returns (r: Result<StudentPackage, Error>)
      requires TableOk(repo.rows)
      modifies repo
      ensures id !in old(repo.rows) ==> r.Err? && repo.rows == old(repo.rows)
      ensures id in old(repo.rows) ==> SameVerdict(r, Refund(old(repo.rows)[id], count))
      ensures r.Ok? ==> && r.value == Refund(old(repo.rows)[id], count).value.(status := old(repo.rows)[id].status)
                        && repo.rows == old(repo.rows)[id := r.value]
      ensures r.Err? ==> repo.rows == old(repo.rows)
    {
      if count <= 0 {
        return Err(BadCount);
      }
      r := repo.RefundLessons(id, count);
    }

    method FreezeInDb(id: string) returns (r: Result<StudentPackage, Error>)
      modifies repo
      ensures r == if id in old(repo.rows) then Freeze(old(repo.rows)[id]) else Err(NotFound)
      ensures r.Ok? <==> id in old(repo.rows) && old(repo.rows)[id].status == Active
      ensures repo.rows == if r.Ok? then old(repo.rows)[id := old(repo.rows)[id].(status := Frozen)] else old(repo.rows)
    {
      var existing := repo.FindStudentPackageById(id);
      if existing.None? {
        return Err(NotFound);
      }
      var frozen := Freeze(existing.value);
      if frozen.Err? {
        return frozen;
      }
      r := repo.SetStatus(id, Frozen);
    }

    method UnfreezeInDb(id: string, frozenDays: int) returns (r: Result<StudentPackage, Error>)
      modifies repo
      ensures id !in old(repo.rows) ==> r.Err?
      ensures id in old(repo.rows) ==> SameVerdict(r, Unfreeze(old(repo.rows)[id], frozenDays))
      ensures r.Ok? <==> id in old(repo.rows) && old(repo.rows)[id].status == Frozen && 0 <= frozenDays
      ensures r.Ok? ==> r == Unfreeze(old(repo.rows)[id], frozenDays) && repo.rows == old(repo.rows)[id := r.value]
      ensures r.Ok? ==> r.value == old(repo.rows)[id].(status := Active,
                                                       expiresAt := old(repo.rows)[id].expiresAt + frozenDays * DAY_MS)
      ensures r.Err? ==> repo.rows == old(repo.rows)
    {
      if frozenDays < 0 {
        return Err(BadFrozenDays);
      }
      var existing := repo.FindStudentPackageById(id);
      if existing.None? {
        return Err(NotFound);
      }
      var unfrozen := Unfreeze(existing.value, frozenDays);
      if unfrozen.Err? {
        return unfrozen;
      }
      repo.ExtendExpiry(id, frozenDays);
      r := repo.SetStatus(id, Active);
    }

    /** The nightly scan, given what its query found: every row ends as the scan on values
        leaves it, and exactly the rows that changed are reported. */
    method ScanExpiredInDb(found: seq<string>, now: int) returns (expired: nat, ids: seq<string>)
      requires ExpiredListing(found, repo.rows, now)
      modifies repo
      ensures repo.rows == map id | id in old(repo.rows) :: Scan(old(repo.rows)[id], now)
      ensures expired == |ids| && ids == found
      ensures forall id <- repo.rows.Keys :: id in ids <==> repo.rows[id] != old(repo.rows)[id]
    {
      ids := [];
      for i := 0 to |found|
        invariant ids == found[..i]
        invariant repo.rows.Keys == old(repo.rows).Keys
        invariant forall id <- repo.rows.Keys ::
                    repo.rows[id] == if id in found[..i] then Scan(old(repo.rows)[id], now) else old(repo.rows)[id]
      {
        assert found[i] in found;
        assert found[..i + 1] == found[..i] + [found[i]];
        var r := repo.SetStatus(found[i], Expired);
        if r.Ok? {
          ids := ids + [found[i]];
        }
      }
      expired := |ids|;
      assert found[..|found|] == found;
    }
  }

  // ----- Where the stored refund and the refund on the value part -----

  /** The two refunds leave the same row exactly when lessons remain afterwards. Otherwise
      the stored row stays in its old status with nothing left, deductions are refused all
      the same, and the check before scheduling still finds the balance empty. */
  lemma StoredRefundAgrees(p: StudentPackage, count: int, now: int)
    requires Inv(p) && Refund(p, count).Ok?
    ensures RefundedRow(p, count) == Refund(p, count).value <==> count < p.remainingLessons
    ensures count == p.remainingLessons ==>
              && !Deductible(RefundedRow(p, count)) && !Inv(RefundedRow(p, count))
              && CheckSchedulable(Some(RefundedRow(p, count)), now) != None
  {
  }

  // ----- Any interleaving of statements on one row -----

  /** The statements the stored calls are made of. Status writes are not guarded, so any
      status may be written at any time. */
  datatype Stmt =
    | DeductTx | RefundStmt(count: int) | StatusStmt(status: Status) | MarkStmt | ExtendStmt(days: int)

  function Execute(p: StudentPackage, s: Stmt): (StudentPackage, bool) {
    match s
    case DeductTx => if Deductible(p) then (DeductedRow(p), true) else (p, false)
    case RefundStmt(n) => if n > 0 && Refundable(p, n) then (RefundedRow(p, n), true) else (p, false)
    case StatusStmt(st) => (p.(status := st), true)
    case MarkStmt => (p.(lowBalanceAlerted := true), true)
    case ExtendStmt(days) => (p.(expiresAt := p.expiresAt + days * DAY_MS), true)
  }

  /** The service raises an alert on the row a deduction returned. */
  predicate RaisesAlert(p: StudentPackage, s: Stmt) {
    s == DeductTx && Deductible(p) && !p.lowBalanceAlerted && 0 < DeductedRow(p).remainingLessons <= LOW_BALANCE_THRESHOLD
  }

  datatype Totals = Totals(deducted: nat, refunded: nat, alerts: nat)

  function RunStmts(p: StudentPackage, stmts: seq<Stmt>): (StudentPackage, Totals)
    decreases |stmts|
  {
    if stmts == [] then (p, Totals(0, 0, 0))
    else
      var (q, done) := Execute(p, stmts[0]);
      var (r, t) := RunStmts(q, stmts[1..]);
      (r, Totals(t.deducted + (if stmts[0].DeductTx? && done then 1 else 0),
                 t.refunded + (if stmts[0].RefundStmt? && done && stmts[0].count > 0 then stmts[0].count else 0),
                 t.alerts + (if RaisesAlert(p, stmts[0]) then 1 else 0)))
  }

  predicate Balanced(p: StudentPackage) {
    RowOk(p) && 0 <= p.usedLessons && 0 <= p.refundedLessons && p.usedLessons + p.refundedLessons <= p.totalLessons
  }

  /** No interleaving of deductions, refunds, freezes, unfreezes and scans oversells a
      package: each successful deduction and refund is booked once, and together they
      never exceed what there was. */
  lemma {:induction false} NeverOversold(p: StudentPackage, stmts: seq<Stmt>)
    requires Balanced(p)
    ensures var (q, t) := RunStmts(p, stmts);
            && Balanced(q)
            && q.usedLessons == p.usedLessons + t.deducted
            && q.refundedLessons == p.refundedLessons + t.refunded
            && t.deducted + t.refunded <= p.remainingLessons
            && q.totalLessons == p.totalLessons
    decreases |stmts|
  {
    if stmts != [] {
      NeverOversold(Execute(p, stmts[0]).0, stmts[1..]);
    }
  }

  // ----- When the alert is raised once -----

  /** The statements before the first mark. */
  function BeforeMark(stmts: seq<Stmt>): seq<Stmt> {
    if stmts == [] || stmts[0].MarkStmt? then [] else [stmts[0]] + BeforeMark(stmts[1..])
  }

  /** The deduction takes a lesson and leaves one to five, whatever the alert flag says. */
  predicate RunsLow(p: StudentPackage, s: Stmt) {
    s.DeductTx? && Deductible(p) && 0 < DeductedRow(p).remainingLessons <= LOW_BALANCE_THRESHOLD
  }

  function LowDeductions(p: StudentPackage, stmts: seq<Stmt>): nat
    decreases |stmts|
  {
    if stmts == [] then 0
    else (if RunsLow(p, stmts[0]) then 1 else 0) + LowDeductions(Execute(p, stmts[0]).0, stmts[1..])
  }

  lemma {:induction false} AlertedStaysSilent(p: StudentPackage, stmts: seq<Stmt>)
    requires p.lowBalanceAlerted
    ensures RunStmts(p, stmts).1.alerts == 0
    decreases |stmts|
  {
    if stmts != [] {
      AlertedStaysSilent(Execute(p, stmts[0]).0, stmts[1..]);
    }
  }

  /** Under every interleaving a package that is not yet marked raises exactly one alert for
      each deduction that leaves it low before its first mark. It raises at most one exactly
      when at most one such deduction gets in before the mark. */
  lemma {:induction false} AlertsExactly(p: StudentPackage, stmts: seq<Stmt>)
    ensures RunStmts(p, stmts).1.alerts == if p.lowBalanceAlerted then 0 else LowDeductions(p, BeforeMark(stmts))
    decreases |stmts|
  {
    if p.lowBalanceAlerted {
      AlertedStaysSilent(p, stmts);
    } else if stmts != [] {
      var q := Execute(p, stmts[0]).0;
      if stmts[0].MarkStmt? {
        AlertedStaysSilent(q, stmts[1..]);
      } else {
        AlertsExactly(q, stmts[1..]);
        assert BeforeMark(stmts)[0] == stmts[0] && BeforeMark(stmts)[1..] == BeforeMark(stmts[1..]);
      }
    }
  }

  /** Between a deduction and its mark another deduction sees the old flag: interleaved, a
      package with three to six lessons left raises its alert twice. */
  lemma InterleavedAlertsTwice(p: StudentPackage)
    requires Balanced(p) && p.status == Active && !p.lowBalanceAlerted && 3 <= p.remainingLessons <= 6
    ensures RunStmts(p, [DeductTx, DeductTx, MarkStmt, MarkStmt]).1.alerts == 2
  {
  }

  // ----- When depletion is final -----

  /** The row is depleted at every point of the run. */
  predicate StaysDepleted(p: StudentPackage, stmts: seq<Stmt>)
    decreases |stmts|
  {
    p.status == Depleted && (stmts == [] || StaysDepleted(Execute(p, stmts[0]).0, stmts[1..]))
  }

  /** A depleted row stays depleted through a run of statements exactly when none of them
      writes another status. */
  lemma {:induction false} DepletedUntilWritten(p: StudentPackage, stmts: seq<Stmt>)
    requires p.status == Depleted
    ensures StaysDepleted(p, stmts) <==> forall s <- stmts :: s.StatusStmt? ==> s.status == Depleted
    decreases |stmts|
  {
    if stmts != [] {
      assert forall s :: s in stmts <==> s == stmts[0] || s in stmts[1..];
      if Execute(p, stmts[0]).0.status == Depleted {
        DepletedUntilWritten(Execute(p, stmts[0]).0, stmts[1..]);
      } else {
        assert stmts[0] in stmts;
      }
    }
  }

  // A freeze, an unfreeze and the scan check the status they read, and write another one
  // later, unguarded; an unfreeze extends the expiry in between.

  type Request = nat

  /** What a call still has to do: write a status, and before that extend the expiry. */
  datatype Call = Call(status: Status, extension: Option<int>)

  datatype State = State(row: StudentPackage, pending: map<Request, Call>)

  datatype Event =
    | ReadStatus(req: Request, op: Op)  // the read and the check of a freeze, an unfreeze or a scan
    | ExtendRow(req: Request)           // the extension of an unfreeze
    | WriteStatus(req: Request)         // the status write
    | Other(stmt: Stmt)                 // a deduction, a refund or a mark

  /** What a call does after it read the row `p`, or `None` if its check refuses. */
  function Intends(p: StudentPackage, op: Op): Option<Call> {
    if (op.OpFreeze? || op.OpUnfreeze? || op.OpScan?) && Apply(p, op).1 && Apply(p, op).0.status != p.status
    then Some(Call(Apply(p, op).0.status, if op.OpUnfreeze? then Some(op.days) else None)) else None
  }

  predicate Possible(s: State, e: Event) {
    match e
    case ReadStatus(req, _) => req !in s.pending
    case ExtendRow(req) => req in s.pending && s.pending[req].extension.Some?
    case WriteStatus(req) => req in s.pending && s.pending[req].extension.None?
    case Other(stmt) => stmt.DeductTx? || stmt.RefundStmt? || stmt.MarkStmt?
  }

  /** The statement on the row that an event executes, if it is not a read. */
  function Statement(s: State, e: Event): seq<Stmt>
    requires Possible(s, e)
  {
    match e
    case ReadStatus(_, _) => []
    case ExtendRow(req) => [ExtendStmt(s.pending[req].extension.value)]
    case WriteStatus(req) => [StatusStmt(s.pending[req].status)]
    case Other(stmt) => [stmt]
  }

  function PendingAfter(s: State, e: Event): map<Request, Call>
    requires Possible(s, e)
  {
    match e
    case ReadStatus(req, op) =>
      if Intends(s.row, op).Some? then s.pending[req := Intends(s.row, op).value] else s.pending
    case ExtendRow(req) => s.pending[req := s.pending[req].(extension := None)]
    case WriteStatus(req) => s.pending - {req}
    case Other(_) => s.pending
  }

  function After(s: State, e: Event): State
    requires Possible(s, e)
  {
    var stmts := Statement(s, e);
    State(if stmts == [] then s.row else Execute(s.row, stmts[0]).0, PendingAfter(s, e))
  }

  predicate ValidEvents(s: State, events: seq<Event>)
    decreases |events|
  {
    events == [] || (Possible(s, events[0]) && ValidEvents(After(s, events[0]), events[1..]))
  }

  function RunEvents(s: State, events: seq<Event>): State
    requires ValidEvents(s, events)
    decreases |events|
  {
    if events == [] then s else RunEvents(After(s, events[0]), events[1..])
  }

  /** The statements on the row that the events amount to. */
  function Statements(s: State, events: seq<Event>): seq<Stmt>
    requires ValidEvents(s, events)
    decreases |events|
  {
    if events == [] then [] else Statement(s, events[0]) + Statements(After(s, events[0]), events[1..])
  }

  lemma StatementsUnfold(s: State, events: seq<Event>)
    requires events != [] && ValidEvents(s, events)
    ensures var rest := Statements(After(s, events[0]), events[1..]);
            if events[0].ReadStatus? then Statements(s, events) == rest
            else Statements(s, events) != [] && Statements(s, events)[0] == Statement(s, events[0])[0]
                 && Statements(s, events)[1..] == rest
  {
  }

  /** Every interleaving of stored calls is a run of statements, so what holds of those
      holds of it. */
  lemma {:induction false} EventsAreStatements(s: State, events: seq<Event>)
    requires ValidEvents(s, events)
    ensures RunEvents(s, events).row == RunStmts(s.row, Statements(s, events)).0
    decreases |events|
  {
    if events != [] {
      StatementsUnfold(s, events);
      EventsAreStatements(After(s, events[0]), events[1..]);
    }
  }

  /** The events of one freeze, unfreeze or scan that nothing interrupts. */
  function EventsAlone(p: StudentPackage, req: Request, op: Op): seq<Event> {
    [ReadStatus(req, op)] +
      if Intends(p, op).None? then []
      else if Intends(p, op).value.extension.Some? then [ExtendRow(req)] + ([WriteStatus(req)] + [])
      else [WriteStatus(req)] + []
  }

  /** Uninterrupted, they compose to the call. */
  lemma CallEventsRunAlone(s: State, req: Request, op: Op)
    requires req !in s.pending && (op.OpFreeze? || op.OpUnfreeze? || op.OpScan?)
    ensures var events := EventsAlone(s.row, req, op);
            ValidEvents(s, events) && RunEvents(s, events) == State(ApplyAlone(s.row, op), s.pending)
  {
    var events := EventsAlone(s.row, req, op);
    var s1 := After(s, ReadStatus(req, op));
    if Intends(s.row, op).Some? {
      if Intends(s.row, op).value.extension.Some? {
        var s2 := After(s1, ExtendRow(req));
        assert After(s2, WriteStatus(req)).pending == s.pending;
        RunEventsCons(s2, WriteStatus(req), []);
        RunEventsCons(s1, ExtendRow(req), [WriteStatus(req)] + []);
      } else {
        assert After(s1, WriteStatus(req)).pending == s.pending;
        RunEventsCons(s1, WriteStatus(req), []);
      }
    }
    RunEventsCons(s, ReadStatus(req, op), events[1..]);
  }

  /** No call intends to write `Depleted`. */
  predicate Honest(s: State) {
    forall req <- s.pending.Keys :: s.pending[req].status != Depleted
  }

  /** While the row is depleted, every check refuses. */
  lemma HonestStep(s: State, e: Event)
    requires Honest(s) && Possible(s, e)
    ensures Honest(After(s, e))
    ensures s.row.status == Depleted && !e.WriteStatus? ==>
              After(s, e).pending.Keys == s.pending.Keys && After(s, e).row.status == Depleted
  {
  }

  lemma {:induction false} DepletedUntilStaleWrite(s: State, events: seq<Event>)
    requires Honest(s) && s.row.status == Depleted && ValidEvents(s, events)
    ensures StaysDepleted(s.row, Statements(s, events)) <==> forall req <- s.pending.Keys :: WriteStatus(req) !in events
    decreases |events|
  {
    if events != [] {
      var e, rest := events[0], events[1..];
      assert forall x :: x in events <==> x == e || x in rest;
      HonestStep(s, e);
      StatementsUnfold(s, events);
      if e.WriteStatus? {
        assert e in events;
      } else {
        DepletedUntilStaleWrite(After(s, e), rest);
      }
    }
  }

  /** Under every interleaving of stored calls, a package whose last lesson has just been
      taken stays depleted exactly as long as no freeze, unfreeze or scan that read the row
      before that deduction writes after it. */
  lemma DepletionIsFinalExactly(s: State, events: seq<Event>)
    requires Honest(s) && Deductible(s.row) && s.row.remainingLessons == 1 && RowOk(s.row)
    requires ValidEvents(After(s, Other(DeductTx)), events)
    ensures var s' := After(s, Other(DeductTx));
            StaysDepleted(s'.row, Statements(s', events)) <==> forall req <- s.pending.Keys :: WriteStatus(req) !in events
  {
    DepletedUntilStaleWrite(After(s, Other(DeductTx)), events);
  }

  /** A freeze that read an active package just before its last lesson was taken brings the
      depleted package back out of its final status, with nothing left on it. */
  lemma FreezeRevivesDepleted(p: StudentPackage)
    requires Inv(p) && p.remainingLessons == 1 && Freeze(p).Ok?
    ensures var q := RunStmts(p, [DeductTx, StatusStmt(Frozen)]).0;
            q.status == Frozen && q.remainingLessons == 0 && Balanced(q) && !Inv(q)
            && !Deductible(Execute(q, StatusStmt(Active)).0)
  {
  }

  // ----- How far the expiry moves -----

  /** The days of the extensions executed. */
  function DaysExtended(stmts: seq<Stmt>): int {
    if stmts == [] then 0 else (if stmts[0].ExtendStmt? then stmts[0].days else 0) + DaysExtended(stmts[1..])
  }

  /** Under every interleaving of statements the expiry moves by exactly the extensions
      executed. */
  lemma {:induction false} ExpiryMovesByExtensions(p: StudentPackage, stmts: seq<Stmt>)
    ensures RunStmts(p, stmts).0.expiresAt == p.expiresAt + DaysExtended(stmts) * DAY_MS
    decreases |stmts|
  {
    if stmts != [] {
      ExpiryMovesByExtensions(Execute(p, stmts[0]).0, stmts[1..]);
    }
  }

  /** The requests in the middle of an unfreeze. */
  function Unfreezing(s: State): set<Request> {
    set req | req in s.pending && s.pending[req].status == Active
  }

  /** The event is the read of an unfreeze that passes its check. */
  predicate BeginsUnfreeze(s: State, e: Event) {
    e.ReadStatus? && Intends(s.row, e.op).Some? && Intends(s.row, e.op).value.status == Active
  }

  /** How many unfreezes pass their check. */
  function Unfreezes(s: State, events: seq<Event>): nat
    requires ValidEvents(s, events)
    decreases |events|
  {
    if events == [] then 0 else (if BeginsUnfreeze(s, events[0]) then 1 else 0) + Unfreezes(After(s, events[0]), events[1..])
  }

  /** How many of them while another is between its read and its status write. */
  function OverlappingUnfreezes(s: State, events: seq<Event>): nat
    requires ValidEvents(s, events)
    decreases |events|
  {
    if events == [] then 0
    else (if BeginsUnfreeze(s, events[0]) && Unfreezing(s) != {} then 1 else 0)
         + OverlappingUnfreezes(After(s, events[0]), events[1..])
  }

  /** No freeze is under way and none begins, so a frozen package was frozen once. */
  predicate NoFreeze(s: State, events: seq<Event>) {
    && (forall req <- s.pending.Keys :: s.pending[req].status != Frozen)
    && (forall e <- events :: e.ReadStatus? ==> !e.op.OpFreeze?)
  }

  lemma UnfreezingStep(s: State, e: Event)
    requires Possible(s, e)
    ensures Unfreezing(After(s, e))
              == if BeginsUnfreeze(s, e) then Unfreezing(s) + {e.req}
                 else if e.WriteStatus? && s.pending[e.req].status == Active then Unfreezing(s) - {e.req}
                 else Unfreezing(s)
  {
  }

  lemma NoFreezeStep(s: State, events: seq<Event>)
    requires events != [] && Possible(s, events[0]) && NoFreeze(s, events)
    ensures NoFreeze(After(s, events[0]), events[1..])
    ensures s.row.status != Frozen ==> After(s, events[0]).row.status != Frozen
    ensures BeginsUnfreeze(s, events[0]) ==> s.row.status == Frozen
    ensures events[0].WriteStatus? ==> After(s, events[0]).row.status != Frozen
  {
    assert events[0] in events;
  }

  lemma {:induction false} OnceUnfrozenOnlyOverlaps(s: State, events: seq<Event>)
    requires ValidEvents(s, events) && NoFreeze(s, events) && (Unfreezing(s) != {} || s.row.status != Frozen)
    ensures Unfreezes(s, events) == OverlappingUnfreezes(s, events)
    decreases |events|
  {
    if events != [] {
      NoFreezeStep(s, events);
      UnfreezingStep(s, events[0]);
      OnceUnfrozenOnlyOverlaps(After(s, events[0]), events[1..]);
    }
  }

  lemma {:induction false} AllButFirstUnfreezeOverlap(s: State, events: seq<Event>)
    requires ValidEvents(s, events) && NoFreeze(s, events) && Unfreezing(s) == {}
    ensures var n := Unfreezes(s, events);
            OverlappingUnfreezes(s, events) == if n == 0 then 0 else n - 1
    decreases |events|
  {
    if events != [] {
      NoFreezeStep(s, events);
      UnfreezingStep(s, events[0]);
      if BeginsUnfreeze(s, events[0]) {
        OnceUnfrozenOnlyOverlaps(After(s, events[0]), events[1..]);
      } else {
        AllButFirstUnfreezeOverlap(After(s, events[0]), events[1..]);
      }
    }
  }

  /** One freeze is undone, and so extended, at most once exactly when no unfreeze reads the
      package while another is between its read and its status write. */
  lemma UnfrozenOnceExactly(s: State, events: seq<Event>)
    requires ValidEvents(s, events) && NoFreeze(s, events) && Unfreezing(s) == {}
    ensures Unfreezes(s, events) <= 1 <==> OverlappingUnfreezes(s, events) == 0
  {
    AllButFirstUnfreezeOverlap(s, events);
  }

  /** The days that the unfreezes under way have still to add. */
  function DaysDue(s: State): set<Request> {
    set req | req in s.pending && s.pending[req].extension.Some?
  }

  function Extensions(events: seq<Event>): nat {
    if events == [] then 0 else (if events[0].ExtendRow? then 1 else 0) + Extensions(events[1..])
  }

  lemma DaysDueStep(s: State, e: Event)
    requires Possible(s, e)
    ensures DaysDue(After(s, e))
              == if e.ReadStatus? && Intends(s.row, e.op).Some? && e.op.OpUnfreeze? then DaysDue(s) + {e.req}
                 else if e.ExtendRow? then DaysDue(s) - {e.req}
                 else DaysDue(s)
    ensures e.ReadStatus? && Intends(s.row, e.op).Some? && e.op.OpUnfreeze? <==> BeginsUnfreeze(s, e)
  {
  }

  /** Each unfreeze that passes its check extends the expiry once or still has to. */
  lemma {:induction false} ExtensionsAccounted(s: State, events: seq<Event>)
    requires ValidEvents(s, events)
    ensures Extensions(events) + |DaysDue(RunEvents(s, events))| == Unfreezes(s, events) + |DaysDue(s)|
    decreases |events|
  {
    if events != [] {
      DaysDueStep(s, events[0]);
      ExtensionsAccounted(After(s, events[0]), events[1..]);
    }
  }

  /** Without such an overlap one freeze moves the expiry at most once. */
  lemma ExtendedOnceWithoutOverlap(s: State, events: seq<Event>)
    requires ValidEvents(s, events) && NoFreeze(s, events) && Unfreezing(s) == {} && DaysDue(s) == {}
    requires OverlappingUnfreezes(s, events) == 0
    ensures Extensions(events) <= 1
  {
    UnfrozenOnceExactly(s, events);
    ExtensionsAccounted(s, events);
  }

  lemma RunEventsCons(s: State, e: Event, rest: seq<Event>)
    requires Possible(s, e) && ValidEvents(After(s, e), rest)
    ensures ValidEvents(s, [e] + rest) && RunEvents(s, [e] + rest) == RunEvents(After(s, e), rest)
  {
  }

  /** Whenever a second unfreeze reads the package while a first one has still to extend it,
      both can extend it. */
  lemma OverlappingUnfreezesBothExtend(s: State, t: Request, u: Request, days: nat)
    requires s.row.status == Frozen && t in Unfreezing(s) && t in DaysDue(s) && u !in s.pending
    ensures var events := [ReadStatus(u, OpUnfreeze(days))] + ([ExtendRow(t)] + ([ExtendRow(u)] + []));
            && ValidEvents(s, events)
            && RunEvents(s, events).row.expiresAt == s.row.expiresAt + (s.pending[t].extension.value + days) * DAY_MS
  {
    var read := ReadStatus(u, OpUnfreeze(days));
    var s1 := After(s, read);
    var s2 := After(s1, ExtendRow(t));
    RunEventsCons(s2, ExtendRow(u), []);
    RunEventsCons(s1, ExtendRow(t), [ExtendRow(u)] + []);
    RunEventsCons(s, read, [ExtendRow(t)] + ([ExtendRow(u)] + []));
  }

  // ----- Uninterrupted stored calls -----

  /** One stored call run alone: as on values, but for the status after a refund. */
  function ApplyAlone(p: StudentPackage, op: Op): StudentPackage {
    var q := Apply(p, op).0;
    if op.OpRefund? then q.(status := p.status) else q
  }

  /** The statements one stored call executes when nothing comes between them. */
  function CallStatements(p: StudentPackage, op: Op): seq<Stmt> {
    match op
    case OpDeduct => if RaisesAlert(p, DeductTx) then [DeductTx, MarkStmt] else [DeductTx]
    case OpRefund(n) => [RefundStmt(n)]
    case OpFreeze => if p.status == Active then [StatusStmt(Frozen)] else []
    case OpUnfreeze(days) => if p.status == Frozen && 0 <= days then [ExtendStmt(days), StatusStmt(Active)] else []
    case OpScan(now) => if p.status == Active && p.expiresAt < now then [StatusStmt(Expired)] else []
  }

  /** Uninterrupted, the statements of a call compose to the call, its successes and its
      alert included. */
  lemma CallRunsAlone(p: StudentPackage, op: Op)
    requires RowOk(p)
    ensures var (q, t) := RunStmts(p, CallStatements(p, op));
            && q == ApplyAlone(p, op)
            && t == Totals(Entry(p, op).deducted, Entry(p, op).refunded, Entry(p, op).alerts)
  {
    var stmts := CallStatements(p, op);
    if stmts != [] {
      RunUnfold(p, stmts);
      if |stmts| == 2 {
        RunUnfold(Execute(p, stmts[0]).0, [stmts[1]]);
        assert stmts[1..] == [stmts[1]];
      }
    }
  }

  lemma RunUnfold(p: StudentPackage, stmts: seq<Stmt>)
    requires stmts != []
    ensures RunStmts(p, stmts).0 == RunStmts(Execute(p, stmts[0]).0, stmts[1..]).0
  {
  }

  function RunAlone(p: StudentPackage, ops: seq<Op>): StudentPackage
    decreases |ops|
  {
    if ops == [] then p else RunAlone(ApplyAlone(p, ops[0]), ops[1..])
  }

  /** Uninterrupted stored calls never bring a depleted package back. */
  lemma {:induction false} DepletedAlone(p: StudentPackage, ops: seq<Op>)
    requires p.status == Depleted
    ensures RunAlone(p, ops).status == Depleted
    decreases |ops|
  {
    if ops != [] {
      DepletedAlone(ApplyAlone(p, ops[0]), ops[1..]);
    }
  }

  function AlertsAlone(p: StudentPackage, ops: seq<Op>): nat
    decreases |ops|
  {
    if ops == [] then 0 else Entry(p, ops[0]).alerts + AlertsAlone(ApplyAlone(p, ops[0]), ops[1..])
  }

  /** In every sequence of uninterrupted stored calls the alert is raised at most once. */
  lemma {:induction false} AlertsOnceAlone(p: StudentPackage, ops: seq<Op>)
    ensures AlertsAlone(p, ops) <= if p.lowBalanceAlerted then 0 else 1
    decreases |ops|
  {
    if ops != [] {
      AlertsOnceAlone(ApplyAlone(p, ops[0]), ops[1..]);
    }
  }

  lemma AlertsAloneCons(p: StudentPackage, op: Op, ops: seq<Op>)
    ensures AlertsAlone(p, [op] + ops) == Entry(p, op).alerts + AlertsAlone(ApplyAlone(p, op), ops)
  {
  }

  lemma {:induction false} DeductionsAloneCount(p: StudentPackage, n: nat)
    ensures AlertsAlone(p, Deductions(n)) == AlertsOf(p, n)
    decreases n
  {
    if n > 0 {
      AlertsAloneCons(p, OpDeduct, Deductions(n - 1));
      DeductionsAloneCount(Apply(p, OpDeduct).0, n - 1);
    }
  }

  /** With deductions alone it is raised by the one that first leaves one to five lessons. */
  lemma DeductionsAlone(p: StudentPackage, n: nat)
    requires Inv(p) && p.status == Active && n <= p.remainingLessons
    ensures AlertsAlone(p, Deductions(n)) == if !p.lowBalanceAlerted && AlertedAfter(p.remainingLessons, n) then 1 else 0
  {
    DeductionsAloneCount(p, n);
    AlertsOfDeductions(p, n);
  }
}
