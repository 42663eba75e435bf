/**
 First-come allocation of the free slots of a campus.

 A claim is a transaction of four statements: look for a slot the parent already holds,
 pick the lowest free slot `FOR UPDATE SKIP LOCKED`, update it under a guard, commit.
 Any number of claims, releases, expiry sweeps and campus creations interleave, one
 statement at a time. Rows are never deleted, so a slot's id is its position in `rows`.
 Statements read committed rows; a claim's own update becomes visible when it commits.
 */
module FreeSlots {
  import opened Common
  import UtcCalendar

  const SLOTS_PER_CAMPUS: nat := 10

  datatype SlotStatus = Empty | Occupied | Expired

  datatype Slot = Slot(campusId: string, slotIndex: nat, parentId: Option<string>, grantedAt: Option<int>,
                       expiresAt: Option<int>, status: SlotStatus, version: nat)

  type SlotId = nat
  type TxnId = nat

  /** An open claim transaction, by the last statement it has completed. */
  datatype Claim =
    | Checked(campusId: string, parentId: string, months: int)
    | Picked(campusId: string, parentId: string, months: int, slotId: SlotId)
    | Updated(parentId: string, slotId: SlotId, row: Slot)

  datatype Db = Db(rows: seq<Slot>, claims: map<TxnId, Claim>)

  datatype Error = ParentAlreadyHasSlot | CampusSlotExhausted | SlotRaceLost | NotOccupied

  datatype Outcome = Done | Granted(row: Slot) | Refused(error: Error)

  datatype Step =
    | CreateCampus(campusId: string)
    | CheckParent(txn: TxnId, campusId: string, parentId: string, months: int)
    | PickSlot(txn: TxnId)
    | UpdateSlot(txn: TxnId, now: int)
    | Commit(txn: TxnId)
    | Abort(txn: TxnId)
    | Release(slotId: SlotId)
    | ExpirePending(now: int)

  // ----- Queries -----

  predicate Free(s: Slot) {
    s.status == Empty || s.status == Expired
  }

  predicate HoldsSlot(rows: seq<Slot>, parentId: string) {
    exists s <- rows :: s.status == Occupied && s.parentId == Some(parentId)
  }

  function Locked(claims: map<TxnId, Claim>): set<SlotId> {
    set t | t in claims && !claims[t].Checked? :: claims[t].slotId
  }

  /** Entering or advancing a transaction that holds no lock yet. */
  lemma LockedAfter(claims: map<TxnId, Claim>, t: TxnId, claim: Claim)
    requires t in claims ==> claims[t].Checked?
    ensures Locked(claims[t := claim]) == Locked(claims) + if claim.Checked? then {} else {claim.slotId}
  {
    var claims' := claims[t := claim];
    forall id | id in Locked(claims)
      ensures id in Locked(claims')
    {
      var u :| u in claims && !claims[u].Checked? && claims[u].slotId == id;
      assert u in claims' && claims'[u] == claims[u];
    }
    assert t in claims' && (!claim.Checked? ==> claims'[t].slotId in Locked(claims'));
  }

  predicate Claimable(rows: seq<Slot>, locked: set<SlotId>, campusId: string, id: SlotId) {
    id < |rows| && rows[id].campusId == campusId && Free(rows[id]) && id !in locked
  }

  /** `ORDER BY slot_index LIMIT 1 FOR UPDATE SKIP LOCKED` over the free slots of a campus. */
  function LowestFree(rows: seq<Slot>, locked: set<SlotId>, campusId: string, n: nat): (r: Option<SlotId>)
    requires n <= |rows|
    ensures r.None? <==> forall id | 0 <= id < n :: !Claimable(rows, locked, campusId, id)
    ensures r.Some? ==>
              && r.value < n && Claimable(rows, locked, campusId, r.value)
              && forall id | 0 <= id < n :: Claimable(rows, locked, campusId, id) ==> rows[r.value].slotIndex <= rows[id].slotIndex
  {
    if n == 0 then None
    else
      var best := LowestFree(rows, locked, campusId, n - 1);
      if Claimable(rows, locked, campusId, n - 1)
         && (best.None? || rows[n - 1].slotIndex < rows[best.value].slotIndex) then Some(n - 1)
      else best
  }

  // ----- Statements -----

  function NewSlots(campusId: string): (r: seq<Slot>) {
    seq(SLOTS_PER_CAMPUS, i requires 0 <= i < SLOTS_PER_CAMPUS => Slot(campusId, i + 1, None, None, None, Empty, 0))
  }

  function GrantedRow(s: Slot, parentId: string, months: int, now: int): Slot {
    s.(parentId := Some(parentId), status := Occupied, grantedAt := Some(now),
       expiresAt := Some(UtcCalendar.Expiry(now, months)), version := s.version + 1)
  }

  function ReleasedRow(s: Slot): Slot {
    s.(parentId := None, status := Empty, grantedAt := None, expiresAt := None, version := s.version + 1)
  }

  predicate Overdue(s: Slot, now: int) {
    s.status == Occupied && s.expiresAt.Some? && s.expiresAt.value < now
  }

  function SweptRow(s: Slot, now: int): Slot {
    if Overdue(s, now) then s.(status := Expired, version := s.version + 1) else s
  }

  function Swept(rows: seq<Slot>, now: int): seq<Slot> {
    seq(|rows|, i requires 0 <= i < |rows| => SweptRow(rows[i], now))
  }

  /** A step names a transaction in the phase the statement belongs to. */
  predicate Enabled(db: Db, step: Step) {
    match step
    case CreateCampus(c) => forall s <- db.rows :: s.campusId != c
    case CheckParent(t, _, _, _) => t !in db.claims
    case PickSlot(t) => t in db.claims && db.claims[t].Checked?
    case UpdateSlot(t, _) => t in db.claims && db.claims[t].Picked? && db.claims[t].slotId < |db.rows|
    case Commit(t) => t in db.claims && db.claims[t].Updated? && db.claims[t].slotId < |db.rows|
    case Abort(t) => t in db.claims
    case Release(_) => true
    case ExpirePending(_) => true
  }

  function Close(db: Db, t: TxnId): Db {
    db.(claims := db.claims - {t})
  }

  function Next(db: Db, step: Step): (Db, Outcome)
    requires Enabled(db, step)
  {
    match step
    case CreateCampus(c) => (db.(rows := db.rows + NewSlots(c)), Done)
    case CheckParent(t, c, p, months) =>
      if HoldsSlot(db.rows, p) then (db, Refused(ParentAlreadyHasSlot))
      else (db.(claims := db.claims[t := Checked(c, p, months)]), Done)
    case PickSlot(t) =>
      var claim := db.claims[t];
      (match LowestFree(db.rows, Locked(db.claims), claim.campusId, |db.rows|)
       case None => (Close(db, t), Refused(CampusSlotExhausted))
       case Some(id) =>
         (db.(claims := db.claims[t := Picked(claim.campusId, claim.parentId, claim.months, id)]), Done))
    case UpdateSlot(t, now) =>
      var claim := db.claims[t];
      if Free(db.rows[claim.slotId]) then
        var row := GrantedRow(db.rows[claim.slotId], claim.parentId, claim.months, now);
        (db.(claims := db.claims[t := Updated(claim.parentId, claim.slotId, row)]), Done)
      else (Close(db, t), Refused(SlotRaceLost))
    case Commit(t) =>
      var claim := db.claims[t];
      (Close(db.(rows := db.rows[claim.slotId := claim.row]), t), Granted(claim.row))
    case Abort(t) => (Close(db, t), Done)
    case Release(id) =>
      if id < |db.rows| && db.rows[id].status == Occupied
      then (db.(rows := db.rows[id := ReleasedRow(db.rows[id])]), Done)
      else (db, Refused(NotOccupied))
    case ExpirePending(now) => (db.(rows := Swept(db.rows, now)), Done)
  }

  // ----- Invariants of every interleaving -----

  predicate RowOk(s: Slot) {
    && 1 <= s.slotIndex <= SLOTS_PER_CAMPUS
    && (s.status != Empty <==> s.parentId.Some?)
    && (s.status != Empty <==> s.grantedAt.Some?)
    && (s.status != Empty <==> s.expiresAt.Some?)
  }

  /** A lock is held on a row of the claim's campus that is committed as free, and an
      uncommitted row differs from the committed one by exactly one grant. */
  ghost predicate ClaimOk(rows: seq<Slot>, claim: Claim) {
    match claim
    case Checked(_, _, _) => true
    case Picked(c, _, _, id) => id < |rows| && Free(rows[id]) && rows[id].campusId == c
    case Updated(p, id, row) =>
      id < |rows| && Free(rows[id]) && exists months, now :: row == GrantedRow(rows[id], p, months, now)
  }

  ghost predicate UniqueIndexes(rows: seq<Slot>) {
    forall i, j | 0 <= i < j < |rows| :: rows[i].campusId == rows[j].campusId ==> rows[i].slotIndex != rows[j].slotIndex
  }

  ghost predicate OneLockPerSlot(claims: map<TxnId, Claim>) {
    forall t, u | t in claims && u in claims && t != u ::
      claims[t].Checked? || claims[u].Checked? || claims[t].slotId != claims[u].slotId
  }

  ghost predicate Inv(db: Db) {
    && (forall s <- db.rows :: RowOk(s))
    && UniqueIndexes(db.rows)
    && (forall t <- db.claims.Keys :: ClaimOk(db.rows, db.claims[t]))
    && OneLockPerSlot(db.claims)
  }

  lemma InvHolds(db: Db, step: Step)
    requires Inv(db) && Enabled(db, step)
    ensures Inv(Next(db, step).0)
  {
    var db' := Next(db, step).0;
    RowsStayOk(db, step);
    ClaimsStayOk(db, step);
  }

  lemma RowsStayOk(db: Db, step: Step)
    requires Inv(db) && Enabled(db, step)
    ensures forall s <- Next(db, step).0.rows :: RowOk(s)
    ensures UniqueIndexes(Next(db, step).0.rows)
  {
    var rows, rows' := db.rows, Next(db, step).0.rows;
    if step.CreateCampus? {
      assert forall i | |rows| <= i < |rows'| :: rows'[i] == NewSlots(step.campusId)[i - |rows|];
    }
    if step.Commit? {
      var claim := db.claims[step.txn];
      assert ClaimOk(rows, claim);
      assert RowOk(rows[claim.slotId]);
    }
    forall i | 0 <= i < |rows'|
      ensures RowOk(rows'[i])
    {
      assert i < |rows| ==> RowOk(rows[i]);
    }
  }

  /** Only committed free rows are locked, and no statement of another transaction changes
      a row that is committed as free. */
  lemma ClaimsStayOk(db: Db, step: Step)
    requires Inv(db) && Enabled(db, step)
    ensures var db' := Next(db, step).0;
            (forall t <- db'.claims.Keys :: ClaimOk(db'.rows, db'.claims[t])) && OneLockPerSlot(db'.claims)
  {
  }

  /** The error `SLOT_RACE_LOST` is unreachable: the guard of the update always holds. */
  lemma RaceIsNeverLost(db: Db, step: Step)
    requires Inv(db) && Enabled(db, step)
    ensures Next(db, step).1 != Refused(SlotRaceLost)
  {
  }

  /** A claim is refused as exhausted exactly when every slot of the campus is occupied or
      locked by another open claim. */
  lemma ExhaustedMeansFull(db: Db, txn: TxnId)
    requires Inv(db) && Enabled(db, PickSlot(txn))
    ensures Next(db, PickSlot(txn)).1 == Refused(CampusSlotExhausted) <==>
              forall id | 0 <= id < |db.rows| && db.rows[id].campusId == db.claims[txn].campusId ::
                db.rows[id].status == Occupied || id in Locked(db.claims)
  {
    forall id | 0 <= id < |db.rows|
      ensures Claimable(db.rows, Locked(db.claims), db.claims[txn].campusId, id) <==>
                db.rows[id].campusId == db.claims[txn].campusId
                && !(db.rows[id].status == Occupied || id in Locked(db.claims))
    {
    }
  }

  // ----- One step, one row -----

  /** The row's recorded expiry has passed. */
  predicate ExpiredBefore(s: Slot, now: int) {
    s.expiresAt.Some? && s.expiresAt.value < now
  }

  /** The step takes the slot away from its holder. */
  predicate Frees(db: Db, step: Step, id: SlotId)
    requires id < |db.rows|
  {
    db.rows[id].status == Occupied && (step == Release(id) || (step.ExpirePending? && ExpiredBefore(db.rows[id], step.now)))
  }

  /** `version` moves by one exactly when the committed row changes, an occupied row
      changes only by being freed, and a row keeps its campus and index. */
  lemma RowStep(db: Db, step: Step, id: SlotId)
    requires Inv(db) && Enabled(db, step) && id < |db.rows|
    ensures var rows' := Next(db, step).0.rows;
            && |db.rows| <= |rows'|
            && rows'[id].campusId == db.rows[id].campusId && rows'[id].slotIndex == db.rows[id].slotIndex
            && rows'[id].version == db.rows[id].version + (if rows'[id] != db.rows[id] then 1 else 0)
            && (db.rows[id].status == Occupied ==> (rows'[id] != db.rows[id] <==> Frees(db, step, id)))
            && (Frees(db, step, id) ==> rows'[id].status != Occupied)
            && (step.ExpirePending? ==> rows'[id].parentId == db.rows[id].parentId && rows'[id].expiresAt == db.rows[id].expiresAt)
  {
  }

  /** A sweep expires exactly the occupied rows whose expiry has passed, by status and version
      alone: such a row still names its parent and its dates. */
  lemma SweepExactly(db: Db, now: int, id: SlotId)
    requires id < |db.rows|
    ensures var db', s := Next(db, ExpirePending(now)).0, db.rows[id];
            && db'.claims == db.claims && |db'.rows| == |db.rows|
            && db'.rows[id] == if s.status == Occupied && ExpiredBefore(s, now)
                               then s.(status := Expired, version := s.version + 1) else s
  {
  }

  /** A grant of any number of months ends with the first sweep after the lengths of its
      months have passed, and not before. */
  lemma GrantEndsExactly(db: Db, id: SlotId, s: Slot, parentId: string, months: nat, grantedAt: int, now: int)
    requires id < |db.rows| && db.rows[id] == GrantedRow(s, parentId, months, grantedAt)
    ensures Next(db, ExpirePending(now)).0.rows[id].status == Expired <==>
              grantedAt + UtcCalendar.TotalDays(UtcCalendar.MonthOf(grantedAt), months) * UtcCalendar.MS_PER_DAY < now
    ensures Next(db, ExpirePending(now)).0.rows[id].status != Expired ==> Next(db, ExpirePending(now)).0.rows[id] == db.rows[id]
  {
    UtcCalendar.GrantLasts(grantedAt, months);
  }

  /** A release empties an occupied slot, parent and dates, and changes no other; any other
      slot is refused. */
  lemma ReleaseExactly(db: Db, id: SlotId, other: SlotId)
    requires other < |db.rows|
    ensures var (db', outcome), s := Next(db, Release(id)), db.rows[other];
            && db'.claims == db.claims && |db'.rows| == |db.rows|
            && (outcome == Done <==> id < |db.rows| && db.rows[id].status == Occupied)
            && (outcome != Done ==> outcome == Refused(NotOccupied) && db' == db)
            && db'.rows[other] == if other == id && s.status == Occupied
                                  then Slot(s.campusId, s.slotIndex, None, None, None, Empty, s.version + 1) else s
  {
  }

  /** Until its commit a claim changes no row; aborting it gives its lock back, and only
      its own. */
  lemma AbortUndoes(db: Db, t: TxnId)
    requires Inv(db) && Enabled(db, Abort(t))
    ensures var db' := Next(db, Abort(t)).0;
            && db'.rows == db.rows && db'.claims == db.claims - {t}
            && Locked(db'.claims) == Locked(db.claims) - if db.claims[t].Checked? then {} else {db.claims[t].slotId}
  {
    var claims' := db.claims - {t};
    forall id
      ensures id in Locked(claims') <==> id in Locked(db.claims) && (db.claims[t].Checked? || id != db.claims[t].slotId)
    {
      if id in Locked(db.claims) && (db.claims[t].Checked? || id != db.claims[t].slotId) {
        var u :| u in db.claims && !db.claims[u].Checked? && db.claims[u].slotId == id;
        assert u in claims';
      }
    }
  }

  lemma OnlyCommitsWrite(db: Db, step: Step)
    requires Enabled(db, step)
    requires step.CheckParent? || step.PickSlot? || step.UpdateSlot? || step.Abort?
    ensures Next(db, step).0.rows == db.rows
  {
  }

  /** Every slot of a new campus can be claimed at once. */
  lemma NewCampusIsOpen(db: Db, campusId: string, id: SlotId)
    requires Inv(db) && Enabled(db, CreateCampus(campusId)) && |db.rows| <= id < |db.rows| + 10
    ensures var db' := Next(db, CreateCampus(campusId)).0;
            && |db'.rows| == |db.rows| + 10 && db'.claims == db.claims
            && db'.rows[id] == Slot(campusId, id - |db.rows| + 1, None, None, None, Empty, 0)
            && Claimable(db'.rows, Locked(db'.claims), campusId, id)
  {
    LocksAreFree(db);
  }

  lemma LocksAreFree(db: Db)
    requires Inv(db)
    ensures forall id <- Locked(db.claims) :: id < |db.rows| && Free(db.rows[id])
  {
    forall id | id in Locked(db.claims)
      ensures id < |db.rows| && Free(db.rows[id])
    {
      var t :| t in db.claims && !db.claims[t].Checked? && db.claims[t].slotId == id;
      assert ClaimOk(db.rows, db.claims[t]);
    }
  }

  // ----- Runs -----

  predicate ValidRun(db: Db, steps: seq<Step>)
    decreases |steps|
  {
    steps == [] || (Enabled(db, steps[0]) && ValidRun(Next(db, steps[0]).0, steps[1..]))
  }

  function Run(db: Db, steps: seq<Step>): Db
    requires ValidRun(db, steps)
    decreases |steps|
  {
    if steps == [] then db else Run(Next(db, steps[0]).0, steps[1..])
  }

  lemma {:induction false} RunKeepsInv(db: Db, steps: seq<Step>)
    requires Inv(db) && ValidRun(db, steps)
    ensures Inv(Run(db, steps)) && |db.rows| <= |Run(db, steps).rows|
    decreases |steps|
  {
    if steps != [] {
      InvHolds(db, steps[0]);
      if |db.rows| > 0 { RowStep(db, steps[0], 0); }
      RunKeepsInv(Next(db, steps[0]).0, steps[1..]);
    }
  }

  /** The number of steps of a run that change a committed row. */
  function Changes(db: Db, steps: seq<Step>, id: SlotId): nat
    requires ValidRun(db, steps) && id < |db.rows|
    decreases |steps|
  {
    if steps == [] then 0
    else
      var db' := Next(db, steps[0]).0;
      if id >= |db'.rows| then 0
      else (if db'.rows[id] != db.rows[id] then 1 else 0) + Changes(db', steps[1..], id)
  }

  /** No step of the run frees the slot. */
  predicate NeverFreed(db: Db, steps: seq<Step>, id: SlotId)
    requires ValidRun(db, steps) && id < |db.rows|
    decreases |steps|
  {
    steps == [] ||
    (var db' := Next(db, steps[0]).0;
     !Frees(db, steps[0], id) && id < |db'.rows| && NeverFreed(db', steps[1..], id))
  }

  /** In every interleaving, `version` counts exactly the committed changes of a slot. */
  lemma {:induction false} VersionCountsChanges(db: Db, steps: seq<Step>, id: SlotId)
    requires Inv(db) && ValidRun(db, steps) && id < |db.rows|
    ensures id < |Run(db, steps).rows|
    ensures Run(db, steps).rows[id].version == db.rows[id].version + Changes(db, steps, id)
    decreases |steps|
  {
    if steps != [] {
      RowStep(db, steps[0], id);
      InvHolds(db, steps[0]);
      VersionCountsChanges(Next(db, steps[0]).0, steps[1..], id);
    }
  }

  /** An occupied slot keeps its whole row, its parent above all, until it is released or
      expires. */
  lemma {:induction false} HolderKeepsSlot(db: Db, steps: seq<Step>, id: SlotId)
    requires Inv(db) && ValidRun(db, steps) && id < |db.rows|
    requires db.rows[id].status == Occupied && NeverFreed(db, steps, id)
    ensures id < |Run(db, steps).rows| && Run(db, steps).rows[id] == db.rows[id]
    decreases |steps|
  {
    if steps != [] {
      RowStep(db, steps[0], id);
      InvHolds(db, steps[0]);
      HolderKeepsSlot(Next(db, steps[0]).0, steps[1..], id);
    }
  }

  predicate SparesUntil(steps: seq<Step>, id: SlotId, end: int) {
    forall s <- steps :: s != Release(id) && (s.ExpirePending? ==> s.now <= end)
  }

  /** A parent granted the default three months keeps the slot through every interleaving
      in which it is not released and no sweep runs more than 89 days after the grant. */
  lemma {:induction false} GrantIsKept(db: Db, steps: seq<Step>, id: SlotId, s: Slot, parentId: string, now: int)
    requires Inv(db) && ValidRun(db, steps) && id < |db.rows|
    requires db.rows[id] == GrantedRow(s, parentId, 3, now)
    requires SparesUntil(steps, id, now + 89 * UtcCalendar.MS_PER_DAY)
    ensures id < |Run(db, steps).rows| && Run(db, steps).rows[id] == db.rows[id]
    decreases |steps|
  {
    if steps != [] {
      UtcCalendar.QuarterLasts(now);
      RowStep(db, steps[0], id);
      InvHolds(db, steps[0]);
      GrantIsKept(Next(db, steps[0]).0, steps[1..], id, s, parentId, now);
    }
  }

  /** The first sweep more than 92 days after such a grant ends it. */
  lemma GrantEnds(db: Db, id: SlotId, s: Slot, parentId: string, grantedAt: int, now: int)
    requires Inv(db) && id < |db.rows| && db.rows[id] == GrantedRow(s, parentId, 3, grantedAt)
    requires grantedAt + 92 * UtcCalendar.MS_PER_DAY < now
    ensures Next(db, ExpirePending(now)).0.rows[id].status == Expired
  {
    UtcCalendar.QuarterLasts(grantedAt);
  }

  // ----- Slots per campus -----

  function CampusSlots(rows: seq<Slot>, campusId: string): nat {
    if rows == [] then 0
    else CampusSlots(rows[..|rows| - 1], campusId) + if rows[|rows| - 1].campusId == campusId then 1 else 0
  }

  lemma {:induction false} CampusSlotsAppend(rows: seq<Slot>, more: seq<Slot>, campusId: string)
    ensures CampusSlots(rows + more, campusId) == CampusSlots(rows, campusId) + CampusSlots(more, campusId)
    decreases |more|
  {
    if more == [] {
      assert rows + more == rows;
    } else {
      var all := rows + more;
      assert all[..|all| - 1] == rows + more[..|more| - 1];
      CampusSlotsAppend(rows, more[..|more| - 1], campusId);
    }
  }

  lemma {:induction false} CampusSlotsByCampus(rows: seq<Slot>, rows': seq<Slot>, campusId: string)
    requires |rows| == |rows'| && forall i | 0 <= i < |rows| :: rows[i].campusId == rows'[i].campusId
    ensures CampusSlots(rows, campusId) == CampusSlots(rows', campusId)
    decreases |rows|
  {
    if rows != [] {
      CampusSlotsByCampus(rows[..|rows| - 1], rows'[..|rows| - 1], campusId);
    }
  }

  lemma {:induction false} CampusSlotsUniform(rows: seq<Slot>, owner: string, campusId: string)
    requires forall s <- rows :: s.campusId == owner
    ensures CampusSlots(rows, campusId) == if owner == campusId then |rows| else 0
    decreases |rows|
  {
    if rows != [] {
      CampusSlotsUniform(rows[..|rows| - 1], owner, campusId);
    }
  }

  /** The number of slots of a campus is conserved by every step but its creation, which
      gives it ten. */
  lemma SlotCountConserved(db: Db, step: Step, campusId: string)
    requires Inv(db) && Enabled(db, step)
    ensures CampusSlots(Next(db, step).0.rows, campusId)
              == CampusSlots(db.rows, campusId) + if step == CreateCampus(campusId) then 10 else 0
  {
    var rows' := Next(db, step).0.rows;
    if step.CreateCampus? {
      CampusSlotsAppend(db.rows, NewSlots(step.campusId), campusId);
      CampusSlotsUniform(NewSlots(step.campusId), step.campusId, campusId);
    } else {
      forall i | 0 <= i < |db.rows|
        ensures rows'[i].campusId == db.rows[i].campusId
      {
        RowStep(db, step, i);
      }
      CampusSlotsByCampus(db.rows, rows', campusId);
    }
  }

  // ----- One slot per parent -----

  /** No parent holds two slots. */
  ghost predicate SingleHolder(rows: seq<Slot>) {
    forall i, j | 0 <= i < j < |rows| ::
      rows[i].status == Occupied && rows[j].status == Occupied ==> rows[i].parentId != rows[j].parentId
  }

  /** Open claims belong to different parents, none of whom holds a slot. */
  ghost predicate ClaimsApart(db: Db) {
    && (forall t <- db.claims.Keys :: !HoldsSlot(db.rows, db.claims[t].parentId))
    && (forall t, u | t in db.claims && u in db.claims && t != u :: db.claims[t].parentId != db.claims[u].parentId)
  }

  /** A claim of the parent is open. */
  predicate ClaimOpen(db: Db, parentId: string) {
    exists t <- db.claims.Keys :: db.claims[t].parentId == parentId
  }

  /** No claim of the run starts while another claim of the same parent is open. */
  predicate NoOverlap(db: Db, steps: seq<Step>)
    requires ValidRun(db, steps)
    decreases |steps|
  {
    steps == [] ||
    ((steps[0].CheckParent? ==> !ClaimOpen(db, steps[0].parentId)) && NoOverlap(Next(db, steps[0]).0, steps[1..]))
  }

  lemma HeldAfter(db: Db, step: Step, parentId: string)
    requires Inv(db) && Enabled(db, step) && HoldsSlot(Next(db, step).0.rows, parentId)
    ensures HoldsSlot(db.rows, parentId) || (step.Commit? && db.claims[step.txn].parentId == parentId)
  {
  }

  /** A commit keeps one slot per parent exactly when the claim's parent still holds none:
      the check made at the start of the transaction is not repeated. */
  lemma CommitKeepsSingleHolder(db: Db, txn: TxnId)
    requires Inv(db) && Enabled(db, Commit(txn)) && SingleHolder(db.rows)
    ensures SingleHolder(Next(db, Commit(txn)).0.rows) <==> !HoldsSlot(db.rows, db.claims[txn].parentId)
  {
    var claim, rows' := db.claims[txn], Next(db, Commit(txn)).0.rows;
    assert ClaimOk(db.rows, claim);
    if HoldsSlot(db.rows, claim.parentId) {
      var i :| 0 <= i < |db.rows| && db.rows[i].status == Occupied && db.rows[i].parentId == Some(claim.parentId);
      assert rows'[i] == db.rows[i] && rows'[claim.slotId] == claim.row;
      assert if i < claim.slotId then rows'[i].parentId == rows'[claim.slotId].parentId
             else rows'[claim.slotId].parentId == rows'[i].parentId;
    }
  }

  lemma SingleHolderStep(db: Db, step: Step)
    requires Inv(db) && Enabled(db, step) && SingleHolder(db.rows) && ClaimsApart(db)
    requires step.CheckParent? ==> !ClaimOpen(db, step.parentId)
    ensures SingleHolder(Next(db, step).0.rows) && ClaimsApart(Next(db, step).0)
  {
    var db' := Next(db, step).0;
    forall t | t in db'.claims
      ensures !HoldsSlot(db'.rows, db'.claims[t].parentId)
    {
      if HoldsSlot(db'.rows, db'.claims[t].parentId) {
        HeldAfter(db, step, db'.claims[t].parentId);
      }
    }
    if step.Commit? {
      CommitKeepsSingleHolder(db, step.txn);
    } else {
      forall i | 0 <= i < |db'.rows| && db'.rows[i].status == Occupied
        ensures i < |db.rows| && db.rows[i] == db'.rows[i]
      {
      }
    }
  }

  /** As long as the claims of one parent do not overlap in time, no parent ever holds two
      slots, whatever else interleaves. */
  lemma {:induction false} OneSlotPerParent(db: Db, steps: seq<Step>)
    requires Inv(db) && SingleHolder(db.rows) && ClaimsApart(db)
    requires ValidRun(db, steps) && NoOverlap(db, steps)
    ensures SingleHolder(Run(db, steps).rows)
    decreases |steps|
  {
    if steps != [] {
      InvHolds(db, steps[0]);
      SingleHolderStep(db, steps[0]);
      OneSlotPerParent(Next(db, steps[0]).0, steps[1..]);
    }
  }

  lemma RunCons(db: Db, step: Step, rest: seq<Step>)
    requires Enabled(db, step) && ValidRun(Next(db, step).0, rest)
    ensures ValidRun(db, [step] + rest) && Run(db, [step] + rest) == Run(Next(db, step).0, rest)
  {
  }

  /** Two open claims of one parent that have both updated their rows: committing them
      gives the parent two slots. */
  lemma CommitsBothGranted(db: Db, t: TxnId, u: TxnId)
    requires Inv(db) && t != u && Enabled(db, Commit(t)) && Enabled(db, Commit(u))
    requires db.claims[t].parentId == db.claims[u].parentId
    ensures ValidRun(db, [Commit(t)] + ([Commit(u)] + []))
    ensures !SingleHolder(Run(db, [Commit(t)] + ([Commit(u)] + [])).rows)
  {
    var i, j := db.claims[t].slotId, db.claims[u].slotId;
    assert ClaimOk(db.rows, db.claims[t]) && ClaimOk(db.rows, db.claims[u]);
    var db1 := Next(db, Commit(t)).0;
    var db2 := Next(db1, Commit(u)).0;
    RunCons(db1, Commit(u), []);
    RunCons(db, Commit(t), [Commit(u)] + []);
    assert i != j && db2.rows[i].parentId == db2.rows[j].parentId;
  }

  function OverlapSchedule(t: TxnId, u: TxnId, now: int): seq<Step> {
    [PickSlot(t)] + ([PickSlot(u)] + ([UpdateSlot(t, now)] + ([UpdateSlot(u, now)] + ([Commit(t)] + ([Commit(u)] + [])))))
  }

  /** The condition on overlap is needed. Whenever two claims of one parent have both
      passed the first check and their campus has two claimable slots, the schedule that
      alternates their statements gives the parent both slots. */
  lemma OverlapGrantsTwo(db: Db, t: TxnId, u: TxnId, i: SlotId, j: SlotId, now: int)
    requires Inv(db) && t != u && Enabled(db, PickSlot(t)) && Enabled(db, PickSlot(u))
    requires db.claims[t].parentId == db.claims[u].parentId && db.claims[t].campusId == db.claims[u].campusId
    requires i != j && Claimable(db.rows, Locked(db.claims), db.claims[t].campusId, i)
    requires Claimable(db.rows, Locked(db.claims), db.claims[t].campusId, j)
    ensures ValidRun(db, OverlapSchedule(t, u, now))
    ensures !SingleHolder(Run(db, OverlapSchedule(t, u, now)).rows)
  {
    var db1 := Next(db, PickSlot(t)).0;
    var a := db1.claims[t].slotId;
    LockedAfter(db.claims, t, db1.claims[t]);
    var other := if a == i then j else i;
    assert Claimable(db1.rows, Locked(db1.claims), db.claims[u].campusId, other);
    InvHolds(db, PickSlot(t));
    var db2 := Next(db1, PickSlot(u)).0;
    InvHolds(db1, PickSlot(u));
    RaceIsNeverLost(db2, UpdateSlot(t, now));
    var db3 := Next(db2, UpdateSlot(t, now)).0;
    InvHolds(db2, UpdateSlot(t, now));
    RaceIsNeverLost(db3, UpdateSlot(u, now));
    var db4 := Next(db3, UpdateSlot(u, now)).0;
    InvHolds(db3, UpdateSlot(u, now));
    CommitsBothGranted(db4, t, u);
    var rest := [Commit(t)] + ([Commit(u)] + []);
    RunCons(db3, UpdateSlot(u, now), rest);
    RunCons(db2, UpdateSlot(t, now), [UpdateSlot(u, now)] + rest);
    RunCons(db1, PickSlot(u), [UpdateSlot(t, now)] + ([UpdateSlot(u, now)] + rest));
    RunCons(db, PickSlot(t), [PickSlot(u)] + ([UpdateSlot(t, now)] + ([UpdateSlot(u, now)] + rest)));
  }

  // ----- The repository -----

  /** The effect of a claim that is not interrupted. */
  function ClaimAlone(db: Db, campusId: string, parentId: string, months: int, now: int): (Db, Result<Slot, Error>) {
    if HoldsSlot(db.rows, parentId) then (db, Err(ParentAlreadyHasSlot))
    else
      match LowestFree(db.rows, Locked(db.claims), campusId, |db.rows|)
      case None => (db, Err(CampusSlotExhausted))
      case Some(id) =>
        var row := GrantedRow(db.rows[id], parentId, months, now);
        (db.(rows := db.rows[id := row]), Ok(row))
  }

  /** The four statements, one after the other, have that effect. */
  lemma ClaimRunsAlone(db: Db, t: TxnId, campusId: string, parentId: string, months: int, now: int)
    requires t !in db.claims
    ensures var alone := ClaimAlone(db, campusId, parentId, months, now);
            var checked := Next(db, CheckParent(t, campusId, parentId, months));
            if checked.1 != Done then alone == (checked.0, Err(checked.1.error)) else
            var picked := Next(checked.0, PickSlot(t));
            if picked.1 != Done then alone == (picked.0, Err(picked.1.error)) else
            && Enabled(picked.0, UpdateSlot(t, now))
            && var updated := Next(picked.0, UpdateSlot(t, now));
               && updated.1 == Done
               && Enabled(updated.0, Commit(t))
               && var committed := Next(updated.0, Commit(t));
                  committed.1.Granted? && alone == (committed.0, Ok(committed.1.row))
  {
    var checked := Next(db, CheckParent(t, campusId, parentId, months)).0;
    LockedAfter(db.claims, t, Checked(campusId, parentId, months));
    if !HoldsSlot(db.rows, parentId) {
      assert Locked(checked.claims) == Locked(db.claims);
      assert Next(checked, PickSlot(t)).1 != Done ==> Close(checked, t).claims == db.claims;
      if LowestFree(db.rows, Locked(db.claims), campusId, |db.rows|).Some? {
        var updated := Next(Next(checked, PickSlot(t)).0, UpdateSlot(t, now)).0;
        assert Close(updated, t).claims == db.claims;
      }
    }
  }

  /** The days of a grant: the lengths of its months, from the month it is made in. */
  function GrantedDays(now: int, months: nat): int {
    UtcCalendar.TotalDays(UtcCalendar.MonthOf(now), months)
  }

  /** The granted row belongs to the parent, starts now, lasts its months, and is the old one
      otherwise. */
  predicate GrantOf(s: Slot, row: Slot, parentId: string, months: int, now: int) {
    && row.status == Occupied && row.parentId == Some(parentId) && row.grantedAt == Some(now)
    && row.campusId == s.campusId && row.slotIndex == s.slotIndex && row.version == s.version + 1
    && (months >= 0 ==> row.expiresAt == Some(now + GrantedDays(now, months) * UtcCalendar.MS_PER_DAY))
  }

  lemma GrantedFields(s: Slot, parentId: string, months: int, now: int)
    ensures GrantOf(s, GrantedRow(s, parentId, months, now), parentId, months, now)
  {
    if months >= 0 { UtcCalendar.GrantLasts(now, months); }
  }

  /** An uninterrupted claim is refused exactly when the parent already holds a slot or
      the campus has none to give; otherwise it takes the claimable slot of lowest index,
      and no other row changes. */
  lemma ClaimOutcome(db: Db, campusId: string, parentId: string, months: int, now: int)
    ensures var (db', r) := ClaimAlone(db, campusId, parentId, months, now);
            var claimable := set id: SlotId | id < |db.rows| && Claimable(db.rows, Locked(db.claims), campusId, id);
            && db'.claims == db.claims
            && (r.Ok? <==> !HoldsSlot(db.rows, parentId) && claimable != {})
            && (r.Err? ==> db' == db)
            && (r.Ok? ==> exists id <- claimable ::
                  && (forall other <- claimable :: db.rows[id].slotIndex <= db.rows[other].slotIndex)
                  && GrantOf(db.rows[id], r.value, parentId, months, now)
                  && db'.rows == db.rows[id := r.value])
  {
    var claimable := set id: SlotId | id < |db.rows| && Claimable(db.rows, Locked(db.claims), campusId, id);
    match LowestFree(db.rows, Locked(db.claims), campusId, |db.rows|)
    case None => assert claimable == {};
    case Some(id) =>
      assert id in claimable;
      GrantedFields(db.rows[id], parentId, months, now);
  }

  /** A parent whose slot is released, or expires in a sweep, can claim one of that campus
      again at once. */
  lemma FreedParentClaimsAgain(db: Db, step: Step, id: SlotId, parentId: string, months: int, now: int)
    requires Inv(db) && Enabled(db, step) && SingleHolder(db.rows) && id < |db.rows| && Frees(db, step, id)
    requires db.rows[id].parentId == Some(parentId)
    ensures var db' := Next(db, step).0;
            !HoldsSlot(db'.rows, parentId) && ClaimAlone(db', db.rows[id].campusId, parentId, months, now).1.Ok?
  {
    var db' := Next(db, step).0;
    LocksAreFree(db);
    forall i | 0 <= i < |db'.rows| && db'.rows[i].status == Occupied
      ensures db'.rows[i].parentId != Some(parentId)
    {
      assert i != id && db'.rows[i] == db.rows[i];
    }
    assert Claimable(db'.rows, Locked(db'.claims), db.rows[id].campusId, id);
  }

  function CountStatus(rows: seq<Slot>, campusId: string, status: SlotStatus): nat {
    if rows == [] then 0
    else
      var last := rows[|rows| - 1];
      CountStatus(rows[..|rows| - 1], campusId, status) + if last.campusId == campusId && last.status == status then 1 else 0
  }

  lemma {:induction false} StatusesPartition(rows: seq<Slot>, campusId: string)
    ensures CountStatus(rows, campusId, Empty) + CountStatus(rows, campusId, Occupied) + CountStatus(rows, campusId, Expired)
              == CampusSlots(rows, campusId)
    decreases |rows|
  {
    if rows != [] {
      StatusesPartition(rows[..|rows| - 1], campusId);
    }
  }

  /** The answer of a `GROUP BY status` query: each status that occurs, once, in any order. */
  predicate Grouped(rows: seq<Slot>, campusId: string, groups: seq<(SlotStatus, nat)>) {
    && (forall g <- groups :: g.1 == CountStatus(rows, campusId, g.0))
    && (forall i, j | 0 <= i < j < |groups| :: groups[i].0 != groups[j].0)
    && (forall s: SlotStatus :: CountStatus(rows, campusId, s) > 0 ==> exists g <- groups :: g.0 == s)
  }

  datatype Stats = Stats(total: nat, occupied: nat, empty: nat, expired: nat)

  class CampusFreeSlotRepository {
    var db: Db

    constructor ()
      ensures db == Db([], map[]) && Inv(db)
    {
      db := Db([], map[]);
    }

    method Execute(step: Step) returns (outcome: Outcome)
      requires Enabled(db, step)
      modifies this
      ensures (db, outcome) == Next(old(db), step)
    {
      var next := Next(db, step);
      db, outcome := next.0, next.1;
    }

    /** A claim that no other step interrupts, in the presence of other open claims. */
    method Claim(txn: TxnId, campusId: string, parentId: string, durationMonths: int, now: int)
      returns (r: Result<Slot, Error>)
      requires Inv(db) && txn !in db.claims
      modifies this
      ensures (db, r) == ClaimAlone(old(db), campusId, parentId, durationMonths, now)
      ensures Inv(db)
    {
      ClaimRunsAlone(db, txn, campusId, parentId, durationMonths, now);
      InvHolds(db, CheckParent(txn, campusId, parentId, durationMonths));
      var checked := Execute(CheckParent(txn, campusId, parentId, durationMonths));
      if checked.Refused? {
        return Err(checked.error);
      }
      InvHolds(db, PickSlot(txn));
      var picked := Execute(PickSlot(txn));
      if picked.Refused? {
        return Err(picked.error);
      }
      InvHolds(db, UpdateSlot(txn, now));
      var updated := Execute(UpdateSlot(txn, now));
      if updated.Refused? {
        assert false;  // the guarded update cannot miss its row
      }
      InvHolds(db, Commit(txn));
      var committed := Execute(Commit(txn));
      return Ok(committed.row);
    }

    /** Occupancy of a campus, from the grouped query: the three counts and their sum,
        which is the number of its slots. */
    method GetCampusStats(campusId: string, groups: seq<(SlotStatus, nat)>) returns (out: Stats)
      requires Grouped(db.rows, campusId, groups)
      ensures out.occupied == CountStatus(db.rows, campusId, Occupied)
      ensures out.empty == CountStatus(db.rows, campusId, Empty)
      ensures out.expired == CountStatus(db.rows, campusId, Expired)
      ensures out.total == CampusSlots(db.rows, campusId)
    {
      out := Stats(0, 0, 0, 0);
      for i := 0 to |groups|
        invariant out.total == out.occupied + out.empty + out.expired
        invariant out.occupied == Seen(db.rows, campusId, groups[..i], Occupied)
        invariant out.empty == Seen(db.rows, campusId, groups[..i], Empty)
        invariant out.expired == Seen(db.rows, campusId, groups[..i], Expired)
      {
        var c := groups[i].1;
        assert groups[..i + 1] == groups[..i] + [groups[i]];
        out := out.(total := out.total + c);
        match groups[i].0
        case Occupied => out := out.(occupied := c);
        case Empty => out := out.(empty := c);
        case Expired => out := out.(expired := c);
      }
      assert groups[..|groups|] == groups;
      StatusesPartition(db.rows, campusId);
    }
  }

  /** The count of a status as far as the groups read so far tell. */
  ghost function Seen(rows: seq<Slot>, campusId: string, groups: seq<(SlotStatus, nat)>, status: SlotStatus): nat {
    if exists g <- groups :: g.0 == status then CountStatus(rows, campusId, status) else 0
  }
}
