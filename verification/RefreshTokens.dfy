/**
 Refresh-token rotation with replay detection.

 The table is keyed by token hash, which is unique; a raw token is identified with its
 hash. Hashes, like row ids, are fresh when issued. Times are milliseconds.

 A service call is one atomic step first; `SplitRotation` below runs the statements of
 `rotate` separately, as the code does.
 */
module RefreshTokens {
  import opened Common

  type Hash = string
  type RowId = string

  datatype SubjectType = BUser | Parent

  datatype Subject = Subject(kind: SubjectType, id: string)

  datatype Row = Row(id: RowId, subject: Subject, tenantId: Option<string>, expiresAt: int,
                     revokedAt: Option<int>, lastUsedAt: Option<int>)

  type Table = map<Hash, Row>

  datatype Config = Config(ttlBSec: int, ttlParentSec: int)

  const DAY_MS: int := 86_400_000
  const RETENTION_DAYS: int := 30

  datatype Error = InvalidRefreshToken | Revoked | Expired

  function TtlSeconds(config: Config, kind: SubjectType): int {
    if kind == BUser then config.ttlBSec else config.ttlParentSec
  }

  // ----- Statements on the table -----

  function NewRow(config: Config, id: RowId, subject: Subject, tenantId: Option<string>, now: int): Row {
    Row(id, subject, tenantId, now + TtlSeconds(config, subject.kind) * 1000, None, None)
  }

  /** `UPDATE … SET revoked_at = NOW(), last_used_at = NOW() WHERE id = $1 AND revoked_at IS NULL` */
  function RevokeId(rows: Table, id: RowId, now: int): Table {
    map h | h in rows ::
      if rows[h].id == id && rows[h].revokedAt.None? then rows[h].(revokedAt := Some(now), lastUsedAt := Some(now))
      else rows[h]
  }

  /** `UPDATE … SET revoked_at = NOW() WHERE subject = … AND revoked_at IS NULL` */
  function RevokeSubject(rows: Table, subject: Subject, now: int): Table {
    map h | h in rows ::
      if rows[h].subject == subject && rows[h].revokedAt.None? then rows[h].(revokedAt := Some(now)) else rows[h]
  }

  /** `DELETE … WHERE expires_at < NOW() - 30 days` */
  function Cleaned(rows: Table, retentionDays: int, now: int): Table {
    map h | h in rows && rows[h].expiresAt >= now - retentionDays * DAY_MS :: rows[h]
  }

  // ----- Service calls, as functions of the table -----

  function Rotated(rows: Table, config: Config, h: Hash, newId: RowId, newHash: Hash, now: int): (Table, Result<Row, Error>) {
    if h !in rows then (rows, Err(InvalidRefreshToken))
    else if rows[h].revokedAt.Some? then (RevokeSubject(rows, rows[h].subject, now), Err(Revoked))
    else if rows[h].expiresAt < now then (rows, Err(Expired))
    else
      (RevokeId(rows, rows[h].id, now)[newHash := NewRow(config, newId, rows[h].subject, rows[h].tenantId, now)], Ok(rows[h]))
  }

  function RevokedByRaw(rows: Table, h: Hash, now: int): Table {
    if h in rows && rows[h].revokedAt.None? then RevokeId(rows, rows[h].id, now) else rows
  }

  // ----- The repository and the service -----

  class RefreshTokenRepository {
    var rows: Table

    constructor ()
      ensures rows == map[]
    {
      rows := map[];
    }

    method FindByHash(h: Hash) returns (row: Option<Row>)
      ensures row == if h in rows then Some(rows[h]) else None
    {
      row := if h in rows then Some(rows[h]) else None;
    }

    method Insert(h: Hash, row: Row)
      requires h !in rows
      modifies this
      ensures rows == old(rows)[h := row]
    {
      rows := rows[h := row];
    }

    method Revoke(id: RowId, now: int)
      modifies this
      ensures rows == RevokeId(old(rows), id, now)
    {
      rows := RevokeId(rows, id, now);
    }

    /** Revokes every token of the subject that is live, touches no other row, and reports
        how many rows it changed. */
    method RevokeAllBySubject(subject: Subject, now: int) returns (count: nat)
      modifies this
      ensures rows.Keys == old(rows).Keys
      ensures forall h <- rows.Keys :: rows[h].subject == subject ==> rows[h].revokedAt.Some?
      ensures forall h <- rows.Keys :: rows[h] != old(rows)[h] ==>
                && old(rows)[h].subject == subject && old(rows)[h].revokedAt.None?
                && rows[h] == old(rows)[h].(revokedAt := Some(now))
      ensures count == |set h | h in rows && rows[h] != old(rows)[h]|
    {
      count := |set h | h in rows && rows[h].subject == subject && rows[h].revokedAt.None?|;
      rows := RevokeSubject(rows, subject, now);
      assert (set h | h in rows && rows[h] != old(rows)[h])
          == set h | h in old(rows) && old(rows)[h].subject == subject && old(rows)[h].revokedAt.None?;
    }

    method CleanupExpired(retentionDays: int, now: int)
      modifies this
      ensures rows == Cleaned(old(rows), retentionDays, now)
    {
      rows := Cleaned(rows, retentionDays, now);
    }
  }

  class RefreshTokenService {
    const config: Config
    const repo: RefreshTokenRepository

    constructor (config: Config, repo: RefreshTokenRepository)
      ensures this.config == config && this.repo == repo
    {
      this.config, this.repo := config, repo;
    }

    method Issue(subject: Subject, tenantId: Option<string>, id: RowId, h: Hash, now: int)
      requires h !in repo.rows
      modifies repo
      ensures repo.rows == old(repo.rows)[h := NewRow(config, id, subject, tenantId, now)]
    {
      repo.Insert(h, NewRow(config, id, subject, tenantId, now));
    }

    method Rotate(h: Hash, newId: RowId, newHash: Hash, now: int) returns (r: Result<Row, Error>)
      requires newHash !in repo.rows
      modifies repo
      ensures (repo.rows, r) == Rotated(old(repo.rows), config, h, newId, newHash, now)
    {
      var found := repo.FindByHash(h);
      if found.None? {
        return Err(InvalidRefreshToken);
      }
      var row := found.value;
      if row.revokedAt.Some? {
        var _ := repo.RevokeAllBySubject(row.subject, now);
        assert repo.rows == RevokeSubject(old(repo.rows), row.subject, now);
        return Err(Revoked);
      }
      if row.expiresAt < now {
        return Err(Expired);
      }
      repo.Revoke(row.id, now);
      Issue(row.subject, row.tenantId, newId, newHash, now);
      return Ok(row);
    }

    method RevokeByRaw(h: Hash, now: int)
      modifies repo
      ensures repo.rows == RevokedByRaw(old(repo.rows), h, now)
    {
      var found := repo.FindByHash(h);
      if found.Some? && found.value.revokedAt.None? {
        repo.Revoke(found.value.id, now);
      }
    }
  }

  /** Refused tokens: one that is not stored, never was or is no longer, is invalid, one past
      its expiry is expired, and neither changes the table. */
  lemma RefusedWithoutEffect(rows: Table, config: Config, h: Hash, newId: RowId, newHash: Hash, now: int)
    ensures h !in rows ==> Rotated(rows, config, h, newId, newHash, now) == (rows, Err(InvalidRefreshToken))
    ensures h in rows && rows[h].revokedAt.None? && rows[h].expiresAt < now ==>
              Rotated(rows, config, h, newId, newHash, now) == (rows, Err(Expired))
  {
  }

  // ----- Runs of atomic service calls -----

  datatype Step =
    | Issue(subject: Subject, tenantId: Option<string>, id: RowId, hash: Hash, now: int)
    | Rotate(hash: Hash, newId: RowId, newHash: Hash, now: int)
    | Logout(hash: Hash, now: int)
    | RevokeAll(subject: Subject, now: int)
    | Cleanup(now: int)

  /** Where a token came from: its place in issue order, and that of the first token of
      its login. */
  datatype Origin = Origin(login: nat, number: nat)

  /** The table, and the history of every hash ever issued. */
  datatype Ledger = Ledger(rows: Table, origin: map<Hash, Origin>)

  const EMPTY: Ledger := Ledger(map[], map[])

  predicate FreshId(rows: Table, id: RowId) {
    forall h <- rows.Keys :: rows[h].id != id
  }

  /** Issued tokens and row ids are new. */
  predicate Enabled(l: Ledger, step: Step) {
    match step
    case Issue(_, _, id, h, _) => h !in l.origin && FreshId(l.rows, id)
    case Rotate(_, id, h, _) => h !in l.origin && FreshId(l.rows, id)
    case _ => true
  }

  function Next(config: Config, l: Ledger, step: Step): Ledger
    requires Enabled(l, step)
  {
    match step
    case Issue(subject, tenantId, id, h, now) =>
      Ledger(l.rows[h := NewRow(config, id, subject, tenantId, now)], l.origin[h := Origin(|l.origin|, |l.origin|)])
    case Rotate(h, newId, newHash, now) =>
      var (rows, r) := Rotated(l.rows, config, h, newId, newHash, now);
      Ledger(rows, if r.Ok? && h in l.origin then l.origin[newHash := Origin(l.origin[h].login, |l.origin|)] else l.origin)
    case Logout(h, now) => l.(rows := RevokedByRaw(l.rows, h, now))
    case RevokeAll(subject, now) => l.(rows := RevokeSubject(l.rows, subject, now))
    case Cleanup(now) => l.(rows := Cleaned(l.rows, RETENTION_DAYS, now))
  }

  /** The step is a rotation of `h` that succeeds. */
  predicate Rotates(config: Config, l: Ledger, step: Step, h: Hash) {
    step.Rotate? && step.hash == h && Rotated(l.rows, config, h, step.newId, step.newHash, step.now).1.Ok?
  }

  /** The token can still be rotated, now or before it expires. */
  predicate Live(l: Ledger, h: Hash) {
    h in l.rows && l.rows[h].revokedAt.None?
  }

  predicate Spent(l: Ledger, h: Hash) {
    h in l.origin && !Live(l, h)
  }

  /** Every stored token was issued. */
  predicate Known(l: Ledger) {
    l.rows.Keys <= l.origin.Keys
  }

  ghost predicate UniqueIds(rows: Table) {
    forall h, k | h in rows && k in rows && h != k :: rows[h].id != rows[k].id
  }

  ghost predicate Numbered(origin: map<Hash, Origin>) {
    && (forall h <- origin.Keys :: origin[h].login <= origin[h].number < |origin|)
    && (forall h, k | h in origin && k in origin && h != k :: origin[h].number != origin[k].number)
  }

  predicate SameLogin(l: Ledger, h: Hash, k: Hash) {
    h in l.origin && k in l.origin && l.origin[h].login == l.origin[k].login
  }

  /** Within a login, every token but the newest is spent. */
  ghost predicate OnlyNewestLive(l: Ledger) {
    forall h, k | SameLogin(l, h, k) :: l.origin[h].number < l.origin[k].number ==> Spent(l, h)
  }

  /** The tokens of a login belong to one subject of one tenant. */
  ghost predicate OneOwner(l: Ledger) {
    forall h, k | SameLogin(l, h, k) && h in l.rows && k in l.rows ::
      l.rows[h].subject == l.rows[k].subject && l.rows[h].tenantId == l.rows[k].tenantId
  }

  ghost predicate Inv(l: Ledger) {
    Known(l) && UniqueIds(l.rows) && Numbered(l.origin) && OnlyNewestLive(l) && OneOwner(l)
  }

  /** What one step may do to a stored row: leave it, revoke it, or delete it. */
  lemma RowStep(config: Config, l: Ledger, step: Step, h: Hash)
    requires Known(l) && Enabled(l, step) && h in l.rows
    ensures var l' := Next(config, l, step);
            h in l'.rows ==>
              && l'.rows[h].(revokedAt := l.rows[h].revokedAt, lastUsedAt := l.rows[h].lastUsedAt) == l.rows[h]
              && (l.rows[h].revokedAt.Some? ==> l'.rows[h] == l.rows[h])
    ensures h !in Next(config, l, step).rows ==> step.Cleanup? && l.rows[h].expiresAt < step.now - RETENTION_DAYS * DAY_MS
  {
  }

  /** A spent token stays spent. */
  lemma SpentStep(config: Config, l: Ledger, step: Step, h: Hash)
    requires Known(l) && Enabled(l, step) && Spent(l, h)
    ensures Spent(Next(config, l, step), h) && !Rotates(config, l, step, h)
    ensures h !in l.rows ==> h !in Next(config, l, step).rows
  {
  }

  lemma RotatesSpends(config: Config, l: Ledger, step: Step, h: Hash)
    requires Known(l) && Enabled(l, step) && Rotates(config, l, step, h)
    ensures Live(l, h) && Spent(Next(config, l, step), h)
  {
  }

  /** A successful rotation revokes the presented row, adds its successor, which inherits
      subject and tenant, and touches no other row. */
  lemma RotationEffect(config: Config, l: Ledger, step: Step, h: Hash, k: Hash)
    requires Known(l) && UniqueIds(l.rows) && Enabled(l, step) && Rotates(config, l, step, h)
    ensures var rows := Next(config, l, step).rows;
            && rows.Keys == l.rows.Keys + {step.newHash}
            && rows[h] == l.rows[h].(revokedAt := Some(step.now), lastUsedAt := Some(step.now))
            && rows[step.newHash].subject == l.rows[h].subject && rows[step.newHash].tenantId == l.rows[h].tenantId
            && rows[step.newHash].revokedAt.None?
            && (k in l.rows && k != h ==> rows[k] == l.rows[k])
  {
  }

  // The invariant, by the three things a step can do to the history of issued tokens.

  ghost predicate Extends(origin: map<Hash, Origin>, origin': map<Hash, Origin>, h: Hash, login: nat) {
    h !in origin && origin' == origin[h := Origin(login, |origin|)]
  }

  ghost predicate SpentStays(l: Ledger, l': Ledger) {
    forall h <- l.origin.Keys :: Spent(l, h) ==> Spent(l', h)
  }

  lemma OriginStep(config: Config, l: Ledger, step: Step)
    requires Known(l) && Enabled(l, step)
    ensures var l' := Next(config, l, step);
            || l'.origin == l.origin
            || (step.Issue? && Extends(l.origin, l'.origin, step.hash, |l.origin|))
            || (step.Rotate? && Rotates(config, l, step, step.hash) && step.hash in l.origin
                && Extends(l.origin, l'.origin, step.newHash, l.origin[step.hash].login))
  {
  }

  lemma HistoryExtends(origin: map<Hash, Origin>, origin': map<Hash, Origin>, h: Hash, login: nat)
    requires Numbered(origin) && Extends(origin, origin', h, login) && login <= |origin|
    ensures Numbered(origin')
  {
  }

  lemma NewestSame(l: Ledger, l': Ledger)
    requires OnlyNewestLive(l) && l'.origin == l.origin && SpentStays(l, l')
    ensures OnlyNewestLive(l')
  {
  }

  lemma NewestIssued(l: Ledger, l': Ledger, issued: Hash)
    requires OnlyNewestLive(l) && Numbered(l.origin) && SpentStays(l, l')
    requires Extends(l.origin, l'.origin, issued, |l.origin|)
    ensures OnlyNewestLive(l')
  {
  }

  lemma NewestRotated(l: Ledger, l': Ledger, parent: Hash, issued: Hash)
    requires OnlyNewestLive(l) && Numbered(l.origin) && SpentStays(l, l')
    requires Live(l, parent) && parent in l.origin && Spent(l', parent)
    requires Extends(l.origin, l'.origin, issued, l.origin[parent].login)
    ensures OnlyNewestLive(l')
  {
  }

  lemma OnlyNewestStaysLive(config: Config, l: Ledger, step: Step)
    requires Known(l) && Numbered(l.origin) && OnlyNewestLive(l) && Enabled(l, step)
    ensures var l' := Next(config, l, step);
            Numbered(l'.origin) && OnlyNewestLive(l')
  {
    var l' := Next(config, l, step);
    OriginStep(config, l, step);
    forall h | h in l.origin && Spent(l, h)
      ensures Spent(l', h)
    {
      SpentStep(config, l, step, h);
    }
    if l'.origin == l.origin {
      NewestSame(l, l');
    } else if step.Issue? {
      HistoryExtends(l.origin, l'.origin, step.hash, |l.origin|);
      NewestIssued(l, l', step.hash);
    } else {
      HistoryExtends(l.origin, l'.origin, step.newHash, l.origin[step.hash].login);
      RotatesSpends(config, l, step, step.hash);
      NewestRotated(l, l', step.hash, step.newHash);
    }
  }

  lemma IdsStayUnique(config: Config, l: Ledger, step: Step)
    requires UniqueIds(l.rows) && Enabled(l, step)
    ensures UniqueIds(Next(config, l, step).rows)
  {
    var rows := Next(config, l, step).rows;
    forall h, k | h in rows && k in rows && h != k
      ensures rows[h].id != rows[k].id
    {
      IdStep(config, l, step, h);
      IdStep(config, l, step, k);
    }
  }

  /** A stored row keeps its id; the one that is added has the new id. */
  lemma IdStep(config: Config, l: Ledger, step: Step, h: Hash)
    requires Enabled(l, step) && h in Next(config, l, step).rows
    ensures var row := Next(config, l, step).rows[h];
            || (h in l.rows && row.id == l.rows[h].id)
            || (step.Issue? && h == step.hash && row.id == step.id)
            || (step.Rotate? && h == step.newHash && row.id == step.newId)
  {
  }

  /** The token stored before the step that a token stored after it descends from. */
  function Ancestor(l: Ledger, step: Step, h: Hash): Hash {
    if step.Rotate? && h == step.newHash then step.hash else h
  }

  /** Subject, tenant and login of a token stored after the step come from its ancestor,
      unless it was just issued for a new login. */
  lemma OwnerStep(config: Config, l: Ledger, step: Step, h: Hash)
    requires Known(l) && Enabled(l, step) && h in Next(config, l, step).rows
    ensures var l', h0 := Next(config, l, step), Ancestor(l, step, h);
            if h0 in l.rows then
              && h in l'.origin && h0 in l.origin && l'.origin[h].login == l.origin[h0].login
              && l'.rows[h].subject == l.rows[h0].subject && l'.rows[h].tenantId == l.rows[h0].tenantId
            else step.Issue? && h == step.hash && h !in l.origin && l'.origin[h].login == |l.origin|
  {
  }

  lemma OneOwnerStays(config: Config, l: Ledger, step: Step)
    requires Known(l) && Numbered(l.origin) && OneOwner(l) && Enabled(l, step)
    ensures OneOwner(Next(config, l, step))
  {
    var l' := Next(config, l, step);
    forall h, k | SameLogin(l', h, k) && h in l'.rows && k in l'.rows
      ensures l'.rows[h].subject == l'.rows[k].subject && l'.rows[h].tenantId == l'.rows[k].tenantId
    {
      SameOwner(config, l, step, h, k);
    }
  }

  lemma SameOwner(config: Config, l: Ledger, step: Step, h: Hash, k: Hash)
    requires Known(l) && Numbered(l.origin) && OneOwner(l) && Enabled(l, step)
    requires var l' := Next(config, l, step); SameLogin(l', h, k) && h in l'.rows && k in l'.rows
    ensures var rows := Next(config, l, step).rows;
            rows[h].subject == rows[k].subject && rows[h].tenantId == rows[k].tenantId
  {
    var h0, k0 := Ancestor(l, step, h), Ancestor(l, step, k);
    OwnerStep(config, l, step, h);
    OwnerStep(config, l, step, k);
    if h0 in l.rows && k0 in l.rows {
      assert SameLogin(l, h0, k0);
    }
  }

  lemma InvHolds(config: Config, l: Ledger, step: Step)
    requires Inv(l) && Enabled(l, step)
    ensures Inv(Next(config, l, step))
  {
    KnownStep(config, l, step);
    IdsStayUnique(config, l, step);
    OnlyNewestStaysLive(config, l, step);
    OneOwnerStays(config, l, step);
  }

  predicate ValidRun(config: Config, l: Ledger, steps: seq<Step>)
    decreases |steps|
  {
    steps == [] || (Enabled(l, steps[0]) && ValidRun(config, Next(config, l, steps[0]), steps[1..]))
  }

  function Run(config: Config, l: Ledger, steps: seq<Step>): Ledger
    requires ValidRun(config, l, steps)
    decreases |steps|
  {
    if steps == [] then l else Run(config, Next(config, l, steps[0]), steps[1..])
  }

  function Rotations(config: Config, l: Ledger, steps: seq<Step>, h: Hash): nat
    requires ValidRun(config, l, steps)
    decreases |steps|
  {
    if steps == [] then 0
    else (if Rotates(config, l, steps[0], h) then 1 else 0) + Rotations(config, Next(config, l, steps[0]), steps[1..], h)
  }

  lemma {:induction false} RunKeepsInv(config: Config, l: Ledger, steps: seq<Step>)
    requires Inv(l) && ValidRun(config, l, steps)
    ensures Inv(Run(config, l, steps))
    decreases |steps|
  {
    if steps != [] {
      InvHolds(config, l, steps[0]);
      RunKeepsInv(config, Next(config, l, steps[0]), steps[1..]);
    }
  }

  lemma {:induction false} RunKeepsKnown(config: Config, l: Ledger, steps: seq<Step>)
    requires Known(l) && ValidRun(config, l, steps)
    ensures Known(Run(config, l, steps))
    decreases |steps|
  {
    if steps != [] {
      KnownStep(config, l, steps[0]);
      RunKeepsKnown(config, Next(config, l, steps[0]), steps[1..]);
    }
  }

  /** In every run a login has at most one token that is not
      revoked, and that token is the last one issued for it. */
  lemma OneLiveTokenPerLogin(config: Config, steps: seq<Step>, h: Hash, k: Hash)
    requires ValidRun(config, EMPTY, steps)
    ensures var l := Run(config, EMPTY, steps);
            Live(l, h) && SameLogin(l, h, k) ==>
              && l.origin[k].number <= l.origin[h].number
              && (k != h ==> !Live(l, k))
              && (k in l.rows ==> l.rows[k].subject == l.rows[h].subject)
  {
    RunKeepsInv(config, EMPTY, steps);
    var l := Run(config, EMPTY, steps);
    if Live(l, h) && SameLogin(l, h, k) {
      assert SameLogin(l, k, h);
    }
  }

  lemma KnownStep(config: Config, l: Ledger, step: Step)
    requires Known(l) && Enabled(l, step)
    ensures Known(Next(config, l, step))
  {
  }

  /** A token that is spent can never again be rotated. */
  lemma {:induction false} SpentForever(config: Config, l: Ledger, steps: seq<Step>, h: Hash)
    requires Known(l) && ValidRun(config, l, steps) && Spent(l, h)
    ensures Rotations(config, l, steps, h) == 0 && Spent(Run(config, l, steps), h)
    decreases |steps|
  {
    if steps != [] {
      KnownStep(config, l, steps[0]);
      SpentStep(config, l, steps[0], h);
      SpentForever(config, Next(config, l, steps[0]), steps[1..], h);
    }
  }

  /** Each token rotates successfully at most once in every run. */
  lemma {:induction false} RotatesAtMostOnce(config: Config, l: Ledger, steps: seq<Step>, h: Hash)
    requires Known(l) && ValidRun(config, l, steps)
    ensures Rotations(config, l, steps, h) <= 1
    decreases |steps|
  {
    if steps != [] {
      KnownStep(config, l, steps[0]);
      if Rotates(config, l, steps[0], h) {
        RotatesSpends(config, l, steps[0], h);
        SpentForever(config, Next(config, l, steps[0]), steps[1..], h);
      } else {
        RotatesAtMostOnce(config, Next(config, l, steps[0]), steps[1..], h);
      }
    }
  }

  /** A recorded revocation is never overwritten or cleared; the row disappears only by
      cleanup, no earlier than thirty days after its expiry. */
  lemma {:induction false} RevocationIsPermanent(config: Config, l: Ledger, steps: seq<Step>, h: Hash)
    requires Known(l) && ValidRun(config, l, steps) && h in l.rows && l.rows[h].revokedAt.Some?
    ensures h in Run(config, l, steps).rows ==> Run(config, l, steps).rows[h] == l.rows[h]
    ensures h !in Run(config, l, steps).rows ==>
              exists s <- steps :: s.Cleanup? && l.rows[h].expiresAt + RETENTION_DAYS * DAY_MS < s.now
    decreases |steps|
  {
    if steps != [] {
      var l' := Next(config, l, steps[0]);
      KnownStep(config, l, steps[0]);
      RowStep(config, l, steps[0], h);
      if h in l'.rows {
        RevocationIsPermanent(config, l', steps[1..], h);
      } else {
        SpentStep(config, l, steps[0], h);
        NeverReissued(config, l', steps[1..], h);
      }
    }
  }

  lemma {:induction false} NeverReissued(config: Config, l: Ledger, steps: seq<Step>, h: Hash)
    requires Known(l) && ValidRun(config, l, steps) && h in l.origin && h !in l.rows
    ensures h !in Run(config, l, steps).rows
    decreases |steps|
  {
    if steps != [] {
      KnownStep(config, l, steps[0]);
      SpentStep(config, l, steps[0], h);
      NeverReissued(config, Next(config, l, steps[0]), steps[1..], h);
    }
  }

  // ----- Sessions -----

  /** What ends the life of a stored token: its rotation or logout, a mass revocation or a
      replay against its subject, or its cleanup. */
  predicate Touches(l: Ledger, step: Step, h: Hash)
    requires h in l.rows
  {
    match step
    case Issue(_, _, _, _, _) => false
    case Rotate(k, _, _, _) =>
      k == h || (k in l.rows && l.rows[k].revokedAt.Some? && l.rows[k].subject == l.rows[h].subject)
    case Logout(k, _) => k == h
    case RevokeAll(subject, _) => subject == l.rows[h].subject
    case Cleanup(now) => l.rows[h].expiresAt + RETENTION_DAYS * DAY_MS < now
  }

  predicate Untouched(config: Config, l: Ledger, steps: seq<Step>, h: Hash)
    requires ValidRun(config, l, steps) && h in l.rows
    decreases |steps|
  {
    steps == [] ||
    (var l' := Next(config, l, steps[0]);
     !Touches(l, steps[0], h) && h in l'.rows && Untouched(config, l', steps[1..], h))
  }

  /** A step that does not touch a token leaves its row as it is. */
  lemma UntouchedRow(config: Config, l: Ledger, step: Step, h: Hash)
    requires Known(l) && UniqueIds(l.rows) && Enabled(l, step) && h in l.rows && !Touches(l, step, h)
    ensures h in Next(config, l, step).rows && Next(config, l, step).rows[h] == l.rows[h]
  {
  }

  /** Nothing else ends a session: through every run that does not touch it a live token
      stays as it is, and presenting it succeeds exactly until its expiry. */
  lemma {:induction false} SessionSurvives(config: Config, l: Ledger, steps: seq<Step>, h: Hash, newId: RowId, newHash: Hash, now: int)
    requires Known(l) && UniqueIds(l.rows) && ValidRun(config, l, steps) && Live(l, h)
    requires Untouched(config, l, steps, h)
    ensures Rotated(Run(config, l, steps).rows, config, h, newId, newHash, now).1
              == if now <= l.rows[h].expiresAt then Ok(l.rows[h]) else Err(Expired)
    decreases |steps|
  {
    if steps != [] {
      KnownStep(config, l, steps[0]);
      IdsStayUnique(config, l, steps[0]);
      UntouchedRow(config, l, steps[0], h);
      SessionSurvives(config, Next(config, l, steps[0]), steps[1..], h, newId, newHash, now);
    }
  }

  /** A token that a login or a rotation issues is live, belongs to its subject and tenant,
      and runs for the time of its kind: if nothing touches it, it is accepted exactly until
      that time is over. */
  lemma IssuedTokenLives(config: Config, l: Ledger, step: Step, h: Hash, owner: Subject, steps: seq<Step>,
                         newId: RowId, newHash: Hash, now: int)
    requires Inv(l) && Enabled(l, step)
    requires || (step.Issue? && step.hash == h && step.subject == owner)
             || (step.Rotate? && step.newHash == h && Rotates(config, l, step, step.hash) && l.rows[step.hash].subject == owner)
    requires ValidRun(config, Next(config, l, step), steps) && h in Next(config, l, step).rows
    requires Untouched(config, Next(config, l, step), steps, h)
    ensures var r := Rotated(Run(config, Next(config, l, step), steps).rows, config, h, newId, newHash, now).1;
            && (r.Ok? <==> now <= step.now + (if owner.kind == BUser then config.ttlBSec else config.ttlParentSec) * 1000)
            && (r.Ok? ==> r.value.subject == owner && r.value.lastUsedAt.None?
                          && r.value.tenantId == if step.Issue? then step.tenantId else l.rows[step.hash].tenantId)
            && (r.Err? ==> r.error == Expired)
  {
    InvHolds(config, l, step);
    SessionSurvives(config, Next(config, l, step), steps, h, newId, newHash, now);
  }

  // ----- Logout and cleanup -----

  /** A logout revokes a live token there and then, and touches no other row; presented with
      a token that is revoked or not stored it does nothing. */
  lemma LogoutEffect(config: Config, l: Ledger, h: Hash, now: int, k: Hash)
    requires UniqueIds(l.rows) && k in l.rows
    ensures var rows := Next(config, l, Logout(h, now)).rows;
            && rows.Keys == l.rows.Keys
            && rows[k] == if k == h && l.rows[k].revokedAt.None?
                          then l.rows[k].(revokedAt := Some(now), lastUsedAt := Some(now)) else l.rows[k]
  {
  }

  /** A logout is final: the token is never rotated in any continuation, and presenting it
      until thirty days past its expiry is a replay. */
  lemma LogoutEndsSession(config: Config, l: Ledger, h: Hash, at: int, steps: seq<Step>, newId: RowId, newHash: Hash, now: int)
    requires Inv(l) && h in l.rows && ValidRun(config, Next(config, l, Logout(h, at)), steps)
    ensures Rotations(config, Next(config, l, Logout(h, at)), steps, h) == 0
    ensures CleanupsUntil(steps, l.rows[h].expiresAt + RETENTION_DAYS * DAY_MS) ==>
              Rotated(Run(config, Next(config, l, Logout(h, at)), steps).rows, config, h, newId, newHash, now).1 == Err(Revoked)
  {
    var l' := Next(config, l, Logout(h, at));
    LogoutEffect(config, l, h, at, h);
    InvHolds(config, l, Logout(h, at));
    SpentForever(config, l', steps, h);
    RevocationIsPermanent(config, l', steps, h);
  }

  /** A cleanup deletes exactly the rows that expired more than thirty days ago, revoked or
      not, and leaves the others as they are. */
  lemma CleanupExactly(config: Config, l: Ledger, now: int, h: Hash)
    ensures var rows := Next(config, l, Cleanup(now)).rows;
            && (h in rows <==> h in l.rows && now <= l.rows[h].expiresAt + 30 * DAY_MS)
            && (h in rows ==> rows[h] == l.rows[h])
  {
  }

  /** A deleted token is invalid forever. */
  lemma ForgottenIsInvalid(config: Config, l: Ledger, steps: seq<Step>, h: Hash, newId: RowId, newHash: Hash, now: int)
    requires Known(l) && ValidRun(config, l, steps) && h in l.origin && h !in l.rows
    ensures var rows := Run(config, l, steps).rows;
            Rotated(rows, config, h, newId, newHash, now) == (rows, Err(InvalidRefreshToken))
  {
    NeverReissued(config, l, steps, h);
  }

  // ----- Replay -----

  /** Presenting a stored token that is already revoked, expired or not, revokes every
      token of its subject and touches no other row. */
  lemma ReplayRevokesSubject(config: Config, l: Ledger, step: Step)
    requires Known(l) && Enabled(l, step) && step.Rotate? && step.hash in l.rows && l.rows[step.hash].revokedAt.Some?
    ensures var l', subject := Next(config, l, step), l.rows[step.hash].subject;
            && Rotated(l.rows, config, step.hash, step.newId, step.newHash, step.now).1 == Err(Revoked)
            && l'.rows.Keys == l.rows.Keys
            && forall h <- l.rows.Keys :: if l.rows[h].subject == subject then !Live(l', h) else l'.rows[h] == l.rows[h]
  {
  }

  /** After a replay, no token issued to the subject before it is ever accepted again; rows
      already deleted by cleanup included. */
  lemma ReplayKillsSubject(config: Config, l: Ledger, step: Step, steps: seq<Step>, h: Hash)
    requires Known(l) && Enabled(l, step) && step.Rotate? && step.hash in l.rows && l.rows[step.hash].revokedAt.Some?
    requires ValidRun(config, Next(config, l, step), steps)
    requires h in l.origin && (h in l.rows ==> l.rows[h].subject == l.rows[step.hash].subject)
    ensures Rotations(config, Next(config, l, step), steps, h) == 0
  {
    ReplayRevokesSubject(config, l, step);
    KnownStep(config, l, step);
    assert Spent(Next(config, l, step), h);
    SpentForever(config, Next(config, l, step), steps, h);
  }

  predicate CleanupsUntil(steps: seq<Step>, end: int) {
    forall s <- steps :: s.Cleanup? ==> s.now <= end
  }

  /** Reuse is detected. Whoever presents a token after it was rotated, at any later point
      until thirty days past its expiry, is refused, and the subject is left without a
      live token: its honest holder and the thief alike must log in again. */
  lemma ReuseIsDetected(config: Config, l: Ledger, first: Step, between: seq<Step>, again: Step, k: Hash)
    requires Known(l) && Enabled(l, first) && first.Rotate? && Rotates(config, l, first, first.hash)
    requires ValidRun(config, Next(config, l, first), between)
    requires CleanupsUntil(between, l.rows[first.hash].expiresAt + RETENTION_DAYS * DAY_MS)
    requires again.Rotate? && again.hash == first.hash && Enabled(Run(config, Next(config, l, first), between), again)
    ensures var mid := Run(config, Next(config, l, first), between);
            && Rotated(mid.rows, config, again.hash, again.newId, again.newHash, again.now).1 == Err(Revoked)
            && (k in mid.rows && mid.rows[k].subject == l.rows[first.hash].subject ==> !Live(Next(config, mid, again), k))
  {
    var l1 := Next(config, l, first);
    KnownStep(config, l, first);
    RotatesSpends(config, l, first, first.hash);
    RowStep(config, l, first, first.hash);
    RevocationIsPermanent(config, l1, between, first.hash);
    RunKeepsKnown(config, l1, between);
    ReplayRevokesSubject(config, Run(config, l1, between), again);
  }
}

/**
 The same table under statement-level interleaving. `rotate` reads the row, revokes it
 and inserts its successor in three separate statements, with no lock and no
 transaction around them; a request may also stop between any two of them.
 */
module SplitRotation {
  import opened Common
  import RT = RefreshTokens

  type Hash = RT.Hash
  type Request = nat

  /** A request whose read of the row of `hash` was accepted, before and after its revoke
      statement. */
  datatype Pending = Read(hash: Hash, row: RT.Row) | Revoked(hash: Hash, row: RT.Row)

  /** `issued` holds every hash ever inserted. */
  datatype State = State(rows: RT.Table, issued: set<Hash>, pending: map<Request, Pending>)

  const EMPTY: State := State(map[], {}, map[])

  datatype Step =
    | Issue(subject: RT.Subject, tenantId: Option<string>, id: RT.RowId, newHash: Hash, now: int)
    | ReadRow(req: Request, hash: Hash, now: int)
    | RevokeRow(req: Request, now: int)
    | InsertRow(req: Request, newId: RT.RowId, newHash: Hash, now: int)
    | RevokeById(id: RT.RowId, now: int)
    | RevokeAll(subject: RT.Subject, now: int)
    | Cleanup(now: int)

  /** `rotate` goes past its checks. */
  predicate Accepts(s: State, h: Hash, now: int) {
    h in s.rows && s.rows[h].revokedAt.None? && s.rows[h].expiresAt >= now
  }

  predicate Enabled(s: State, step: Step) {
    match step
    case Issue(_, _, id, h, _) => h !in s.issued && RT.FreshId(s.rows, id)
    case ReadRow(req, _, _) => req !in s.pending
    case RevokeRow(req, _) => req in s.pending && s.pending[req].Read?
    case InsertRow(req, id, h, _) =>
      req in s.pending && s.pending[req].Revoked? && h !in s.issued && RT.FreshId(s.rows, id)
    case _ => true
  }

  function Inserted(s: State, h: Hash, row: RT.Row): State {
    s.(rows := s.rows[h := row], issued := s.issued + {h})
  }

  function Next(config: RT.Config, s: State, step: Step): State
    requires Enabled(s, step)
  {
    match step
    case Issue(subject, tenantId, id, h, now) => Inserted(s, h, RT.NewRow(config, id, subject, tenantId, now))
    case ReadRow(req, h, now) =>
      if Accepts(s, h, now) then s.(pending := s.pending[req := Read(h, s.rows[h])]) else s
    case RevokeRow(req, now) =>
      var p := s.pending[req];
      s.(rows := RT.RevokeId(s.rows, p.row.id, now), pending := s.pending[req := Revoked(p.hash, p.row)])
    case InsertRow(req, id, h, now) =>
      var row := s.pending[req].row;
      Inserted(s, h, RT.NewRow(config, id, row.subject, row.tenantId, now)).(pending := s.pending - {req})
    case RevokeById(id, now) => s.(rows := RT.RevokeId(s.rows, id, now))
    case RevokeAll(subject, now) => s.(rows := RT.RevokeSubject(s.rows, subject, now))
    case Cleanup(now) => s.(rows := RT.Cleaned(s.rows, RT.RETENTION_DAYS, now))
  }

  predicate ValidRun(config: RT.Config, s: State, steps: seq<Step>)
    decreases |steps|
  {
    steps == [] || (Enabled(s, steps[0]) && ValidRun(config, Next(config, s, steps[0]), steps[1..]))
  }

  function Run(config: RT.Config, s: State, steps: seq<Step>): State
    requires ValidRun(config, s, steps)
    decreases |steps|
  {
    if steps == [] then s else Run(config, Next(config, s, steps[0]), steps[1..])
  }

  lemma RunCons(config: RT.Config, s: State, step: Step, rest: seq<Step>)
    requires Enabled(s, step) && ValidRun(config, Next(config, s, step), rest)
    ensures ValidRun(config, s, [step] + rest) && Run(config, s, [step] + rest) == Run(config, Next(config, s, step), rest)
  {
  }

  /** The statements outside `rotate` do to the table what the whole calls do. */
  lemma OtherStatementsAgree(config: RT.Config, s: State, step: Step, l: RT.Ledger, h: Hash)
    requires Enabled(s, step) && l.rows == s.rows
    ensures step.Issue? && RT.Enabled(l, RT.Issue(step.subject, step.tenantId, step.id, step.newHash, step.now)) ==>
              && Next(config, s, step).rows
                   == RT.Next(config, l, RT.Issue(step.subject, step.tenantId, step.id, step.newHash, step.now)).rows
              && step.newHash in Next(config, s, step).issued
    ensures step.RevokeAll? ==> Next(config, s, step).rows == RT.Next(config, l, RT.RevokeAll(step.subject, step.now)).rows
    ensures step.Cleanup? ==> Next(config, s, step).rows == RT.Next(config, l, RT.Cleanup(step.now)).rows
    ensures step.RevokeById? && h in s.rows && s.rows[h].revokedAt.None? && s.rows[h].id == step.id ==>
              Next(config, s, step).rows == RT.Next(config, l, RT.Logout(h, step.now)).rows
    ensures !step.ReadRow? && !step.RevokeRow? && !step.InsertRow? ==> Next(config, s, step).pending == s.pending
  {
  }

  // ----- What every interleaving keeps -----

  /** The token is revoked, or was and is deleted. */
  predicate Spent(s: State, h: Hash) {
    h in s.issued && (h in s.rows ==> s.rows[h].revokedAt.Some?)
  }

  /** Stored tokens were issued; the row a request read is still the one stored under its
      hash, unless deleted, and once the request is past its revoke it is revoked. */
  ghost predicate Inv(s: State) {
    && s.rows.Keys <= s.issued
    && forall req <- s.pending.Keys :: PendingOk(s, s.pending[req])
  }

  predicate PendingOk(s: State, p: Pending) {
    && p.hash in s.issued
    && (p.hash in s.rows ==> s.rows[p.hash].id == p.row.id)
    && (p.Revoked? ==> Spent(s, p.hash))
  }

  /** What a step may do to the row of a hash issued before: leave it, revoke it, delete it. */
  lemma IssuedStep(config: RT.Config, s: State, step: Step, h: Hash)
    requires s.rows.Keys <= s.issued && Enabled(s, step) && h in s.issued
    ensures var s' := Next(config, s, step);
            && h in s'.issued
            && (h in s'.rows ==> h in s.rows && s'.rows[h].id == s.rows[h].id
                                 && (s.rows[h].revokedAt.Some? ==> s'.rows[h] == s.rows[h]))
            && (h in s.rows && h !in s'.rows ==>
                  step.Cleanup? && s.rows[h].expiresAt + RT.RETENTION_DAYS * RT.DAY_MS < step.now)
  {
  }

  lemma PendingStays(config: RT.Config, s: State, step: Step, p: Pending)
    requires s.rows.Keys <= s.issued && Enabled(s, step) && PendingOk(s, p)
    ensures PendingOk(Next(config, s, step), p)
  {
    IssuedStep(config, s, step, p.hash);
  }

  lemma InvStep(config: RT.Config, s: State, step: Step)
    requires Inv(s) && Enabled(s, step)
    ensures Inv(Next(config, s, step))
  {
    var s' := Next(config, s, step);
    forall req | req in s'.pending
      ensures PendingOk(s', s'.pending[req])
    {
      if req in s.pending {
        PendingStays(config, s, step, s.pending[req]);
      }
    }
  }

  /** Under every interleaving of statements, cleanups included, the first revocation time
      of a row stands until the row is deleted, no earlier than thirty days after its
      expiry, and from the first revoke statement on no read of the token is accepted. */
  lemma {:induction false} RevocationStands(config: RT.Config, s: State, steps: seq<Step>, h: Hash, now: int)
    requires s.rows.Keys <= s.issued && ValidRun(config, s, steps) && h in s.rows && s.rows[h].revokedAt.Some?
    ensures var rows := Run(config, s, steps).rows;
            && (h in rows ==> rows[h] == s.rows[h])
            && (h !in rows ==> exists t <- steps :: t.Cleanup? && s.rows[h].expiresAt + RT.RETENTION_DAYS * RT.DAY_MS < t.now)
    ensures !Accepts(Run(config, s, steps), h, now)
    decreases |steps|
  {
    if steps != [] {
      var s' := Next(config, s, steps[0]);
      IssuedStep(config, s, steps[0], h);
      if h in s'.rows {
        RevocationStands(config, s', steps[1..], h, now);
      } else {
        NeverReissued(config, s', steps[1..], h);
      }
    }
  }

  lemma {:induction false} NeverReissued(config: RT.Config, s: State, steps: seq<Step>, h: Hash)
    requires s.rows.Keys <= s.issued && ValidRun(config, s, steps) && h in s.issued && h !in s.rows
    ensures h !in Run(config, s, steps).rows
    decreases |steps|
  {
    if steps != [] {
      IssuedStep(config, s, steps[0], h);
      NeverReissued(config, Next(config, s, steps[0]), steps[1..], h);
    }
  }

  // ----- When a token is used once -----

  /** Some request has read the row of `h` and not yet finished. */
  predicate Held(s: State, h: Hash) {
    exists req <- s.pending.Keys :: s.pending[req].hash == h
  }

  predicate AcceptedRead(s: State, step: Step, h: Hash) {
    step.ReadRow? && step.hash == h && Accepts(s, h, step.now)
  }

  /** How many requests get past the checks of `rotate` with the token `h` in a run. */
  function AcceptedReads(config: RT.Config, s: State, steps: seq<Step>, h: Hash): nat
    requires ValidRun(config, s, steps)
    decreases |steps|
  {
    if steps == [] then 0
    else (if AcceptedRead(s, steps[0], h) then 1 else 0) + AcceptedReads(config, Next(config, s, steps[0]), steps[1..], h)
  }

  /** How many of them do so while another request holds the row. */
  function OverlappingReads(config: RT.Config, s: State, steps: seq<Step>, h: Hash): nat
    requires ValidRun(config, s, steps)
    decreases |steps|
  {
    if steps == [] then 0
    else (if AcceptedRead(s, steps[0], h) && Held(s, h) then 1 else 0)
         + OverlappingReads(config, Next(config, s, steps[0]), steps[1..], h)
  }

  /** From its first accepted read on, a token is held by a request or spent. */
  lemma HeldOrSpentStep(config: RT.Config, s: State, step: Step, h: Hash)
    requires Inv(s) && Enabled(s, step)
    requires Held(s, h) || Spent(s, h) || AcceptedRead(s, step, h)
    ensures Held(Next(config, s, step), h) || Spent(Next(config, s, step), h)
  {
    var s' := Next(config, s, step);
    if AcceptedRead(s, step, h) {
      assert s'.pending[step.req].hash == h;
    } else if Spent(s, h) {
      IssuedStep(config, s, step, h);
    } else {
      var req :| req in s.pending && s.pending[req].hash == h;
      PendingStays(config, s, step, s.pending[req]);
      if req in s'.pending {
        assert s'.pending[req].hash == h;
      }
    }
  }

  lemma {:induction false} OnceUsedOnlyOverlaps(config: RT.Config, s: State, steps: seq<Step>, h: Hash)
    requires Inv(s) && ValidRun(config, s, steps) && (Held(s, h) || Spent(s, h))
    ensures AcceptedReads(config, s, steps, h) == OverlappingReads(config, s, steps, h)
    decreases |steps|
  {
    if steps != [] {
      InvStep(config, s, steps[0]);
      HeldOrSpentStep(config, s, steps[0], h);
      OnceUsedOnlyOverlaps(config, Next(config, s, steps[0]), steps[1..], h);
    }
  }

  /** Every accepted read of a token but the first happens while another request holds its
      row. */
  lemma {:induction false} AllButFirstOverlap(config: RT.Config, s: State, steps: seq<Step>, h: Hash)
    requires Inv(s) && ValidRun(config, s, steps) && !Held(s, h)
    ensures var n := AcceptedReads(config, s, steps, h);
            OverlappingReads(config, s, steps, h) == if n == 0 then 0 else n - 1
    decreases |steps|
  {
    if steps != [] {
      InvStep(config, s, steps[0]);
      var s' := Next(config, s, steps[0]);
      if AcceptedRead(s, steps[0], h) {
        HeldOrSpentStep(config, s, steps[0], h);
        OnceUsedOnlyOverlaps(config, s', steps[1..], h);
      } else {
        AllButFirstOverlap(config, s', steps[1..], h);
      }
    }
  }

  /** In every run of statements a token gets at most one request past the checks exactly
      when no accepted read of it happens while another request holds its row. */
  lemma UsedOnceExactly(config: RT.Config, steps: seq<Step>, h: Hash)
    requires ValidRun(config, EMPTY, steps)
    ensures AcceptedReads(config, EMPTY, steps, h) <= 1 <==> OverlappingReads(config, EMPTY, steps, h) == 0
  {
    AllButFirstOverlap(config, EMPTY, steps, h);
  }

  /** How many requests finish a rotation of `h`: they issue its successor. */
  function Rotations(config: RT.Config, s: State, steps: seq<Step>, h: Hash): nat
    requires ValidRun(config, s, steps)
    decreases |steps|
  {
    if steps == [] then 0
    else (if steps[0].InsertRow? && s.pending[steps[0].req].hash == h then 1 else 0)
         + Rotations(config, Next(config, s, steps[0]), steps[1..], h)
  }

  /** The requests that hold the row of `h`. */
  function Holders(s: State, h: Hash): set<Request> {
    set req | req in s.pending && s.pending[req].hash == h
  }

  lemma HoldersStep(config: RT.Config, s: State, step: Step, h: Hash)
    requires Enabled(s, step)
    ensures Holders(Next(config, s, step), h)
              == if AcceptedRead(s, step, h) then Holders(s, h) + {step.req}
                 else if step.InsertRow? && s.pending[step.req].hash == h then Holders(s, h) - {step.req}
                 else Holders(s, h)
  {
    var s' := Next(config, s, step);
    forall req
      ensures req in Holders(s', h) <==>
                if AcceptedRead(s, step, h) then req in Holders(s, h) || req == step.req
                else req in Holders(s, h) && !(step.InsertRow? && req == step.req)
    {
    }
  }

  /** Accepted reads are conserved: each ends in one finished rotation or is still held. */
  lemma {:induction false} ReadsAccounted(config: RT.Config, s: State, steps: seq<Step>, h: Hash)
    requires ValidRun(config, s, steps)
    ensures Rotations(config, s, steps, h) + |Holders(Run(config, s, steps), h)|
              == AcceptedReads(config, s, steps, h) + |Holders(s, h)|
    decreases |steps|
  {
    if steps != [] {
      HoldersStep(config, s, steps[0], h);
      assert AcceptedRead(s, steps[0], h) ==> steps[0].req !in Holders(s, h);
      ReadsAccounted(config, Next(config, s, steps[0]), steps[1..], h);
    }
  }

  /** Without an overlapping read no interleaving rotates a token twice. */
  lemma RotatesOnceWithoutOverlap(config: RT.Config, steps: seq<Step>, h: Hash)
    requires ValidRun(config, EMPTY, steps) && OverlappingReads(config, EMPTY, steps, h) == 0
    ensures Rotations(config, EMPTY, steps, h) <= 1
  {
    UsedOnceExactly(config, steps, h);
    ReadsAccounted(config, EMPTY, steps, h);
  }

  // ----- Mass revocation -----

  /** The subject has no live token. */
  predicate Dead(s: State, subject: RT.Subject) {
    forall h <- s.rows.Keys :: s.rows[h].subject == subject ==> s.rows[h].revokedAt.Some?
  }

  /** At every point of the run the subject has no live token. */
  predicate StaysDead(config: RT.Config, s: State, steps: seq<Step>, subject: RT.Subject)
    requires ValidRun(config, s, steps)
    decreases |steps|
  {
    Dead(s, subject) && (steps == [] || StaysDead(config, Next(config, s, steps[0]), steps[1..], subject))
  }

  /** The step finishes a rotation that had read a token of the subject by the time of `s`. */
  predicate FinishesStale(s: State, step: Step, subject: RT.Subject) {
    step.InsertRow? && step.req in s.pending && s.pending[step.req].row.subject == subject
  }

  predicate Login(step: Step, subject: RT.Subject) {
    step.Issue? && step.subject == subject
  }

  lemma DeadStep(config: RT.Config, s: State, step: Step, subject: RT.Subject)
    requires Dead(s, subject) && Enabled(s, step) && !Login(step, subject)
    ensures Dead(Next(config, s, step), subject) <==> !FinishesStale(s, step, subject)
  {
    if FinishesStale(s, step, subject) {
      assert step.newHash in Next(config, s, step).rows;
    }
  }

  /** While the subject is dead, no request comes to hold one of its tokens. */
  lemma StaleStays(config: RT.Config, s: State, step: Step, later: Step, subject: RT.Subject)
    requires Dead(s, subject) && Enabled(s, step) && !FinishesStale(s, step, subject)
    ensures FinishesStale(Next(config, s, step), later, subject) <==> FinishesStale(s, later, subject)
  {
  }

  lemma {:induction false} DeadUntilStaleInsert(config: RT.Config, s: State, steps: seq<Step>, subject: RT.Subject)
    requires Dead(s, subject) && ValidRun(config, s, steps) && forall step <- steps :: !Login(step, subject)
    ensures StaysDead(config, s, steps, subject) <==> forall step <- steps :: !FinishesStale(s, step, subject)
    decreases |steps|
  {
    if steps != [] {
      var first, rest := steps[0], steps[1..];
      assert forall step :: step in steps <==> step == first || step in rest;
      DeadStep(config, s, first, subject);
      if !FinishesStale(s, first, subject) {
        DeadUntilStaleInsert(config, Next(config, s, first), rest, subject);
        forall step | step in rest
          ensures FinishesStale(Next(config, s, first), step, subject) <==> FinishesStale(s, step, subject)
        {
          StaleStays(config, s, first, step, subject);
        }
      }
    }
  }

  /** After a mass revocation, be it by an administrator or by a replay, and until the next
      login, a subject is without a live token exactly as long as no rotation that had read
      one of its tokens before finishes after. */
  lemma RevokeAllIsFinalExactly(config: RT.Config, s: State, subject: RT.Subject, now: int, steps: seq<Step>)
    requires ValidRun(config, Next(config, s, RevokeAll(subject, now)), steps)
    requires forall step <- steps :: !Login(step, subject)
    ensures StaysDead(config, Next(config, s, RevokeAll(subject, now)), steps, subject) <==>
              forall step <- steps :: !FinishesStale(s, step, subject)
  {
    DeadUntilStaleInsert(config, Next(config, s, RevokeAll(subject, now)), steps, subject);
  }

  // ----- An uninterrupted call -----

  /** The statements one call of `rotate` executes when nothing comes between them. */
  function RotateAlone(s: State, req: Request, h: Hash, newId: RT.RowId, newHash: Hash, now: int): seq<Step> {
    [ReadRow(req, h, now)] +
      if Accepts(s, h, now) then [RevokeRow(req, now)] + ([InsertRow(req, newId, newHash, now)] + [])
      else if h in s.rows && s.rows[h].revokedAt.Some? then [RevokeAll(s.rows[h].subject, now)] + []
      else []
  }

  /** Uninterrupted, the statements of `rotate` compose to the one-step rotation. */
  lemma RotateRunsAlone(config: RT.Config, s: State, req: Request, h: Hash, newId: RT.RowId, newHash: Hash, now: int)
    requires Inv(s) && req !in s.pending && newHash !in s.issued && RT.FreshId(s.rows, newId)
    ensures var steps, (rows, r) := RotateAlone(s, req, h, newId, newHash, now), RT.Rotated(s.rows, config, h, newId, newHash, now);
            && ValidRun(config, s, steps)
            && Run(config, s, steps) == State(rows, if r.Ok? then s.issued + {newHash} else s.issued, s.pending)
  {
    var steps := RotateAlone(s, req, h, newId, newHash, now);
    var s1 := Next(config, s, ReadRow(req, h, now));
    if Accepts(s, h, now) {
      var s2 := Next(config, s1, RevokeRow(req, now));
      assert s2.rows.Keys == s.rows.Keys;
      var insert := InsertRow(req, newId, newHash, now);
      assert Next(config, s2, insert).pending == s.pending;
      RunCons(config, s2, insert, []);
      RunCons(config, s1, RevokeRow(req, now), [insert] + []);
    } else if h in s.rows && s.rows[h].revokedAt.Some? {
      RunCons(config, s1, RevokeAll(s.rows[h].subject, now), []);
    }
    RunCons(config, s, ReadRow(req, h, now), steps[1..]);
  }

  // ----- An overlap can always go wrong -----

  /** A second request reads the row that `t` holds, and both run to their end. */
  function Overlap(t: Request, u: Request, h: Hash, id1: RT.RowId, h1: Hash, id2: RT.RowId, h2: Hash, now: int): seq<Step> {
    [ReadRow(u, h, now)] + ([RevokeRow(t, now)] + ([RevokeRow(u, now)] + Inserts(t, u, id1, h1, id2, h2, now)))
  }

  function Inserts(t: Request, u: Request, id1: RT.RowId, h1: Hash, id2: RT.RowId, h2: Hash, now: int): seq<Step> {
    [InsertRow(t, id1, h1, now)] + ([InsertRow(u, id2, h2, now)] + [])
  }

  /** Two requests past their revoke statements both insert a successor. */
  lemma BothInsert(config: RT.Config, s: State, t: Request, u: Request, h: Hash,
                   id1: RT.RowId, h1: Hash, id2: RT.RowId, h2: Hash, now: int)
    requires t != u && t in s.pending && u in s.pending && s.pending[t].Revoked? && s.pending[u].Revoked?
    requires s.pending[t].hash == s.pending[u].hash == h
    requires h1 != h2 && h1 !in s.issued && h2 !in s.issued && id1 != id2
    requires RT.FreshId(s.rows, id1) && RT.FreshId(s.rows, id2)
    ensures var steps := Inserts(t, u, id1, h1, id2, h2, now);
            && ValidRun(config, s, steps) && Rotations(config, s, steps, h) == 2
            && var rows := Run(config, s, steps).rows;
               h1 in rows && h2 in rows && rows[h1].revokedAt.None? && rows[h2].revokedAt.None?
  {
    var steps := Inserts(t, u, id1, h1, id2, h2, now);
    var s1 := Next(config, s, steps[0]);
    var s2 := Next(config, s1, InsertRow(u, id2, h2, now));
    RunCons(config, s1, InsertRow(u, id2, h2, now), []);
    RunCons(config, s, steps[0], [InsertRow(u, id2, h2, now)] + []);
    RotationsCons(config, s1, InsertRow(u, id2, h2, now), [], h);
    RotationsCons(config, s, steps[0], [InsertRow(u, id2, h2, now)] + [], h);
  }

  lemma RotationsCons(config: RT.Config, s: State, step: Step, rest: seq<Step>, h: Hash)
    requires Enabled(s, step) && ValidRun(config, Next(config, s, step), rest) && ValidRun(config, s, [step] + rest)
    ensures Rotations(config, s, [step] + rest, h)
              == (if step.InsertRow? && s.pending[step.req].hash == h then 1 else 0)
                 + Rotations(config, Next(config, s, step), rest, h)
  {
  }

  /** Single use does not survive an overlap: after every accepted read of a row that another
      request holds, both requests can finish, and the token is rotated twice and leaves two
      live successors. */
  lemma OverlappingReadsBothRotate(config: RT.Config, s: State, t: Request, u: Request, h: Hash,
                                   id1: RT.RowId, h1: Hash, id2: RT.RowId, h2: Hash, now: int)
    requires Inv(s) && AcceptedRead(s, ReadRow(u, h, now), h) && u !in s.pending
    requires t in s.pending && s.pending[t].hash == h
    requires h1 != h2 && h1 !in s.issued && h2 !in s.issued && id1 != id2
    requires RT.FreshId(s.rows, id1) && RT.FreshId(s.rows, id2)
    ensures var steps := Overlap(t, u, h, id1, h1, id2, h2, now);
            && ValidRun(config, s, steps) && Rotations(config, s, steps, h) == 2
            && var rows := Run(config, s, steps).rows;
               h1 in rows && h2 in rows && rows[h1].revokedAt.None? && rows[h2].revokedAt.None?
  {
    var read, revokeT, revokeU := ReadRow(u, h, now), RevokeRow(t, now), RevokeRow(u, now);
    var inserts := Inserts(t, u, id1, h1, id2, h2, now);
    assert PendingOk(s, s.pending[t]);
    var s1 := Next(config, s, read);
    var s2 := Next(config, s1, revokeT);
    var s3 := Next(config, s2, revokeU);
    BothInsert(config, s3, t, u, h, id1, h1, id2, h2, now);
    RunCons(config, s2, revokeU, inserts);
    RunCons(config, s1, revokeT, [revokeU] + inserts);
    RunCons(config, s, read, [revokeT] + ([revokeU] + inserts));
    RotationsCons(config, s2, revokeU, inserts, h);
    RotationsCons(config, s1, revokeT, [revokeU] + inserts, h);
    RotationsCons(config, s, read, [revokeT] + ([revokeU] + inserts), h);
  }
}
