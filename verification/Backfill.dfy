/**
 The batched backfill of hashed and encrypted phone numbers. Rows are held in id order.
 Hashing and encryption are arbitrary functions, encryption with a nonce; any attempt to
 update a row may fail.
 */
module Backfill {
  import opened Common

  type Blob = seq<int>

  datatype Row = Row(phone: Option<string>, hash: Option<Blob>, encrypted: Option<Blob>)

  /** The environment: which update attempts fail, and the two cryptographic functions. */
  datatype Env = Env(fails: nat -> bool, hash: string -> Blob, encrypt: (string, nat) -> Blob)

  datatype Summary = Summary(total: nat, processed: nat, ok: nat, failed: nat, skipped: nat)

  predicate Pending(r: Row) {
    r.phone.Some? && (r.hash.None? || r.encrypted.None?)
  }

  function CountPending(rows: seq<Row>): nat {
    if rows == [] then 0 else CountPending(rows[..|rows| - 1]) + if Pending(rows[|rows| - 1]) then 1 else 0
  }

  /** The pending rows among the first `n`, in id order. */
  function PendingIds(rows: seq<Row>, n: nat): (ids: seq<nat>)
    requires n <= |rows|
    ensures forall i | 0 <= i < |ids| :: ids[i] < n && Pending(rows[ids[i]])
    ensures forall i, j | 0 <= i < j < |ids| :: ids[i] < ids[j]
    ensures |ids| == CountPending(rows[..n])
  {
    if n == 0 then []
    else
      assert rows[..n][..n - 1] == rows[..n - 1];
      PendingIds(rows, n - 1) + if Pending(rows[n - 1]) then [n - 1] else []
  }

  /** `SELECT … ORDER BY id LIMIT batchSize` */
  function Batch(rows: seq<Row>, batchSize: nat): (ids: seq<nat>)
    ensures forall i | 0 <= i < |ids| :: ids[i] < |rows| && Pending(rows[ids[i]])
    ensures forall i, j | 0 <= i < j < |ids| :: ids[i] < ids[j]
    ensures |ids| <= batchSize
    ensures batchSize > 0 ==> (ids == [] <==> CountPending(rows) == 0)
  {
    var all := PendingIds(rows, |rows|);
    assert rows[..|rows|] == rows;
    if |all| <= batchSize then all else all[..batchSize]
  }

  function Completed(env: Env, r: Row, nonce: nat): Row
    requires r.phone.Some?
  {
    r.(hash := if r.hash.Some? then r.hash else Some(env.hash(r.phone.value)),
       encrypted := if r.encrypted.Some? then r.encrypted else Some(env.encrypt(r.phone.value, nonce)))
  }

  /** A row is as it was, or was pending with a phone number and has been completed; what
      it already held is kept. */
  ghost predicate RowBackfilled(env: Env, r: Row, r': Row) {
    r' == r || (Pending(r) && r.phone.value != "" && exists nonce :: r' == Completed(env, r, nonce))
  }

  ghost predicate Backfilled(env: Env, rows: seq<Row>, rows': seq<Row>) {
    |rows'| == |rows| && forall i | 0 <= i < |rows| :: RowBackfilled(env, rows[i], rows'[i])
  }

  lemma {:induction false} CountPendingUpdate(rows: seq<Row>, id: nat, r: Row)
    requires id < |rows| && Pending(rows[id]) && !Pending(r)
    ensures CountPending(rows[id := r]) + 1 == CountPending(rows)
    decreases |rows|
  {
    var front, rows' := rows[..|rows| - 1], rows[id := r];
    if id == |rows| - 1 {
      assert rows'[..|rows| - 1] == front;
    } else {
      assert rows'[..|rows| - 1] == front[id := r];
      CountPendingUpdate(front, id, r);
    }
  }

  /** Nothing the row held is lost or replaced. */
  predicate Kept(r: Row, r': Row) {
    && r'.phone == r.phone
    && (r.hash.Some? ==> r'.hash == r.hash)
    && (r.encrypted.Some? ==> r'.encrypted == r.encrypted)
  }

  /** A row with a phone number has both blobs. */
  predicate Filled(r: Row) {
    r.phone.Some? ==> r.hash.Some? && r.encrypted.Some?
  }

  /** What the run may do to a row: keep all it held, and add to rows with a phone number
      the two blobs of that number. */
  lemma BackfillKeeps(env: Env, r: Row, r': Row)
    requires RowBackfilled(env, r, r')
    ensures Kept(r, r')
    ensures r' != r ==> && !Filled(r) && Filled(r') && r.phone.value != ""
                        && (r.hash.None? ==> r'.hash == Some(env.hash(r.phone.value)))
                        && (r.encrypted.None? ==> exists nonce :: r'.encrypted == Some(env.encrypt(r.phone.value, nonce)))
  {
  }

  lemma {:induction false} NonePending(rows: seq<Row>, i: nat)
    requires CountPending(rows) == 0 && i < |rows|
    ensures Filled(rows[i])
    decreases |rows|
  {
    if i < |rows| - 1 {
      NonePending(rows[..|rows| - 1], i);
    }
  }

  class PhoneTable {
    var rows: seq<Row>

    constructor (rows: seq<Row>)
      ensures this.rows == rows
    {
      this.rows := rows;
    }

    /** One batch. Its rows are read before any of them is updated. */
    method RunBatch(env: Env, ids: seq<nat>, s: Summary, ghost before: seq<Row>) returns (s': Summary)
      requires forall i | 0 <= i < |ids| :: ids[i] < |rows| && Pending(rows[ids[i]])
      requires forall i, j | 0 <= i < j < |ids| :: ids[i] < ids[j]
      requires Backfilled(env, before, rows)
      modifies this
      ensures Backfilled(env, before, rows)
      ensures CountPending(rows) + s'.ok == CountPending(old(rows)) + s.ok
      ensures s'.processed == s.processed + |ids| && s'.total == s.total
      ensures s'.ok + s'.failed + s'.skipped == s.ok + s.failed + s.skipped + |ids|
      ensures (forall n :: !env.fails(n)) ==> s'.failed == s.failed
      ensures (forall r <- before :: r.phone != Some("")) ==> s'.skipped == s.skipped
    {
      ghost var read := rows;
      s' := s;
      for i := 0 to |ids|
        invariant Backfilled(env, before, rows) && |rows| == |read|
        invariant forall j | i <= j < |ids| :: rows[ids[j]] == read[ids[j]]
        invariant CountPending(rows) + s'.ok == CountPending(read) + s.ok
        invariant s'.processed == s.processed && s'.total == s.total
        invariant s'.ok + s'.failed + s'.skipped == s.ok + s.failed + s.skipped + i
        invariant (forall n :: !env.fails(n)) ==> s'.failed == s.failed
        invariant (forall r <- before :: r.phone != Some("")) ==> s'.skipped == s.skipped
      {
        var id := ids[i];
        assert RowBackfilled(env, before[id], rows[id]);
        var row := rows[id];
        var attempt := s'.ok + s'.failed + s'.skipped;
        if row.phone.value == "" {
          assert before[id] in before;
          s' := s'.(skipped := s'.skipped + 1);
        } else if env.fails(attempt) {
          s' := s'.(failed := s'.failed + 1);
        } else {
          var completed := Completed(env, row, attempt);
          CountPendingUpdate(rows, id, completed);
          rows := rows[id := completed];
          s' := s'.(ok := s'.ok + 1);
        }
      }
      s' := s'.(processed := s'.processed + |ids|);
    }

    /** The whole script. It ends for every pattern of failures; the pending rows drop by
        exactly the successes, and what is left over is at most what failed or was
        skipped. */
    method Run(env: Env, apply: bool, batchSize: nat) returns (s: Summary)
      requires batchSize > 0
      modifies this
      ensures s.total == CountPending(old(rows))
      ensures Backfilled(env, old(rows), rows)
      ensures s.ok + s.failed + s.skipped == s.processed < s.total + batchSize
      ensures CountPending(rows) == s.total - s.ok
      ensures apply ==> CountPending(rows) <= s.failed + s.skipped
      ensures !apply || s.total == 0 ==> rows == old(rows)
      ensures (forall n :: !env.fails(n)) ==> s.failed == 0
      ensures (forall r <- old(rows) :: r.phone != Some("")) ==> s.skipped == 0
    {
      s := Summary(CountPending(rows), 0, 0, 0, 0);
      if s.total == 0 || !apply {
        return;
      }
      while s.processed < s.total
        invariant Backfilled(env, old(rows), rows) && s.total == CountPending(old(rows))
        invariant CountPending(rows) == s.total - s.ok
        invariant s.ok + s.failed + s.skipped == s.processed < s.total + batchSize
        invariant (forall n :: !env.fails(n)) ==> s.failed == 0
        invariant (forall r <- old(rows) :: r.phone != Some("")) ==> s.skipped == 0
        decreases s.total - s.processed
      {
        var ids := Batch(rows, batchSize);
        if |ids| == 0 {
          break;
        }
        s := RunBatch(env, ids, s, old(rows));
      }
    }

    /** Without failures and empty phone numbers one run completes every row, and a second
        run changes nothing: the table stays as the first run left it. */
    method RunTwice(env: Env, batchSize: nat) returns (first: Summary, ghost between: seq<Row>, second: Summary)
      requires batchSize > 0 && (forall n :: !env.fails(n)) && forall r <- rows :: r.phone != Some("")
      modifies this
      ensures first.ok == first.total && Backfilled(env, old(rows), between) && CountPending(between) == 0
      ensures |between| == |old(rows)| && forall i | 0 <= i < |between| :: Kept(old(rows)[i], between[i]) && Filled(between[i])
      ensures second == Summary(0, 0, 0, 0, 0) && rows == between
    {
      first := Run(env, true, batchSize);
      between := rows;
      forall i | 0 <= i < |between|
        ensures Kept(old(rows)[i], between[i]) && Filled(between[i])
      {
        BackfillKeeps(env, old(rows)[i], between[i]);
        NonePending(between, i);
      }
      second := Run(env, true, batchSize);
    }
  }

  // ----- The read-back check -----

  /** The row may be in the sample that the script reads back. */
  predicate Sampled(r: Row) {
    r.hash.Some? && r.encrypted.Some?
  }

  /** The check of a sampled row; one without a phone number is skipped and then missing
      from the number of rows that passed, so it fails. */
  predicate Passes(env: Env, decrypt: Blob -> string, r: Row)
    requires Sampled(r)
  {
    r.phone.Some? && r.phone.value != "" && r.hash.value == env.hash(r.phone.value) && decrypt(r.encrypted.value) == r.phone.value
  }

  /** What the row holds belongs to its phone number. */
  predicate Sound(env: Env, decrypt: Blob -> string, r: Row) {
    && (r.hash.Some? ==> r.phone.Some? && r.phone.value != "" && r.hash.value == env.hash(r.phone.value))
    && (r.encrypted.Some? ==> r.phone.Some? && r.phone.value != "" && decrypt(r.encrypted.value) == r.phone.value)
  }

  /** If decryption undoes encryption, the check after a run passes on a row exactly when
      what that row held before the run belonged to its phone number. */
  lemma PassesExactly(env: Env, decrypt: Blob -> string, r: Row, r': Row)
    requires forall p, n :: decrypt(env.encrypt(p, n)) == p
    requires RowBackfilled(env, r, r') && Sampled(r')
    ensures Passes(env, decrypt, r') <==> Sound(env, decrypt, r)
  {
  }

  /** A row that lost its phone number and kept both blobs fails the check, whatever they
      are; a run leaves it as it is. */
  lemma BlobsWithoutPhoneFail(env: Env, decrypt: Blob -> string, hash: Blob, encrypted: Blob)
    ensures var r := Row(None, Some(hash), Some(encrypted));
            !Pending(r) && Sampled(r) && !Passes(env, decrypt, r)
  {
  }

  /** Hence no sample of a run's result fails the check exactly when the rows it completed
      or found complete held nothing wrong before. */
  lemma BackfilledVerifies(env: Env, decrypt: Blob -> string, rows: seq<Row>, rows': seq<Row>)
    requires forall p, n :: decrypt(env.encrypt(p, n)) == p
    requires Backfilled(env, rows, rows')
    ensures (forall i: nat | i < |rows'| && Sampled(rows'[i]) :: Passes(env, decrypt, rows'[i]))
              <==> forall i: nat | i < |rows'| && Sampled(rows'[i]) :: Sound(env, decrypt, rows[i])
  {
    forall i: nat | i < |rows'| && Sampled(rows'[i])
      ensures Passes(env, decrypt, rows'[i]) <==> Sound(env, decrypt, rows[i])
    {
      PassesExactly(env, decrypt, rows[i], rows'[i]);
    }
  }
}
