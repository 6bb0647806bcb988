/**
Concurrent writers of the audit log as a state machine. A locked writer (`AuditLogger.append`, or
`chain_append_via_pool` on a transaction's connection) reads the tail and inserts while it holds
the write lock; an unlocked writer (`chain_append_via_pool` without a connection, and the prune
record) reads in one step and inserts in a later one (src/stackowl/audit/logger.py:92-153, 263-304;
src/stackowl/audit/retention.py:209-224).
*/
module AuditWriters {
  import opened Common
  import opened Payload
  import opened AuditChain

  datatype Writer =
    | Idle
    | HoldsLock
    | HasTail(prev: string)              // under the lock
    | HasSnapshot(prev: string, at: nat) // no lock; `at` is the log's length when it was read

  /** `hashed` collects every payload a writer hashed; `stale` is the index of the first row that
      was inserted behind rows its writer had not read. */
  datatype System = System(rows: seq<Row>, nextId: nat, lock: Option<nat>, writers: map<nat, Writer>,
                           hashed: set<string>, stale: Option<nat>)

  datatype Step =
    | Begin(w: nat)
    | ReadTail(w: nat)
    | InsertCommit(w: nat, e: Event)
    | Rollback(w: nat)
    | Snapshot(w: nat)
    | InsertUnlocked(w: nat, e: Event)

  predicate IsLocked(st: Step) {
    !st.Snapshot? && !st.InsertUnlocked?
  }

  function At(s: System, w: nat): Writer {
    if w in s.writers then s.writers[w] else Idle
  }

  predicate Enabled(s: System, st: Step) {
    match st
    case Begin(w) => At(s, w).Idle? && s.lock.None?
    case ReadTail(w) => At(s, w).HoldsLock?
    case InsertCommit(w, _) => At(s, w).HasTail?
    case Rollback(w) => At(s, w).HoldsLock? || At(s, w).HasTail?
    case Snapshot(w) => At(s, w).Idle?
    case InsertUnlocked(w, _) => At(s, w).HasSnapshot? && s.lock.None?
  }

  function Insert(d: Digest, s: System, w: nat, prev: string, e: Event): System {
    s.(rows := s.rows + [ChainedRow(d, s.nextId, prev, e)], nextId := s.nextId + 1,
       writers := s.writers[w := Idle], hashed := s.hashed + {EventPayload(d, prev, e)})
  }

  function Apply(d: Digest, s: System, st: Step): System
    requires Enabled(s, st)
  {
    match st
    case Begin(w) => s.(lock := Some(w), writers := s.writers[w := HoldsLock])
    case ReadTail(w) => s.(writers := s.writers[w := HasTail(TailHash(s.rows))])
    case InsertCommit(w, e) => Insert(d, s, w, At(s, w).prev, e).(lock := None)
    case Rollback(w) => s.(lock := None, writers := s.writers[w := Idle])
    case Snapshot(w) => s.(writers := s.writers[w := HasSnapshot(TailHash(s.rows), |s.rows|)])
    case InsertUnlocked(w, e) =>
      var at := At(s, w).at;
      Insert(d, s, w, At(s, w).prev, e)
      .(stale := if s.stale.None? && at != |s.rows| then Some(|s.rows|) else s.stale)
  }

  predicate CanRun(d: Digest, s: System, run: seq<Step>)
    decreases |run|, 0
  {
    run == [] || (CanRun(d, s, run[..|run| - 1]) && Enabled(After(d, s, run[..|run| - 1]), Last(run)))
  }

  function After(d: Digest, s: System, run: seq<Step>): System
    requires CanRun(d, s, run)
    decreases |run|, 1
  {
    if run == [] then s else Apply(d, After(d, s, run[..|run| - 1]), Last(run))
  }

  /** No writer is mid-way, and no stale insert has been seen. */
  predicate Quiet(s: System) {
    s.lock.None? && s.writers == map[] && s.hashed == {} && s.stale.None?
  }

  // ---- Conservation ----

  /** The events that the inserts of a run record, in order. */
  function Inserted(run: seq<Step>): seq<Event> {
    if run == [] then []
    else Inserted(run[..|run| - 1]) + if Last(run).InsertCommit? || Last(run).InsertUnlocked? then [Last(run).e] else []
  }

  /** Whatever interleaves, every insert adds its own event at the end and nothing else changes the log. */
  lemma {:induction false} EveryInsertIsRecorded(d: Digest, s: System, run: seq<Step>)
    requires CanRun(d, s, run)
    ensures s.rows <= After(d, s, run).rows && |After(d, s, run).rows| == |s.rows| + |Inserted(run)|
    ensures forall i :: |s.rows| <= i < |After(d, s, run).rows| ==>
              After(d, s, run).rows[i].event == Inserted(run)[i - |s.rows|]
              && After(d, s, run).rows[i].id == s.nextId + i - |s.rows|
    ensures After(d, s, run).nextId == s.nextId + |Inserted(run)|
  {
    hide Apply, Enabled;
    if run != [] {
      EveryInsertIsRecorded(d, s, run[..|run| - 1]);
      var before := After(d, s, run[..|run| - 1]);
      StepRecords(d, before, Last(run));
      assert forall i :: 0 <= i < |before.rows| ==> After(d, s, run).rows[i] == before.rows[i];
    }
  }

  lemma StepRecords(d: Digest, s: System, st: Step)
    requires Enabled(s, st)
    ensures var s' := Apply(d, s, st);
            if st.InsertCommit? || st.InsertUnlocked?
            then s'.nextId == s.nextId + 1 && |s'.rows| == |s.rows| + 1 && s.rows <= s'.rows
                 && s'.rows[|s.rows|].event == st.e && s'.rows[|s.rows|].id == s.nextId
            else s'.rows == s.rows && s'.nextId == s.nextId
  {
    hide EventPayload;
  }

  // ---- Locked writers ----

  /** The lock is held exactly by the writer that is mid-way under it, and the tail it read is still the tail. */
  predicate LockInv(s: System) {
    && (forall w :: w in s.writers && (s.writers[w].HoldsLock? || s.writers[w].HasTail?) ==>
          s.lock == Some(w) && (s.writers[w].HasTail? ==> s.writers[w].prev == TailHash(s.rows)))
    && (s.lock.Some? ==> At(s, s.lock.value).HoldsLock? || At(s, s.lock.value).HasTail?)
  }

  lemma LockInvStep(d: Digest, s: System, st: Step)
    requires LockInv(s) && Enabled(s, st)
    ensures LockInv(Apply(d, s, st))
  {
    hide EventPayload;
  }

  /**
  From any verified log, v1 rows allowed, every interleaving of writers that read and insert
  under the lock ends in a verified log.
  */
  lemma {:induction false} LockedRunsStayVerified(d: Digest, s: System, run: seq<Step>)
    requires Quiet(s) && Verifies(d, s.rows) && CanRun(d, s, run)
    requires forall i :: 0 <= i < |run| ==> IsLocked(run[i])
    ensures LockInv(After(d, s, run)) && Verifies(d, After(d, s, run).rows)
  {
    if run != [] {
      var before := After(d, s, run[..|run| - 1]);
      LockedRunsStayVerified(d, s, run[..|run| - 1]);
      LockInvStep(d, before, Last(run));
      if Last(run).InsertCommit? {
        AppendKeepsVerified(d, before.rows, before.nextId, Last(run).e);
      }
    }
  }

  // ---- All writers ----

  /** Every snapshot is the predecessor hash of the position it was read at. */
  predicate SnapshotInv(s: System) {
    forall w :: w in s.writers && s.writers[w].HasSnapshot? ==>
      s.writers[w].at <= |s.rows| && s.writers[w].prev == PrevHash(s.rows, s.writers[w].at)
  }

  predicate Inv(d: Digest, s: System) {
    LockInv(s) && SnapshotInv(s) && AllV2(s.rows) && Verdict(d, s.rows, s.stale)
  }

  lemma SnapshotInvStep(d: Digest, s: System, st: Step)
    requires SnapshotInv(s) && Enabled(s, st)
    ensures SnapshotInv(Apply(d, s, st))
  {
    hide EventPayload;
  }

  /** What an insert brings into play: the payload its writer hashed, and those verification will hash. */
  lemma InsertPayloads(d: Digest, s: System, w: nat, prev: string, e: Event)
    ensures var t := Insert(d, s, w, prev, e);
            PayloadsOf(d, s.rows) <= PayloadsOf(d, t.rows) && EventPayload(d, prev, e) in t.hashed && s.hashed <= t.hashed
  {
    hide EventPayload;
    PayloadsGrow(d, s.rows, ChainedRow(d, s.nextId, prev, e));
  }

  lemma VerdictStep(d: Digest, s: System, st: Step, p: set<string>)
    requires Inv(d, s) && Enabled(s, st) && CollisionFree(d, p)
    requires PayloadsOf(d, Apply(d, s, st).rows) <= p && Apply(d, s, st).hashed <= p
    ensures Verdict(d, Apply(d, s, st).rows, Apply(d, s, st).stale)
  {
    hide EventPayload, CollisionFree, Verdict, PayloadsOf;
    if st.InsertCommit? || st.InsertUnlocked? {
      var at := if st.InsertCommit? then |s.rows| else At(s, st.w).at;
      InsertPayloads(d, s, st.w, At(s, st.w).prev, st.e);
      VerdictAfterInsert(d, s.rows, s.nextId, at, st.e, s.stale, p);
    }
  }

  lemma PayloadsMonotone(d: Digest, s: System, st: Step)
    requires Enabled(s, st)
    ensures PayloadsOf(d, s.rows) <= PayloadsOf(d, Apply(d, s, st).rows) && s.hashed <= Apply(d, s, st).hashed
  {
    hide EventPayload;
    if st.InsertCommit? || st.InsertUnlocked? {
      InsertPayloads(d, s, st.w, At(s, st.w).prev, st.e);
    }
  }

  /**
  From any verified v2 log, over every interleaving of locked and unlocked writers: verification
  passes exactly when no insert landed behind a row its writer had not read, and otherwise names
  the first such row.
  */
  lemma {:induction false} VerdictNamesFirstStaleInsert(d: Digest, s: System, run: seq<Step>, p: set<string>)
    requires Quiet(s) && Verifies(d, s.rows) && AllV2(s.rows) && CanRun(d, s, run)
    requires PayloadsOf(d, After(d, s, run).rows) <= p && After(d, s, run).hashed <= p && CollisionFree(d, p)
    ensures Inv(d, After(d, s, run))
    ensures Verifies(d, After(d, s, run).rows) <==> After(d, s, run).stale.None?
    ensures After(d, s, run).stale.Some? ==> Names(d, After(d, s, run).rows, After(d, s, run).stale.value)
  {
    hide EventPayload, CollisionFree, Linked, PayloadsOf;
    if run != [] {
      var before := After(d, s, run[..|run| - 1]);
      PayloadsMonotone(d, before, Last(run));
      VerdictNamesFirstStaleInsert(d, s, run[..|run| - 1], p);
      LockInvStep(d, before, Last(run));
      SnapshotInvStep(d, before, Last(run));
      VerdictStep(d, before, Last(run), p);
    }
  }

  /**
  What `stale` records: it is set by a step exactly when that step is an unlocked insert and the
  log has grown since its writer's snapshot, and it then is that writer's own row.
  */
  lemma StaleIsTheRacedRow(d: Digest, s: System, st: Step)
    requires SnapshotInv(s) && Enabled(s, st) && s.stale.None?
    ensures Apply(d, s, st).stale.Some? <==> st.InsertUnlocked? && At(s, st.w).at < |s.rows|
    ensures Apply(d, s, st).stale.Some? ==>
              Apply(d, s, st).rows[Apply(d, s, st).stale.value] == ChainedRow(d, s.nextId, At(s, st.w).prev, st.e)
  {
    hide EventPayload;
  }
}
