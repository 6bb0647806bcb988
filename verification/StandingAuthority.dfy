/**
Standing authority: the grants table and the audit rows written with it in one transaction
(src/stackowl/authz/standing_authority.py:79-322).
*/
module StandingAuthority {
  import opened Common
  import opened AuditChain
  import JsonText

  const GRANTED := "authority_granted"
  const REVOKED := "authority_revoked"

  datatype Triple = Triple(scopeKind: string, scopeId: string, commandType: string)

  /** One row; the ISO-8601 times are compared as instants. */
  datatype Authority = Authority(id: string, triple: Triple, grantedBy: string, provenance: string,
                                 grantedAt: int, revokedAt: Option<int>)

  /** The `standing_authority` table and the audit log, which share one database. */
  datatype Store = Store(table: seq<Authority>, rows: seq<Row>, nextId: nat)

  function Target(t: Triple): string {
    JsonText.Array3(t.scopeKind, t.scopeId, t.commandType)
  }

  /** Different triples have different targets, whatever quotes, commas or colons they contain. */
  lemma TargetInjective(t: Triple, u: Triple)
    ensures Target(t) == Target(u) <==> t == u
  {
    if Target(t) == Target(u) {
      JsonText.Array3Injective(t.scopeKind, t.scopeId, t.commandType, u.scopeKind, u.scopeId, u.commandType);
    }
  }

  function Member(key: string, value: string): string {
    JsonText.Quote(key) + ":" + JsonText.Quote(value)
  }

  function GrantDetails(a: Authority): string {
    "{" + Member("command_type", a.triple.commandType) + "," + Member("id", a.id) + ","
    + Member("provenance", a.provenance) + "," + Member("scope_id", a.triple.scopeId) + ","
    + Member("scope_kind", a.triple.scopeKind) + "}"
  }

  function RevokeDetails(t: Triple, id: string): string {
    "{" + Member("command_type", t.commandType) + "," + Member("id", id) + ","
    + Member("scope_id", t.scopeId) + "," + Member("scope_kind", t.scopeKind) + "}"
  }

  predicate IsPlainTriple(t: Triple) {
    JsonText.IsPlain(t.scopeKind) && JsonText.IsPlain(t.scopeId) && JsonText.IsPlain(t.commandType)
  }

  /** The target of a plain triple, as it reads in the log. */
  lemma TargetText(t: Triple)
    requires IsPlainTriple(t)
    ensures Target(t) == "[\"" + t.scopeKind + "\",\"" + t.scopeId + "\",\"" + t.commandType + "\"]"
  {
    hide JsonText.Quote, JsonText.IsPlain;
    JsonText.PlainQuote(t.scopeKind);
    JsonText.PlainQuote(t.scopeId);
    JsonText.PlainQuote(t.commandType);
  }

  lemma MemberText(key: string, value: string)
    requires JsonText.IsPlain(key) && JsonText.IsPlain(value)
    ensures Member(key, value) == ("\"" + key + "\":") + ("\"" + value + "\"")
  {
    hide JsonText.Quote;
    JsonText.PlainQuote(key);
    JsonText.PlainQuote(value);
    assert ("\"" + key + "\"") + ":" == "\"" + key + "\":";
  }

  /** The details of the two events for plain values: keys sorted, each with its own value. */
  lemma DetailsText(a: Authority)
    requires IsPlainTriple(a.triple) && JsonText.IsPlain(a.id) && JsonText.IsPlain(a.provenance)
    ensures GrantDetails(a)
            == "{" + ("\"command_type\":" + ("\"" + a.triple.commandType + "\"")) + ","
               + ("\"id\":" + ("\"" + a.id + "\"")) + "," + ("\"provenance\":" + ("\"" + a.provenance + "\"")) + ","
               + ("\"scope_id\":" + ("\"" + a.triple.scopeId + "\"")) + ","
               + ("\"scope_kind\":" + ("\"" + a.triple.scopeKind + "\"")) + "}"
    ensures RevokeDetails(a.triple, a.id)
            == "{" + ("\"command_type\":" + ("\"" + a.triple.commandType + "\"")) + ","
               + ("\"id\":" + ("\"" + a.id + "\"")) + "," + ("\"scope_id\":" + ("\"" + a.triple.scopeId + "\"")) + ","
               + ("\"scope_kind\":" + ("\"" + a.triple.scopeKind + "\"")) + "}"
  {
    hide Member, JsonText.IsPlain;
    CommandTypeText(a.triple.commandType);
    IdText(a.id);
    ProvenanceText(a.provenance);
    ScopeText(a.triple.scopeId, a.triple.scopeKind);
  }

  lemma CommandTypeText(v: string)
    requires JsonText.IsPlain(v)
    ensures Member("command_type", v) == "\"command_type\":" + ("\"" + v + "\"")
  {
    hide Member;
    MemberText("command_type", v);
    assert "\"" + "command_type" + "\":" == "\"command_type\":";
  }

  lemma IdText(v: string)
    requires JsonText.IsPlain(v)
    ensures Member("id", v) == "\"id\":" + ("\"" + v + "\"")
  {
    hide Member;
    MemberText("id", v);
    assert "\"" + "id" + "\":" == "\"id\":";
  }

  lemma ProvenanceText(v: string)
    requires JsonText.IsPlain(v)
    ensures Member("provenance", v) == "\"provenance\":" + ("\"" + v + "\"")
  {
    hide Member;
    MemberText("provenance", v);
    assert "\"" + "provenance" + "\":" == "\"provenance\":";
  }

  lemma ScopeText(id: string, kind: string)
    requires JsonText.IsPlain(id) && JsonText.IsPlain(kind)
    ensures Member("scope_id", id) == "\"scope_id\":" + ("\"" + id + "\"")
    ensures Member("scope_kind", kind) == "\"scope_kind\":" + ("\"" + kind + "\"")
  {
    hide Member;
    MemberText("scope_id", id);
    MemberText("scope_kind", kind);
    assert "\"" + "scope_id" + "\":" == "\"scope_id\":";
    assert "\"" + "scope_kind" + "\":" == "\"scope_kind\":";
  }

  predicate IsActive(a: Authority, t: Triple) {
    a.triple == t && a.revokedAt.None?
  }

  predicate HasActive(table: seq<Authority>, t: Triple) {
    exists i :: 0 <= i < |table| && IsActive(table[i], t)
  }

  /** `a` is what `find_active` may return: an active row of `t` no active row is newer than. */
  predicate IsNewestActive(table: seq<Authority>, t: Triple, a: Authority) {
    a in table && IsActive(a, t) && forall i :: 0 <= i < |table| && IsActive(table[i], t) ==> table[i].grantedAt <= a.grantedAt
  }

  /** UPDATE ... SET revoked_at WHERE triple AND revoked_at IS NULL. */
  function CloseAll(table: seq<Authority>, t: Triple, at: int): (closed: seq<Authority>)
    ensures |closed| == |table| && !HasActive(closed, t)
    ensures forall u :: u != t ==> (HasActive(closed, u) <==> HasActive(table, u))
    ensures forall i :: 0 <= i < |table| ==>
              closed[i] == if IsActive(table[i], t) then table[i].(revokedAt := Some(at)) else table[i]
  {
    var closed := seq(|table|, i requires 0 <= i < |table| =>
      if IsActive(table[i], t) then table[i].(revokedAt := Some(at)) else table[i]);
    assert forall u, i :: u != t && 0 <= i < |table| ==> (IsActive(closed[i], u) <==> IsActive(table[i], u));
    closed
  }

  /** An insert into the log by a writer that read `prev` as the tail hash. */
  function LoggedFrom(d: Digest, s: Store, prev: string, e: Event): Store {
    s.(rows := s.rows + [ChainedRow(d, s.nextId, prev, e)], nextId := s.nextId + 1)
  }

  function Logged(d: Digest, s: Store, e: Event): Store {
    LoggedFrom(d, s, TailHash(s.rows), e)
  }

  function GrantEvent(a: Authority, time: real): Event {
    Event(GRANTED, a.grantedBy, Some(Target(a.triple)), time, GrantDetails(a))
  }

  function RevokeEvent(t: Triple, actor: string, id: string, time: real): Event {
    Event(REVOKED, actor, Some(Target(t)), time, RevokeDetails(t, id))
  }

  /** The grant transaction: one new active row and one audit row. */
  function GrantTxn(d: Digest, s: Store, a: Authority, time: real): Store {
    Logged(d, s.(table := s.table + [a]), GrantEvent(a, time))
  }

  /** The revoke transaction: close every active row of `t`; with none left to close, write nothing. */
  function RevokeTxn(d: Digest, s: Store, t: Triple, actor: string, id: string, at: int, time: real): Store {
    if HasActive(s.table, t)
    then Logged(d, s.(table := CloseAll(s.table, t, at)), RevokeEvent(t, actor, id, time))
    else s
  }

  /** The log gained one row, with the next id and this event. */
  predicate Recorded(s: Store, s': Store, e: Event) {
    && s'.nextId == s.nextId + 1 && |s'.rows| == |s.rows| + 1 && s'.rows[..|s.rows|] == s.rows
    && Last(s'.rows).id == s.nextId && Last(s'.rows).event == e && IsV2(Last(s'.rows))
  }

  // ---- Replaying the table from the log ----

  predicate Concerns(r: Row, t: Triple) {
    (r.event.eventType == GRANTED || r.event.eventType == REVOKED) && r.event.target == Some(Target(t))
  }

  /** The kind of the last authority event with the triple's target. */
  function LastEvent(rows: seq<Row>, t: Triple): Option<string> {
    if rows == [] then None
    else if Concerns(Last(rows), t) then Some(Last(rows).event.eventType)
    else LastEvent(rows[..|rows| - 1], t)
  }

  /** The table can be replayed from the log. */
  ghost predicate Replays(s: Store) {
    forall t :: HasActive(s.table, t) <==> LastEvent(s.rows, t) == Some(GRANTED)
  }

  lemma LastEventAfter(rows: seq<Row>, r: Row, t: Triple)
    ensures LastEvent(rows + [r], t) == if Concerns(r, t) then Some(r.event.eventType) else LastEvent(rows, t)
  {
    assert (rows + [r])[..|rows|] == rows;
  }

  lemma HasActiveAfterGrant(table: seq<Authority>, a: Authority, t: Triple)
    ensures HasActive(table + [a], t) <==> HasActive(table, t) || IsActive(a, t)
  {
    if HasActive(table, t) {
      var i :| 0 <= i < |table| && IsActive(table[i], t);
      assert IsActive((table + [a])[i], t);
    }
    if IsActive(a, t) {
      assert IsActive((table + [a])[|table|], t);
    }
  }

  /** A grant newer than every active one of its triple is the one that is found. */
  lemma NewestGrantIsFound(table: seq<Authority>, a: Authority, found: Authority)
    requires a.revokedAt.None? && forall i :: 0 <= i < |table| && IsActive(table[i], a.triple) ==> table[i].grantedAt < a.grantedAt
    requires IsNewestActive(table + [a], a.triple, found)
    ensures found == a
  {
    assert IsActive((table + [a])[|table|], a.triple);
    assert forall i :: 0 <= i < |table| ==> (table + [a])[i] == table[i];
    assert found in table || found == a;
  }

  lemma GrantKeepsReplay(d: Digest, s: Store, a: Authority, time: real)
    requires Replays(s) && a.revokedAt.None?
    ensures Replays(GrantTxn(d, s, a, time))
  {
    hide Target, GrantDetails, EventPayload;
    forall t ensures HasActive(GrantTxn(d, s, a, time).table, t)
                     <==> LastEvent(GrantTxn(d, s, a, time).rows, t) == Some(GRANTED)
    {
      TargetInjective(a.triple, t);
      HasActiveAfterGrant(s.table, a, t);
      LastEventAfter(s.rows, Last(GrantTxn(d, s, a, time).rows), t);
    }
  }

  lemma RevokeKeepsReplay(d: Digest, s: Store, t: Triple, actor: string, id: string, at: int, time: real)
    requires Replays(s)
    ensures Replays(RevokeTxn(d, s, t, actor, id, at, time))
  {
    hide Target, RevokeDetails, EventPayload;
    if HasActive(s.table, t) {
      forall u ensures HasActive(RevokeTxn(d, s, t, actor, id, at, time).table, u)
                       <==> LastEvent(RevokeTxn(d, s, t, actor, id, at, time).rows, u) == Some(GRANTED)
      {
        TargetInjective(t, u);
        LastEventAfter(s.rows, Last(RevokeTxn(d, s, t, actor, id, at, time).rows), u);
      }
    }
  }

  // ---- Interleaved grants, revokes and other audit writers ----

  /** A revoke that has read an active grant and not yet opened its transaction. */
  datatype Pending = Pending(triple: Triple, actor: string, existing: Authority)

  /** The tail hash an unlocked audit writer has read, and the log's length at that moment. */
  datatype Snapshot = Snapshot(prev: string, at: nat)

  /** `hashed` collects every payload a writer hashed; `stale` is the index of the first row that
      was inserted behind rows its writer had not read. */
  datatype System = System(store: Store, pending: map<nat, Pending>, snapshots: map<nat, Snapshot>,
                           hashed: set<string>, stale: Option<nat>)

  datatype Step =
    | Grant(a: Authority, time: real)
    | RevokeRead(w: nat, t: Triple, actor: string, existing: Authority)
    | RevokeCommit(w: nat, t: Triple, at: int, time: real)
    | OtherEvent(e: Event)                   // another writer, under the lock
    | TakeSnapshot(w: nat)                   // another writer, without the lock: its read
    | InsertUnlocked(w: nat, e: Event)       // and its later insert

  predicate IsOther(e: Event) {
    e.eventType != GRANTED && e.eventType != REVOKED
  }

  predicate Enabled(s: System, st: Step) {
    match st
    case Grant(a, _) => a.revokedAt.None?
    case RevokeRead(w, t, _, a) => w !in s.pending && IsNewestActive(s.store.table, t, a)
    case RevokeCommit(w, t, _, _) => w in s.pending && s.pending[w].triple == t
    case OtherEvent(e) => IsOther(e)
    case TakeSnapshot(w) => w !in s.snapshots
    case InsertUnlocked(w, e) => w in s.snapshots && IsOther(e)
  }

  /** What the step does to the database. */
  function StoreAfter(d: Digest, s: System, st: Step): Store
    requires Enabled(s, st)
  {
    match st
    case Grant(a, time) => GrantTxn(d, s.store, a, time)
    case RevokeCommit(w, t, at, time) =>
      RevokeTxn(d, s.store, t, s.pending[w].actor, s.pending[w].existing.id, at, time)
    case OtherEvent(e) => Logged(d, s.store, e)
    case InsertUnlocked(w, e) => LoggedFrom(d, s.store, s.snapshots[w].prev, e)
    case _ => s.store
  }

  /** Where in the log the step's writer had read up to. */
  function ReadUpTo(s: System, st: Step): nat
    requires Enabled(s, st)
  {
    if st.InsertUnlocked? then s.snapshots[st.w].at else |s.store.rows|
  }

  /** The hash the step's writer chains from. */
  function ReadHash(s: System, st: Step): string
    requires Enabled(s, st)
  {
    if st.InsertUnlocked? then s.snapshots[st.w].prev else TailHash(s.store.rows)
  }

  function Apply(d: Digest, s: System, st: Step): System
    requires Enabled(s, st)
  {
    var store' := StoreAfter(d, s, st);
    var writes := |store'.rows| > |s.store.rows|;
    System(
      store',
      match st {
        case RevokeRead(w, t, actor, a) => s.pending[w := Pending(t, actor, a)]
        case RevokeCommit(w, _, _, _) => s.pending - {w}
        case _ => s.pending
      },
      match st {
        case TakeSnapshot(w) => s.snapshots[w := Snapshot(TailHash(s.store.rows), |s.store.rows|)]
        case InsertUnlocked(w, _) => s.snapshots - {w}
        case _ => s.snapshots
      },
      if writes then s.hashed + {EventPayload(d, ReadHash(s, st), Last(store'.rows).event)} else s.hashed,
      if s.stale.None? && writes && ReadUpTo(s, st) != |s.store.rows| then Some(|s.store.rows|) else s.stale)
  }

  predicate CanRun(d: Digest, s: System, run: seq<Step>)
    decreases |run|, 0
  {
    run == [] || (CanRun(d, s, run[..|run| - 1]) && Enabled(After(d, s, run[..|run| - 1]), Last(run)))
  }

  function After(d: Digest, s: System, run: seq<Step>): System
    requires CanRun(d, s, run)
    decreases |run|, 1
  {
    if run == [] then s else Apply(d, After(d, s, run[..|run| - 1]), Last(run))
  }

  lemma StepKeepsReplay(d: Digest, s: System, st: Step)
    requires Enabled(s, st) && Replays(s.store)
    ensures Replays(Apply(d, s, st).store)
  {
    hide Target, EventPayload, GrantTxn, RevokeTxn, LoggedFrom, Replays;
    match st
    case Grant(a, time) => GrantKeepsReplay(d, s.store, a, time);
    case RevokeCommit(w, t, at, time) =>
      RevokeKeepsReplay(d, s.store, t, s.pending[w].actor, s.pending[w].existing.id, at, time);
    case OtherEvent(e) => OtherEventKeepsReplay(d, s.store, TailHash(s.store.rows), e);
    case InsertUnlocked(w, e) => OtherEventKeepsReplay(d, s.store, s.snapshots[w].prev, e);
    case _ =>
  }

  lemma OtherEventKeepsReplay(d: Digest, s: Store, prev: string, e: Event)
    requires Replays(s) && IsOther(e)
    ensures Replays(LoggedFrom(d, s, prev, e))
  {
    hide Target, EventPayload;
    var s' := LoggedFrom(d, s, prev, e);
    forall t ensures HasActive(s'.table, t) <==> LastEvent(s'.rows, t) == Some(GRANTED) {
      LastEventAfter(s.rows, Last(s'.rows), t);
    }
  }

  /**
  In every interleaving of grants, two-step revokes and other audit writers, locked or not, the
  table can be replayed from the log.
  */
  lemma {:induction false} RunsReplay(d: Digest, s: System, run: seq<Step>)
    requires Replays(s.store) && CanRun(d, s, run)
    ensures Replays(After(d, s, run).store)
  {
    hide Replays, Apply;
    if run != [] {
      RunsReplay(d, s, run[..|run| - 1]);
      StepKeepsReplay(d, After(d, s, run[..|run| - 1]), Last(run));
    }
  }

  const EMPTY := System(Store([], [], 0), map[], map[], {}, None)

  /** From the empty database a triple is active exactly when the last authority event with its target is a grant. */
  lemma EveryRunReplays(d: Digest, run: seq<Step>, t: Triple)
    requires CanRun(d, EMPTY, run)
    ensures HasActive(After(d, EMPTY, run).store.table, t)
            <==> LastEvent(After(d, EMPTY, run).store.rows, t) == Some(GRANTED)
  {
    hide After, CanRun, HasActive, LastEvent;
    EmptyReplays();
    RunsReplay(d, EMPTY, run);
  }

  lemma EmptyReplays()
    ensures Replays(EMPTY.store)
  {
  }

  // ---- What verification says along the way ----

  /** The shape of the log after a step: unchanged, or one row longer, chained from what its writer had read. */
  lemma StepAppends(d: Digest, s: System, st: Step)
    requires Enabled(s, st)
    ensures var rows, rows' := s.store.rows, Apply(d, s, st).store.rows;
            rows' == rows
            || (rows' != [] && rows' == rows + [ChainedRow(d, s.store.nextId, ReadHash(s, st), Last(rows').event)])
  {
    hide Target, EventPayload, GrantDetails, RevokeDetails, HasActive;
  }

  /** Steps that read and insert under the lock keep any verified log verified, v1 rows included. */
  lemma LockedStepKeepsChain(d: Digest, s: System, st: Step)
    requires Enabled(s, st) && !st.InsertUnlocked? && Verifies(d, s.store.rows)
    ensures Verifies(d, Apply(d, s, st).store.rows)
  {
    hide EventPayload, Linked, StoreAfter;
    StepAppends(d, s, st);
    var rows' := Apply(d, s, st).store.rows;
    if rows' != s.store.rows {
      AppendKeepsVerified(d, s.store.rows, s.store.nextId, Last(rows').event);
    }
  }

  lemma {:induction false} LockedRunsVerify(d: Digest, s: System, run: seq<Step>)
    requires Verifies(d, s.store.rows) && CanRun(d, s, run)
    requires forall i :: 0 <= i < |run| ==> !run[i].InsertUnlocked?
    ensures Verifies(d, After(d, s, run).store.rows)
  {
    hide Verifies, Apply;
    if run != [] {
      LockedRunsVerify(d, s, run[..|run| - 1]);
      LockedStepKeepsChain(d, After(d, s, run[..|run| - 1]), Last(run));
    }
  }

  /** Every snapshot is the predecessor hash of the position it was read at. */
  predicate SnapshotsOk(s: System) {
    forall w :: w in s.snapshots ==>
      s.snapshots[w].at <= |s.store.rows| && s.snapshots[w].prev == PrevHash(s.store.rows, s.snapshots[w].at)
  }

  predicate ChainInv(d: Digest, s: System) {
    SnapshotsOk(s) && AllV2(s.store.rows) && Verdict(d, s.store.rows, s.stale)
  }

  lemma StepKeepsChainInv(d: Digest, s: System, st: Step, p: set<string>)
    requires Enabled(s, st) && ChainInv(d, s) && CollisionFree(d, p)
    requires PayloadsOf(d, Apply(d, s, st).store.rows) <= p && Apply(d, s, st).hashed <= p
    ensures ChainInv(d, Apply(d, s, st)) && PayloadsOf(d, s.store.rows) <= p && s.hashed <= p
  {
    hide EventPayload, CollisionFree, Verdict, PayloadsOf, StoreAfter;
    StepAppends(d, s, st);
    var rows' := Apply(d, s, st).store.rows;
    if rows' != s.store.rows {
      var e := Last(rows').event;
      assert ReadHash(s, st) == PrevHash(s.store.rows, ReadUpTo(s, st));
      VerdictAfterInsert(d, s.store.rows, s.store.nextId, ReadUpTo(s, st), e, s.stale, p);
      PayloadsGrow(d, s.store.rows, Last(rows'));
    }
  }

  /**
  From any verified v2 log, over every interleaving of grants, revokes and other writers, locked or
  not: verification passes exactly when no insert landed behind a row its writer had not read, and
  otherwise names the first such row, which is never a grant's or a revoke's.
  */
  lemma {:induction false} RunsVerdict(d: Digest, s: System, run: seq<Step>, p: set<string>)
    requires Verifies(d, s.store.rows) && AllV2(s.store.rows) && s.snapshots == map[] && s.stale.None? && CanRun(d, s, run)
    requires PayloadsOf(d, After(d, s, run).store.rows) <= p && After(d, s, run).hashed <= p && CollisionFree(d, p)
    ensures ChainInv(d, After(d, s, run))
    ensures Verifies(d, After(d, s, run).store.rows) <==> After(d, s, run).stale.None?
    ensures After(d, s, run).stale.Some? ==>
              Names(d, After(d, s, run).store.rows, After(d, s, run).stale.value)
              && IsOther(After(d, s, run).store.rows[After(d, s, run).stale.value].event)
  {
    hide EventPayload, CollisionFree, Linked, PayloadsOf, StoreAfter;
    if run != [] {
      var before, st := After(d, s, run[..|run| - 1]), Last(run);
      StepKeepsPayloads(d, before, st);
      RunsVerdict(d, s, run[..|run| - 1], p);
      StepKeepsChainInv(d, before, st, p);
      StepAppends(d, before, st);
      if before.stale.None? && After(d, s, run).stale.Some? {
        StaleIsOther(d, before, st);
      }
    }
  }

  lemma StepKeepsPayloads(d: Digest, s: System, st: Step)
    requires Enabled(s, st)
    ensures PayloadsOf(d, s.store.rows) <= PayloadsOf(d, Apply(d, s, st).store.rows) && s.hashed <= Apply(d, s, st).hashed
  {
    hide EventPayload, PayloadsOf, StoreAfter, RowPayload;
    StepAppends(d, s, st);
    var rows' := Apply(d, s, st).store.rows;
    if rows' != s.store.rows {
      PayloadsGrow(d, s.store.rows, Last(rows'));
    }
  }

  lemma StaleIsOther(d: Digest, s: System, st: Step)
    requires Enabled(s, st) && s.stale.None? && Apply(d, s, st).stale.Some?
    ensures Apply(d, s, st).stale.value < |Apply(d, s, st).store.rows|
    ensures IsOther(Apply(d, s, st).store.rows[Apply(d, s, st).stale.value].event)
  {
    hide EventPayload;
  }

  /** Row `i` is untouched, or was open and is now closed with everything else unchanged. */
  predicate OnlyCloses(before: seq<Authority>, after: seq<Authority>) {
    |before| <= |after| && forall i :: 0 <= i < |before| ==>
      after[i] == before[i]
      || (before[i].revokedAt.None? && after[i].revokedAt.Some? && after[i].(revokedAt := None) == before[i])
  }

  /** Over every run rows are never lost, `revoked_at` is set at most once and never cleared or changed. */
  lemma {:induction false} RevokedAtIsSetOnce(d: Digest, s: System, run: seq<Step>)
    requires CanRun(d, s, run)
    ensures OnlyCloses(s.store.table, After(d, s, run).store.table)
  {
    hide Target, EventPayload, GrantDetails, RevokeDetails;
    if run != [] {
      var mid := After(d, s, run[..|run| - 1]);
      RevokedAtIsSetOnce(d, s, run[..|run| - 1]);
      assert OnlyCloses(mid.store.table, Apply(d, mid, Last(run)).store.table);
    }
  }

  /**
  A step writes a revoked event for `t` only as the commit of a revoke of `t` that closes at least
  one row, and right after that step no row of `t` is active.
  */
  lemma RevokedEventClosesAll(d: Digest, s: System, st: Step, t: Triple)
    requires Enabled(s, st)
    ensures Revocations(Apply(d, s, st).store.rows, t) ==
            Revocations(s.store.rows, t) + if st.RevokeCommit? && st.t == t && HasActive(s.store.table, t) then 1 else 0
    ensures Revocations(Apply(d, s, st).store.rows, t) > Revocations(s.store.rows, t) ==>
              !HasActive(Apply(d, s, st).store.table, t)
              && exists i :: 0 <= i < |s.store.table| && IsActive(s.store.table[i], t)
                             && Apply(d, s, st).store.table[i].revokedAt == Some(st.at)
  {
    hide Target, EventPayload, GrantDetails, RevokeDetails;
    var s' := Apply(d, s, st).store;
    if s'.rows != s.store.rows {
      RevocationsAfter(s.store.rows, Last(s'.rows), t);
      if st.RevokeCommit? {
        TargetInjective(st.t, t);
      }
    }
  }

  /**
  A revoke that has yet to commit holds what its own read step was given and found: its actor, and an
  active grant of the triple that no active one was newer than.
  */
  lemma {:induction false} PendingWasRead(d: Digest, s: System, run: seq<Step>, w: nat) returns (k: nat)
    requires CanRun(d, s, run) && s.pending == map[] && w in After(d, s, run).pending
    ensures k < |run| && CanRun(d, s, run[..k])
    ensures var p := After(d, s, run).pending[w];
            run[k] == RevokeRead(w, p.triple, p.actor, p.existing)
            && IsNewestActive(After(d, s, run[..k]).store.table, p.triple, p.existing)
    decreases |run|
  {
    hide StoreAfter, IsNewestActive, EventPayload;
    var n := |run| - 1;
    if run[n].RevokeRead? && run[n].w == w {
      k := n;
    } else {
      k := PendingWasRead(d, s, run[..n], w);
      assert run[..n][..k] == run[..k];
    }
  }

  /** The revoked event carries that actor and that grant's id. */
  lemma CommitRecords(d: Digest, s: System, w: nat, t: Triple, at: int, time: real)
    requires Enabled(s, RevokeCommit(w, t, at, time)) && HasActive(s.store.table, t)
    ensures Recorded(s.store, Apply(d, s, RevokeCommit(w, t, at, time)).store,
                     Event("authority_revoked", s.pending[w].actor, Some(Target(t)), time,
                           RevokeDetails(t, s.pending[w].existing.id)))
  {
    hide Target, RevokeDetails, EventPayload, HasActive;
  }

  /** How many revoked events the log holds for `t`. */
  function Revocations(rows: seq<Row>, t: Triple): nat {
    if rows == [] then 0
    else Revocations(rows[..|rows| - 1], t)
         + if Last(rows).event.eventType == REVOKED && Concerns(Last(rows), t) then 1 else 0
  }

  lemma RevocationsAfter(rows: seq<Row>, r: Row, t: Triple)
    ensures Revocations(rows + [r], t)
            == Revocations(rows, t) + if r.event.eventType == REVOKED && Concerns(r, t) then 1 else 0
  {
    assert (rows + [r])[..|rows|] == rows;
  }

  /** A revoke of `t` commits somewhere in the run. */
  predicate SomeCommit(run: seq<Step>, t: Triple) {
    exists i :: 0 <= i < |run| && run[i].RevokeCommit? && run[i].t == t
  }

  lemma SomeCommitStep(run: seq<Step>, t: Triple)
    requires run != []
    ensures SomeCommit(run, t) <==> SomeCommit(run[..|run| - 1], t) || (Last(run).RevokeCommit? && Last(run).t == t)
  {
    var front := run[..|run| - 1];
    if i :| 0 <= i < |front| && front[i].RevokeCommit? && front[i].t == t {
      assert run[i] == front[i];
    }
    assert run[|run| - 1] == Last(run);
  }

  /** What one step other than a grant of `t` does to the activity of `t`. */
  lemma StepActivity(d: Digest, s: System, st: Step, t: Triple)
    requires Enabled(s, st) && !(st.Grant? && st.a.triple == t)
    ensures HasActive(Apply(d, s, st).store.table, t) <==> HasActive(s.store.table, t) && !(st.RevokeCommit? && st.t == t)
  {
    hide Target, EventPayload, GrantDetails, RevokeDetails;
    if st.Grant? {
      HasActiveAfterGrant(s.store.table, st.a, t);
    }
  }

  /**
  However many revokes of `t` race, in a run with no grant of `t` exactly one revoked event is
  written if `t` was active and at least one revoke commits, and none otherwise.
  */
  lemma {:induction false} RacingRevokesWriteOneEvent(d: Digest, s: System, run: seq<Step>, t: Triple)
    requires CanRun(d, s, run)
    requires forall i :: 0 <= i < |run| ==> !(run[i].Grant? && run[i].a.triple == t)
    ensures Revocations(After(d, s, run).store.rows, t) ==
            Revocations(s.store.rows, t) + if HasActive(s.store.table, t) && SomeCommit(run, t) then 1 else 0
    ensures HasActive(After(d, s, run).store.table, t) <==> HasActive(s.store.table, t) && !SomeCommit(run, t)
  {
    hide Apply, Revocations, HasActive, SomeCommit;
    if run == [] {
      assert !SomeCommit(run, t) by { NoCommitInEmptyRun(t); }
    } else {
      var front := run[..|run| - 1];
      RacingRevokesWriteOneEvent(d, s, front, t);
      SomeCommitStep(run, t);
      RevokedEventClosesAll(d, After(d, s, front), Last(run), t);
      StepActivity(d, After(d, s, front), Last(run), t);
    }
  }

  lemma NoCommitInEmptyRun(t: Triple)
    ensures !SomeCommit([], t)
  {
  }

  // ---- The operations ----

  class AuthorityDb {
    const digest: Digest
    var store: Store

    constructor (digest: Digest)
      ensures this.digest == digest && store == Store([], [], 0)
    {
      this.digest := digest;
      store := Store([], [], 0);
    }

    /** The newest active grant of the triple, or none. */
    method FindActive(t: Triple) returns (r: Option<Authority>)
      ensures r.None? <==> !HasActive(store.table, t)
      ensures r.Some? ==> IsNewestActive(store.table, t, r.value)
    {
      r := None;
      for k := 0 to |store.table|
        invariant r.None? ==> forall i :: 0 <= i < k ==> !IsActive(store.table[i], t)
        invariant r.Some? ==> r.value in store.table[..k] && IsActive(r.value, t)
        invariant r.Some? ==> forall i :: 0 <= i < k && IsActive(store.table[i], t) ==>
                                store.table[i].grantedAt <= r.value.grantedAt
      {
        var a := store.table[k];
        if IsActive(a, t) && (r.None? || r.value.grantedAt < a.grantedAt) {
          r := Some(a);
        }
        assert store.table[..k + 1] == store.table[..k] + [store.table[k]];
      }
    }

    /** Adds one active row and its audit event; an existing active grant is neither checked nor closed. */
    method Grant(t: Triple, actor: string, provenance: string, id: string, at: int, time: real) returns (a: Authority)
      modifies this
      ensures a == Authority(id, t, actor, provenance, at, None)
      ensures store == GrantTxn(digest, old(store), a, time)
      ensures store.table == old(store.table) + [a] && HasActive(store.table, t)
      ensures Recorded(old(store), store, Event("authority_granted", actor, Some(Target(t)), time, GrantDetails(a)))
      ensures old(Verifies(digest, store.rows)) ==> Verifies(digest, store.rows)
      ensures (forall i :: 0 <= i < |old(store.table)| && IsActive(old(store.table)[i], t) ==> old(store.table)[i].grantedAt < at)
              ==> forall found :: IsNewestActive(store.table, t, found) ==> found == a
    {
      hide Target, GrantDetails, Verifies, EventPayload;
      a := Authority(id, t, actor, provenance, at, None);
      HasActiveAfterGrant(store.table, a, t);
      if Verifies(digest, store.rows) {
        AppendKeepsVerified(digest, store.rows, store.nextId, GrantEvent(a, time));
      }
      store := GrantTxn(digest, store, a, time);
      ghost var before := old(store.table);
      if forall i :: 0 <= i < |before| && IsActive(before[i], t) ==> before[i].grantedAt < at {
        forall found | IsNewestActive(store.table, t, found) ensures found == a {
          NewestGrantIsFound(before, a, found);
        }
      }
    }

    /** Closes every active row of the triple in one transaction; nothing active is a no-op returning none. */
    method Revoke(t: Triple, actor: string, at: int, time: real) returns (r: Option<Authority>)
      modifies this
      ensures r.None? <==> !HasActive(old(store.table), t)
      ensures r.None? ==> store == old(store)
      ensures r.Some? ==> exists a :: IsNewestActive(old(store.table), t, a) && r.value == a.(revokedAt := Some(at))
                                      && store == RevokeTxn(digest, old(store), t, actor, a.id, at, time)
      ensures r.Some? ==> Recorded(old(store), store, Event("authority_revoked", actor, Some(Target(t)), time,
                                                            RevokeDetails(t, r.value.id)))
      ensures |store.table| == |old(store.table)| && forall i :: 0 <= i < |store.table| ==>
                store.table[i] == if IsActive(old(store.table)[i], t) then old(store.table)[i].(revokedAt := Some(at))
                                  else old(store.table)[i]
      ensures old(Verifies(digest, store.rows)) ==> Verifies(digest, store.rows)
      ensures !HasActive(store.table, t)
    {
      hide Target, RevokeDetails, Verifies, EventPayload;
      var existing := FindActive(t);
      if existing.None? {
        return None;
      }
      if Verifies(digest, store.rows) {
        AppendKeepsVerified(digest, store.rows, store.nextId, RevokeEvent(t, actor, existing.value.id, time));
      }
      store := RevokeTxn(digest, store, t, actor, existing.value.id, at, time);
      r := Some(existing.value.(revokedAt := Some(at)));
    }
  }
}
