/**
Pruning the audit log: ordinary rows and deletion records age out under two different cutoffs, and
a prune record is chained off the surviving tail (src/stackowl/audit/retention.py:64-228).
*/
module Retention {
  import opened Common
  import opened AuditChain
  import opened AuditLog

  const DELETION_EVENT := "row.deleted"
  const PRUNE_EVENT := "system_audit_prune"

  datatype Policy = Policy(cutoff: real, deletionCutoff: real, retentionDays: int)

  /** Clock reading and JSON text of the prune record. */
  datatype PruneStamp = PruneStamp(time: real, details: (nat, Option<real>, int) -> string)

  predicate IsDeletion(r: Row) {
    r.event.eventType == DELETION_EVENT
  }

  /** The row is past the cutoff that applies to its own kind. */
  predicate Past(p: Policy, r: Row) {
    r.event.timestamp < if IsDeletion(r) then p.deletionCutoff else p.cutoff
  }

  /** DELETE FROM audit_log WHERE gone(row). */
  function Delete(rows: seq<Row>, gone: Row -> bool): seq<Row> {
    if rows == [] then []
    else Delete(rows[..|rows| - 1], gone) + if gone(Last(rows)) then [] else [Last(rows)]
  }

  /** The WHERE clauses of the two DELETE statements. */
  function ExpiredOrdinary(p: Policy): Row -> bool {
    (r: Row) => r.event.timestamp < p.cutoff && !IsDeletion(r)
  }

  function ExpiredDeletion(p: Policy): Row -> bool {
    (r: Row) => r.event.timestamp < p.deletionCutoff && IsDeletion(r)
  }

  /** The rows that stay, in order. */
  function Survivors(p: Policy, rows: seq<Row>): seq<Row> {
    if rows == [] then []
    else Survivors(p, rows[..|rows| - 1]) + if Past(p, Last(rows)) then [] else [Last(rows)]
  }

  /** Where the row at `i` of the old log stands after pruning, if it stays. */
  function NewPosition(p: Policy, rows: seq<Row>, i: nat): nat
    requires i <= |rows|
  {
    |Survivors(p, rows[..i])|
  }

  /** The survivor at `i` lost its immediate predecessor. */
  predicate Orphaned(p: Policy, rows: seq<Row>, i: nat)
    requires i < |rows|
  {
    i > 0 && !Past(p, rows[i]) && Past(p, rows[i - 1])
  }

  predicate FirstOrphan(p: Policy, rows: seq<Row>, i: nat) {
    i < |rows| && Orphaned(p, rows, i) && forall j :: 0 <= j < i ==> !Orphaned(p, rows, j)
  }

  function CountPast(p: Policy, rows: seq<Row>): nat {
    if rows == [] then 0
    else CountPast(p, rows[..|rows| - 1]) + if Past(p, Last(rows)) then 1 else 0
  }

  function PruneEvent(p: Policy, stamp: PruneStamp, pruned: nat, oldest: Option<real>): Event {
    Event(PRUNE_EVENT, "system", None, stamp.time, stamp.details(pruned, oldest, p.retentionDays))
  }

  predicate IsOldest(rows: seq<Row>, t: Option<real>) {
    if rows == [] then t.None?
    else
      && t.Some?
      && (exists i :: 0 <= i < |rows| && rows[i].event.timestamp == t.value)
      && (forall i :: 0 <= i < |rows| ==> t.value <= rows[i].event.timestamp)
  }

  // ---- What the two DELETE statements leave ----

  /** Deleting the two kinds one after the other leaves exactly the survivors of the combined rule. */
  lemma {:induction false} TwoDeletesLeaveSurvivors(p: Policy, rows: seq<Row>)
    ensures Delete(Delete(rows, ExpiredOrdinary(p)), ExpiredDeletion(p)) == Survivors(p, rows)
  {
    if rows != [] {
      TwoDeletesLeaveSurvivors(p, rows[..|rows| - 1]);
      var kept := Delete(rows[..|rows| - 1], ExpiredOrdinary(p));
      if ExpiredOrdinary(p)(Last(rows)) {
        assert Delete(rows, ExpiredOrdinary(p)) == kept;
      } else {
        assert (kept + [Last(rows)])[..|kept|] == kept;
      }
    }
  }

  /** A row stays exactly when it is not older than the cutoff of its own kind. */
  lemma {:induction false} StaysIff(p: Policy, rows: seq<Row>, r: Row)
    ensures r in Survivors(p, rows) <==>
            r in rows && (if r.event.eventType == "row.deleted" then p.deletionCutoff else p.cutoff) <= r.event.timestamp
  {
    if rows != [] {
      StaysIff(p, rows[..|rows| - 1], r);
      assert rows == rows[..|rows| - 1] + [Last(rows)];
    }
  }

  lemma {:induction false} PastPlusSurvivors(p: Policy, rows: seq<Row>)
    ensures CountPast(p, rows) + |Survivors(p, rows)| == |rows|
    ensures CountPast(p, rows) == 0 ==> Survivors(p, rows) == rows
  {
    hide Past;
    if rows != [] {
      var older := rows[..|rows| - 1];
      PastPlusSurvivors(p, older);
      assert rows == older + [Last(rows)];
    }
  }

  /** Survivors of a prefix are a prefix of the survivors. */
  lemma {:induction false} SurvivorsPrefix(p: Policy, rows: seq<Row>, i: nat)
    requires i <= |rows|
    ensures Survivors(p, rows[..i]) <= Survivors(p, rows)
    decreases |rows|
  {
    if i < |rows| {
      assert rows[..|rows| - 1][..i] == rows[..i];
      SurvivorsPrefix(p, rows[..|rows| - 1], i);
    } else {
      assert rows[..i] == rows;
    }
  }

  /** A row that is not past its own cutoff stands at its new position. */
  lemma KeptRowSurvives(p: Policy, rows: seq<Row>, i: nat)
    requires i < |rows| && !Past(p, rows[i])
    ensures NewPosition(p, rows, i) < |Survivors(p, rows)| && Survivors(p, rows)[NewPosition(p, rows, i)] == rows[i]
  {
    KeptStep(p, rows, i);
    SurvivorsPrefix(p, rows, i + 1);
  }

  /** Kept rows keep their order. */
  lemma KeptRowsKeepOrder(p: Policy, rows: seq<Row>, i: nat, j: nat)
    requires i < j < |rows| && !Past(p, rows[i])
    ensures NewPosition(p, rows, i) < NewPosition(p, rows, j)
  {
    KeptStep(p, rows, i);
    assert rows[..j][..i + 1] == rows[..i + 1];
    SurvivorsPrefix(p, rows[..j], i + 1);
  }

  /** One more old row: kept rows extend the survivors, past rows do not. */
  lemma KeptStep(p: Policy, rows: seq<Row>, i: nat)
    requires i < |rows|
    ensures Survivors(p, rows[..i + 1]) == Survivors(p, rows[..i]) + if Past(p, rows[i]) then [] else [rows[i]]
  {
    assert rows[..i + 1][..i] == rows[..i];
  }

  /** Every survivor is a kept row, and stands at that row's new position. */
  lemma {:induction false} Origin(p: Policy, rows: seq<Row>, k: nat) returns (i: nat)
    requires k < |Survivors(p, rows)|
    ensures i < |rows| && !Past(p, rows[i]) && NewPosition(p, rows, i) == k
    decreases |rows|
  {
    var older := rows[..|rows| - 1];
    if k < |Survivors(p, older)| {
      i := Origin(p, older, k);
      assert older[..i] == rows[..i];
    } else {
      i := |rows| - 1;
    }
  }

  // ---- What verification says afterwards ----

  /** The tail hash of the survivors of a prefix is the predecessor hash of some old position `m`. */
  lemma {:induction false} SurvivingTail(p: Policy, rows: seq<Row>, i: nat) returns (m: nat)
    requires i <= |rows|
    ensures m <= i && TailHash(Survivors(p, rows[..i])) == PrevHash(rows, m)
    ensures m == i <==> i == 0 || !Past(p, rows[i - 1])
    decreases i
  {
    hide Past;
    if i == 0 {
      assert rows[..0] == [];
      m := 0;
    } else {
      var before := Survivors(p, rows[..i - 1]);
      KeptStep(p, rows, i - 1);
      if Past(p, rows[i - 1]) {
        assert Survivors(p, rows[..i]) == before;
        m := SurvivingTail(p, rows, i - 1);
      } else {
        assert TailHash(before + [rows[i - 1]]) == rows[i - 1].integrityHash;
        m := i;
      }
    }
  }

  /** Up to the first orphan the survivors still chain. */
  lemma {:induction false} OrphanFreePrefixVerifies(d: Digest, p: Policy, rows: seq<Row>, i: nat)
    requires Verifies(d, rows) && i <= |rows|
    requires forall j :: 0 <= j < i ==> !Orphaned(p, rows, j)
    ensures Verifies(d, Survivors(p, rows[..i]))
    decreases i
  {
    hide RowPayload;
    if i > 0 {
      var before := Survivors(p, rows[..i - 1]);
      OrphanFreePrefixVerifies(d, p, rows, i - 1);
      KeptStep(p, rows, i - 1);
      if Past(p, rows[i - 1]) {
        assert Survivors(p, rows[..i]) == before;
      } else {
        var m := SurvivingTail(p, rows, i - 1);
        assert TailHash(before) == PrevHash(rows, i - 1) by {
          assert !Orphaned(p, rows, i - 1);
        }
        SameTailStaysLinked(d, before, rows, i - 1);
      }
    }
  }

  /** A linked row placed behind a verified log with the tail hash it chained from keeps it verified. */
  lemma SameTailStaysLinked(d: Digest, before: seq<Row>, rows: seq<Row>, i: nat)
    requires Verifies(d, before) && i < |rows| && Linked(d, rows, i) && TailHash(before) == PrevHash(rows, i)
    ensures Verifies(d, before + [rows[i]])
  {
    hide RowPayload;
    var after := before + [rows[i]];
    forall k | 0 <= k < |after| ensures Linked(d, after, k) {
      if k < |before| {
        LinkedPrefix(d, before, rows[i], k);
      } else {
        assert PrevHash(after, k) == TailHash(before);
      }
    }
  }

  /** Appending any rows behind a named one keeps it named. */
  lemma {:induction false} NamesSurvivesExtension(d: Digest, rows: seq<Row>, more: seq<Row>, i: nat)
    requires Names(d, rows, i)
    ensures Names(d, rows + more, i)
    decreases |more|
  {
    if more == [] {
      assert rows + more == rows;
    } else {
      NamesSurvivesExtension(d, rows, more[..|more| - 1], i);
      NamesSurvivesAppend(d, rows + more[..|more| - 1], Last(more), i);
      assert rows + more == rows + more[..|more| - 1] + [Last(more)];
    }
  }

  /** The log after pruning: the survivors and a record chained off their tail. */
  function Pruned(d: Digest, p: Policy, rows: seq<Row>, id: nat, e: Event): seq<Row> {
    Survivors(p, rows) + [ChainedRow(d, id, TailHash(Survivors(p, rows)), e)]
  }

  /** The payload of a row in a prefix is in play in the whole log. */
  lemma PrefixPayload(d: Digest, front: seq<Row>, rest: seq<Row>, i: nat)
    requires i < |front|
    ensures RowPayload(d, PrevHash(front, i), front[i]) in PayloadsOf(d, front + rest)
  {
    hide RowPayload;
    assert PrevHash(front + rest, i) == PrevHash(front, i);
    PayloadInPlay(d, front + rest, i);
  }

  /**
  Pruning a verified v2 log: verification then passes exactly when no survivor lost its immediate
  predecessor (otherwise FirstOrphanIsNamed says which row is named).
  */
  lemma VerdictAfterPrune(d: Digest, p: Policy, rows: seq<Row>, id: nat, e: Event, s: set<string>)
    requires Verifies(d, rows) && AllV2(rows) && CollisionFree(d, s)
    requires PayloadsOf(d, rows) <= s && PayloadsOf(d, Pruned(d, p, rows, id, e)) <= s
    ensures Verifies(d, Pruned(d, p, rows, id, e)) <==> forall i :: 0 <= i < |rows| ==> !Orphaned(p, rows, i)
  {
    hide CollisionFree, PayloadsOf, Linked, ChainedRow;
    if i :| 0 <= i < |rows| && Orphaned(p, rows, i) {
      var j := FindFirstOrphan(p, rows, i);
      FirstOrphanIsNamed(d, p, rows, id, e, s, j);
    } else {
      OrphanFreePrefixVerifies(d, p, rows, |rows|);
      assert rows[..|rows|] == rows;
      AppendKeepsVerified(d, Survivors(p, rows), id, e);
    }
  }

  lemma FindFirstOrphan(p: Policy, rows: seq<Row>, i: nat) returns (j: nat)
    requires i < |rows| && Orphaned(p, rows, i)
    ensures FirstOrphan(p, rows, j)
  {
    j := 0;
    while !Orphaned(p, rows, j)
      invariant j <= i && forall k :: 0 <= k < j ==> !Orphaned(p, rows, k)
      decreases i - j
    {
      j := j + 1;
    }
  }

  /** On a verified v2 log, after pruning, verification names the first survivor that lost its immediate predecessor. */
  lemma FirstOrphanIsNamed(d: Digest, p: Policy, rows: seq<Row>, id: nat, e: Event, s: set<string>, i: nat)
    requires Verifies(d, rows) && AllV2(rows) && CollisionFree(d, s) && FirstOrphan(p, rows, i)
    requires PayloadsOf(d, rows) <= s && PayloadsOf(d, Pruned(d, p, rows, id, e)) <= s
    ensures Names(d, Pruned(d, p, rows, id, e), NewPosition(p, rows, i))
    ensures Pruned(d, p, rows, id, e)[NewPosition(p, rows, i)] == rows[i]
  {
    hide CollisionFree, PayloadsOf, RowPayload, Linked, ChainedRow;
    var before, front := Survivors(p, rows[..i]), Survivors(p, rows[..i + 1]);
    var all := Pruned(d, p, rows, id, e);
    KeptStep(p, rows, i);
    OrphanFreePrefixVerifies(d, p, rows, i);
    SurvivorsPrefix(p, rows, i + 1);
    var rest := all[|front|..];
    assert all == front + rest;
    var m := SurvivingTail(p, rows, i);
    PrevHashesDistinct(d, rows, m, i, s);
    PrefixPayload(d, front, rest, |before|);
    MisplacedRowNotLinked(d, rows, i, before, s);
    forall k | 0 <= k < |before| ensures Linked(d, front, k) {
      LinkedPrefix(d, before, rows[i], k);
    }
    NamesSurvivesExtension(d, front, rest, |before|);
  }

  /** A linked v2 row moved behind a different tail hash is no longer linked. */
  lemma MisplacedRowNotLinked(d: Digest, rows: seq<Row>, i: nat, before: seq<Row>, s: set<string>)
    requires i < |rows| && IsV2(rows[i]) && Linked(d, rows, i) && CollisionFree(d, s)
    requires PrevHash(rows, i) != TailHash(before) && PayloadsOf(d, rows) <= s
    requires RowPayload(d, PrevHash(before + [rows[i]], |before|), rows[i]) in s
    ensures !Linked(d, before + [rows[i]], |before|)
  {
    hide PayloadsOf;
    PayloadInPlay(d, rows, i);
    assert PrevHash(before + [rows[i]], |before|) == TailHash(before);
    EventPayloadDecodes(d, PrevHash(rows, i), rows[i].event, TailHash(before), rows[i].event);
  }

  /**
  So pruning anything in front of a row that stays always breaks the chain: verification passes
  afterwards exactly when the pruned rows are a suffix of the log.
  */
  lemma NoOrphanIffPrunedSuffix(p: Policy, rows: seq<Row>)
    ensures (forall i :: 0 <= i < |rows| ==> !Orphaned(p, rows, i))
            <==> (forall i, j :: 0 <= i < j < |rows| && Past(p, rows[i]) ==> Past(p, rows[j]))
  {
    if forall i :: 0 <= i < |rows| ==> !Orphaned(p, rows, i) {
      forall i, j | 0 <= i < j < |rows| && Past(p, rows[i]) ensures Past(p, rows[j]) {
        for k := i to j
          invariant Past(p, rows[k])
        {
          assert !Orphaned(p, rows, k + 1);
        }
      }
    }
  }

  // ---- The operation ----

  method OldestTimestamp(rows: seq<Row>) returns (t: Option<real>)
    ensures IsOldest(rows, t)
  {
    t := None;
    for k := 0 to |rows|
      invariant IsOldest(rows[..k], t)
    {
      var now := rows[k].event.timestamp;
      assert rows[..k + 1] == rows[..k] + [rows[k]];
      assert rows[..k + 1][k].event.timestamp == now;
      if t.None? || now < t.value {
        t := Some(now);
      } else {
        var i :| 0 <= i < k && rows[..k][i].event.timestamp == t.value;
        assert rows[..k + 1][i].event.timestamp == t.value;
      }
    }
    assert rows[..|rows|] == rows;
  }

  /** Counts, deletes in two statements, and appends the prune record on the surviving tail. */
  method Prune(log: AuditLogger, p: Policy, stamp: PruneStamp) returns (pruned: nat)
    requires log.Valid()
    modifies log
    ensures log.Valid()
    ensures pruned == |old(log.rows)| - |Survivors(p, old(log.rows))|
    ensures exists oldest :: IsOldest(Survivors(p, old(log.rows)), oldest)
              && log.rows == Pruned(log.digest, p, old(log.rows), old(log.nextId), PruneEvent(p, stamp, pruned, oldest))
              && Last(log.rows).event == Event("system_audit_prune", "system", None, stamp.time,
                                               stamp.details(pruned, oldest, p.retentionDays))
    ensures forall r :: r in log.rows[..|log.rows| - 1] <==>
              r in old(log.rows) && (if r.event.eventType == "row.deleted" then p.deletionCutoff else p.cutoff) <= r.event.timestamp
  {
    hide Verifies, ChainedRow, Survivors, IsOldest, Delete;
    ghost var before := log.rows;
    pruned := CountPast(p, log.rows);
    PastPlusSurvivors(p, before);
    if pruned > 0 {
      log.rows := Delete(log.rows, ExpiredOrdinary(p));
      log.rows := Delete(log.rows, ExpiredDeletion(p));
      TwoDeletesLeaveSurvivors(p, before);
    }
    SurvivorIdsIncrease(p, before, log.nextId);
    var oldest := OldestTimestamp(log.rows);
    log.Append(PruneEvent(p, stamp, pruned, oldest));
    assert log.rows[..|log.rows| - 1] == Survivors(p, before);
    forall r: Row ensures r in Survivors(p, before) <==>
      r in before && (if r.event.eventType == "row.deleted" then p.deletionCutoff else p.cutoff) <= r.event.timestamp
    {
      StaysIff(p, before, r);
    }
  }

  lemma {:induction false} SurvivorIdsIncrease(p: Policy, rows: seq<Row>, nextId: nat)
    requires forall i :: 0 <= i < |rows| ==> rows[i].id < nextId
    requires forall i, j :: 0 <= i < j < |rows| ==> rows[i].id < rows[j].id
    ensures forall i :: 0 <= i < |Survivors(p, rows)| ==> Survivors(p, rows)[i].id < nextId
    ensures forall i, j :: 0 <= i < j < |Survivors(p, rows)| ==> Survivors(p, rows)[i].id < Survivors(p, rows)[j].id
  {
    if rows != [] {
      SurvivorIdsIncrease(p, rows[..|rows| - 1], Last(rows).id);
    }
  }
}
