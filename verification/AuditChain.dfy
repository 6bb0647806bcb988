/**
The hash chain of the audit log, on values: what each row's hash must be, what the whole-log
verification accepts, and what an accepted log's last hash says about its history
(src/stackowl/audit/logger.py:51-89, 349-410).
*/
module AuditChain {
  import opened Common
  import opened Payload

  /** SHA-256 in hexadecimal, and Python's text of a timestamp: both uninterpreted. */
  datatype Digest = Digest(hash: string -> string, repr: real -> string)

  /** What a writer asks to record. */
  datatype Event = Event(eventType: string, actor: string, target: Option<string>, timestamp: real, details: string)

  datatype Row = Row(id: nat, event: Event, integrityHash: string, chainVersion: Option<string>)

  /** A missing or empty version counts as v1, like every version other than "v2". */
  predicate IsV2(r: Row) {
    r.chainVersion == Some(CHAIN_VERSION)
  }

  predicate AllV2(rows: seq<Row>) {
    forall i :: 0 <= i < |rows| ==> IsV2(rows[i])
  }

  function EventPayload(d: Digest, prev: string, e: Event): string {
    PayloadV2(prev, e.eventType, Some(e.actor), e.target, d.repr(e.timestamp), e.details)
  }

  /** The text verification hashes for row `r` when the previous row's hash is `prev`. */
  function RowPayload(d: Digest, prev: string, r: Row): string {
    if IsV2(r) then EventPayload(d, prev, r.event)
    else PayloadV1(prev, r.event.eventType, d.repr(r.event.timestamp), r.event.details)
  }

  /** The hash the row at `i` must chain from. */
  function PrevHash(rows: seq<Row>, i: nat): string
    requires i <= |rows|
  {
    if i == 0 then "" else rows[i - 1].integrityHash
  }

  function TailHash(rows: seq<Row>): string {
    PrevHash(rows, |rows|)
  }

  predicate Linked(d: Digest, rows: seq<Row>, i: nat)
    requires i < |rows|
  {
    rows[i].integrityHash == d.hash(RowPayload(d, PrevHash(rows, i), rows[i]))
  }

  predicate Verifies(d: Digest, rows: seq<Row>) {
    forall i :: 0 <= i < |rows| ==> Linked(d, rows, i)
  }

  /** Row `i` is the first one whose hash does not match: the row verification names. */
  predicate Names(d: Digest, rows: seq<Row>, i: nat) {
    i < |rows| && !Linked(d, rows, i) && forall j :: 0 <= j < i ==> Linked(d, rows, j)
  }

  /** The row a writer inserts after reading `prev` as the tail hash. */
  function ChainedRow(d: Digest, id: nat, prev: string, e: Event): Row {
    Row(id, e, d.hash(EventPayload(d, prev, e)), Some(CHAIN_VERSION))
  }

  /** The payloads that verifying `rows` hashes. */
  function PayloadsOf(d: Digest, rows: seq<Row>): set<string> {
    if rows == [] then {}
    else
      var older := rows[..|rows| - 1];
      PayloadsOf(d, older) + {RowPayload(d, TailHash(older), Last(rows))}
  }

  /** The hash is nonempty and collision-free on the payloads in play. */
  ghost predicate CollisionFree(d: Digest, payloads: set<string>) {
    && (forall p :: p in payloads ==> d.hash(p) != "")
    && (forall p, q :: p in payloads && q in payloads && d.hash(p) == d.hash(q) ==> p == q)
  }

  /** Two rows that record the same thing, as far as the chain protects it. */
  predicate SameRecord(d: Digest, a: Event, b: Event) {
    a.eventType == b.eventType && a.actor == b.actor && Canonical(a.target) == Canonical(b.target)
    && d.repr(a.timestamp) == d.repr(b.timestamp) && a.details == b.details
  }

  lemma EventPayloadDecodes(d: Digest, prev: string, e: Event, prev': string, e': Event)
    ensures EventPayload(d, prev, e) == EventPayload(d, prev', e') <==> prev == prev' && SameRecord(d, e, e')
  {
    PayloadDecodesUniquely(prev, e.eventType, Some(e.actor), e.target, d.repr(e.timestamp), e.details,
                           prev', e'.eventType, Some(e'.actor), e'.target, d.repr(e'.timestamp), e'.details);
  }

  /** What verification recomputes for a row, by the version it carries. */
  lemma LinkedIff(d: Digest, rows: seq<Row>, i: nat)
    requires i < |rows|
    ensures var e, prev := rows[i].event, if i == 0 then "" else rows[i - 1].integrityHash;
            Linked(d, rows, i) <==> rows[i].integrityHash == d.hash(
              if rows[i].chainVersion == Some("v2")
              then PayloadV2(prev, e.eventType, Some(e.actor), e.target, d.repr(e.timestamp), e.details)
              else prev + e.eventType + d.repr(e.timestamp) + e.details)
  {
    hide PayloadV2;
  }

  /** Two events that a row of the given version cannot tell apart. */
  predicate Indistinct(d: Digest, v2: bool, a: Event, b: Event) {
    if v2 then SameRecord(d, a, b)
    else a.eventType + d.repr(a.timestamp) + a.details == b.eventType + d.repr(b.timestamp) + b.details
  }

  /** Rewriting one row's record in a verified log, v1 or v2, makes verification name that row exactly when the record differs. */
  lemma RewrittenRowIsNamed(d: Digest, rows: seq<Row>, i: nat, e: Event)
    requires Verifies(d, rows) && i < |rows|
    requires CollisionFree(d, {RowPayload(d, PrevHash(rows, i), rows[i]), RowPayload(d, PrevHash(rows, i), rows[i].(event := e))})
    ensures Names(d, rows[i := rows[i].(event := e)], i) <==> !Indistinct(d, IsV2(rows[i]), rows[i].event, e)
  {
    hide EventPayload, PayloadV1;
    var prev, before, r := PrevHash(rows, i), rows[i].event, rows[i].(event := e);
    var rows' := rows[i := r];
    forall j | 0 <= j < i ensures Linked(d, rows', j) {
      assert Linked(d, rows, j) && rows'[j] == rows[j] && PrevHash(rows', j) == PrevHash(rows, j);
    }
    assert Linked(d, rows, i) && PrevHash(rows', i) == prev;
    var x, y := RowPayload(d, prev, rows[i]), RowPayload(d, prev, r);
    assert Linked(d, rows', i) <==> x == y;
    EventPayloadDecodes(d, prev, before, prev, e);
    V1PayloadsAgreeIff(prev, before.eventType, d.repr(before.timestamp), before.details,
                       e.eventType, d.repr(e.timestamp), e.details);
  }

  lemma {:induction false} PayloadInPlay(d: Digest, rows: seq<Row>, i: nat)
    requires i < |rows|
    ensures RowPayload(d, PrevHash(rows, i), rows[i]) in PayloadsOf(d, rows)
  {
    hide RowPayload;
    var older := rows[..|rows| - 1];
    if i == |older| {
      assert PrevHash(rows, i) == TailHash(older);
    } else {
      PayloadInPlay(d, older, i);
      assert PrevHash(rows, i) == PrevHash(older, i);
    }
  }

  /** Equal hashes at two linked v2 rows: same predecessor hash and same record. */
  lemma EqualHashesAgree(d: Digest, a: seq<Row>, i: nat, b: seq<Row>, j: nat, s: set<string>)
    requires i < |a| && j < |b| && IsV2(a[i]) && IsV2(b[j]) && Linked(d, a, i) && Linked(d, b, j)
    requires PayloadsOf(d, a) <= s && PayloadsOf(d, b) <= s && CollisionFree(d, s)
    requires a[i].integrityHash == b[j].integrityHash
    ensures PrevHash(a, i) == PrevHash(b, j) && SameRecord(d, a[i].event, b[j].event)
  {
    PayloadInPlay(d, a, i);
    PayloadInPlay(d, b, j);
    EventPayloadDecodes(d, PrevHash(a, i), a[i].event, PrevHash(b, j), b[j].event);
  }

  /** Every hash of a linked row is nonempty. */
  lemma HashNonempty(d: Digest, rows: seq<Row>, i: nat, s: set<string>)
    requires i < |rows| && Linked(d, rows, i) && PayloadsOf(d, rows) <= s && CollisionFree(d, s)
    ensures rows[i].integrityHash != ""
  {
    PayloadInPlay(d, rows, i);
  }

  /**
  In a verified v2 log no two positions have the same predecessor hash: the hashes are pairwise
  distinct and none of them is the empty string the log starts from.
  */
  lemma {:induction false} PrevHashesDistinct(d: Digest, rows: seq<Row>, i: nat, j: nat, s: set<string>)
    requires Verifies(d, rows) && AllV2(rows) && PayloadsOf(d, rows) <= s && CollisionFree(d, s)
    requires i < j <= |rows|
    ensures PrevHash(rows, i) != PrevHash(rows, j)
  {
    hide CollisionFree, PayloadsOf, RowPayload;
    HashNonempty(d, rows, j - 1, s);
    if i > 0 && PrevHash(rows, i) == PrevHash(rows, j) {
      EqualHashesAgree(d, rows, i - 1, rows, j - 1, s);
      PrevHashesDistinct(d, rows, i - 1, j - 1, s);
    }
  }

  /**
  The last hash pins the whole history: two verified v2 logs that end in the same hash have the
  same length, the same hashes and, row by row, the same record.
  */
  lemma {:induction false} TailHashPinsHistory(d: Digest, a: seq<Row>, b: seq<Row>, s: set<string>)
    requires Verifies(d, a) && AllV2(a) && Verifies(d, b) && AllV2(b)
    requires PayloadsOf(d, a) <= s && PayloadsOf(d, b) <= s && CollisionFree(d, s)
    requires TailHash(a) == TailHash(b)
    ensures |a| == |b|
    ensures forall i :: 0 <= i < |a| ==>
              a[i].integrityHash == b[i].integrityHash && SameRecord(d, a[i].event, b[i].event)
  {
    PinFrom(d, a, |a|, b, |b|, s);
  }

  lemma {:induction false} PinFrom(d: Digest, a: seq<Row>, m: nat, b: seq<Row>, n: nat, s: set<string>)
    requires Verifies(d, a) && AllV2(a) && Verifies(d, b) && AllV2(b)
    requires PayloadsOf(d, a) <= s && PayloadsOf(d, b) <= s && CollisionFree(d, s)
    requires m <= |a| && n <= |b| && PrevHash(a, m) == PrevHash(b, n)
    ensures m == n
    ensures forall i :: 0 <= i < m ==>
              a[i].integrityHash == b[i].integrityHash && SameRecord(d, a[i].event, b[i].event)
  {
    hide CollisionFree, PayloadsOf, RowPayload;
    if m > 0 {
      HashNonempty(d, a, m - 1, s);
    }
    if n > 0 {
      HashNonempty(d, b, n - 1, s);
    }
    if m > 0 && n > 0 {
      EqualHashesAgree(d, a, m - 1, b, n - 1, s);
      PinFrom(d, a, m - 1, b, n - 1, s);
    }
  }

  /**
  A v2 row written against hash `prev` and placed after `rows` is linked exactly when `prev` is
  the tail hash it lands behind.
  */
  lemma InsertLinkedIff(d: Digest, rows: seq<Row>, id: nat, prev: string, e: Event, s: set<string>)
    requires EventPayload(d, prev, e) in s && EventPayload(d, TailHash(rows), e) in s && CollisionFree(d, s)
    ensures Linked(d, rows + [ChainedRow(d, id, prev, e)], |rows|) <==> prev == TailHash(rows)
  {
    var after := rows + [ChainedRow(d, id, prev, e)];
    assert PrevHash(after, |rows|) == TailHash(rows);
    EventPayloadDecodes(d, prev, e, TailHash(rows), e);
  }

  /** Appending leaves the links of the older rows as they were. */
  lemma LinkedPrefix(d: Digest, rows: seq<Row>, r: Row, i: nat)
    requires i < |rows|
    ensures Linked(d, rows + [r], i) == Linked(d, rows, i)
  {
    assert PrevHash(rows + [r], i) == PrevHash(rows, i);
  }

  /** Once a row is named, appending more rows does not change which row is named. */
  lemma NamesSurvivesAppend(d: Digest, rows: seq<Row>, r: Row, i: nat)
    requires Names(d, rows, i)
    ensures Names(d, rows + [r], i)
  {
    forall j | 0 <= j <= i ensures Linked(d, rows + [r], j) == Linked(d, rows, j) {
      LinkedPrefix(d, rows, r, j);
    }
  }

  /** Appending a row chained off the tail keeps the log verified, v1 rows included. */
  lemma AppendKeepsVerified(d: Digest, rows: seq<Row>, id: nat, e: Event)
    requires Verifies(d, rows)
    ensures Verifies(d, rows + [ChainedRow(d, id, TailHash(rows), e)])
  {
    var after := rows + [ChainedRow(d, id, TailHash(rows), e)];
    forall i | 0 <= i < |after| ensures Linked(d, after, i) {
      if i < |rows| {
        LinkedPrefix(d, rows, after[|rows|], i);
      } else {
        assert PrevHash(after, |rows|) == TailHash(rows);
      }
    }
  }

  lemma PayloadsGrow(d: Digest, rows: seq<Row>, r: Row)
    ensures PayloadsOf(d, rows + [r]) == PayloadsOf(d, rows) + {RowPayload(d, TailHash(rows), r)}
  {
    hide RowPayload;
    assert (rows + [r])[..|rows|] == rows;
  }

  // ---- What verification says after an insert ----

  /** Verification passes, or names the row at index `stale`. */
  predicate Verdict(d: Digest, rows: seq<Row>, stale: Option<nat>) {
    if stale.None? then Verifies(d, rows) else Names(d, rows, stale.value)
  }

  /** An insert behind a verified log breaks the chain at its own row exactly when its prev hash is not the tail's. */
  lemma InsertVerdict(d: Digest, rows: seq<Row>, id: nat, prev: string, e: Event, p: set<string>)
    requires Verifies(d, rows) && CollisionFree(d, p) && EventPayload(d, prev, e) in p
    requires PayloadsOf(d, rows + [ChainedRow(d, id, prev, e)]) <= p
    ensures var after := rows + [ChainedRow(d, id, prev, e)];
            if prev == TailHash(rows) then Verifies(d, after) else Names(d, after, |rows|)
  {
    hide EventPayload, CollisionFree, PayloadsOf, Linked;
    var r := ChainedRow(d, id, prev, e);
    PayloadsGrow(d, rows, r);
    assert RowPayload(d, TailHash(rows), r) == EventPayload(d, TailHash(rows), e);
    InsertLinkedIff(d, rows, id, prev, e, p);
    forall i | 0 <= i < |rows| ensures Linked(d, rows + [r], i) {
      LinkedPrefix(d, rows, r, i);
    }
  }

  /**
  A writer that read the hash in front of position `at` inserts behind a v2 log: the verdict stays,
  unless the log verified and has grown since, in which case the new row is named.
  */
  lemma VerdictAfterInsert(d: Digest, rows: seq<Row>, id: nat, at: nat, e: Event, stale: Option<nat>, p: set<string>)
    requires AllV2(rows) && Verdict(d, rows, stale) && at <= |rows| && CollisionFree(d, p)
    requires EventPayload(d, PrevHash(rows, at), e) in p
    requires PayloadsOf(d, rows + [ChainedRow(d, id, PrevHash(rows, at), e)]) <= p
    ensures Verdict(d, rows + [ChainedRow(d, id, PrevHash(rows, at), e)],
                    if stale.None? && at != |rows| then Some(|rows|) else stale)
  {
    hide EventPayload, CollisionFree, Linked, PayloadsOf;
    var r := ChainedRow(d, id, PrevHash(rows, at), e);
    PayloadsGrow(d, rows, r);
    if stale.Some? {
      NamesSurvivesAppend(d, rows, r, stale.value);
    } else {
      InsertVerdict(d, rows, id, PrevHash(rows, at), e, p);
      if at < |rows| {
        PrevHashesDistinct(d, rows, at, |rows|, p);
      }
    }
  }
}
