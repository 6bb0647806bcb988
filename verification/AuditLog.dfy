/**
The audit log table: append under one transaction, and whole-log verification
(src/stackowl/audit/logger.py:156-410).
*/
module AuditLog {
  import opened Common
  import opened AuditChain

  class AuditLogger {
    const digest: Digest
    var rows: seq<Row>
    var nextId: nat  // the AUTOINCREMENT counter, never reused

    ghost predicate Valid()
      reads this
    {
      && (forall i :: 0 <= i < |rows| ==> rows[i].id < nextId)
      && (forall i, j :: 0 <= i < j < |rows| ==> rows[i].id < rows[j].id)
    }

    constructor (digest: Digest)
      ensures this.digest == digest && rows == [] && Valid()
    {
      this.digest := digest;
      rows, nextId := [], 0;
    }

    /** One BEGIN IMMEDIATE transaction: read the tail hash, chain, insert. */
    method Append(e: Event)
      requires Valid()
      modifies this
      ensures Valid() && nextId == old(nextId) + 1
      ensures rows == old(rows) + [ChainedRow(digest, old(nextId), TailHash(old(rows)), e)]
      ensures Last(rows).event == e && Last(rows).chainVersion == Some("v2")
      ensures old(Verifies(digest, rows)) ==> Verifies(digest, rows)
    {
      ghost var before := rows;
      var prev := if rows == [] then "" else Last(rows).integrityHash;
      rows := rows + [ChainedRow(digest, nextId, prev, e)];
      nextId := nextId + 1;
      if Verifies(digest, before) {
        AppendKeepsVerified(digest, before, old(nextId), e);
      }
    }

    /** Accepts exactly the logs in which every row chains, and otherwise names the first row that does not. */
    method VerifyChain() returns (ok: bool, broken: Option<nat>)
      ensures ok <==> Verifies(digest, rows)
      ensures ok <==> broken.None?
      ensures !ok ==> exists i: nat :: Names(digest, rows, i) && broken == Some(rows[i].id)
    {
      var prevHash := "";
      for k := 0 to |rows|
        invariant prevHash == PrevHash(rows, k)
        invariant forall j :: 0 <= j < k ==> Linked(digest, rows, j)
      {
        var row := rows[k];
        var expected := digest.hash(RowPayload(digest, prevHash, row));
        if row.integrityHash != expected {
          assert Names(digest, rows, k);
          return false, Some(row.id);
        }
        prevHash := row.integrityHash;
      }
      return true, None;
    }
  }
}
