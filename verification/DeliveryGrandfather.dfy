/**
Granting delivery authority to existing enabled jobs at boot
(src/stackowl/authz/delivery_grandfather.py:34-136).
*/
module DeliveryGrandfather {
  import opened Common
  import opened AuditChain
  import opened StandingAuthority

  const GRANTED_BY := "autonomous"

  datatype Job = Job(jobId: string, handlerName: string, enabled: bool)

  /** The id and clock readings one grant would use. */
  datatype Stamp = Stamp(id: string, grantedAt: int, time: real)

  function DeliveryCommandType(handler: string): Option<string> {
    if handler == "morning_brief" then Some("notifications.deliver_brief")
    else if handler == "check_in" then Some("notifications.deliver_check_in")
    else if handler == "goal_execution" then Some("notifications.deliver_goal_result")
    else if handler == "notification_digest" then Some("notifications.deliver_digest")
    else None
  }

  function JobTriple(jobId: string, commandType: string): Triple {
    Triple("job", jobId, commandType)
  }

  /** The triple an enabled job with a mapped handler needs. */
  function Needs(j: Job): Option<Triple> {
    if !j.enabled || DeliveryCommandType(j.handlerName).None? then None
    else Some(JobTriple(j.jobId, DeliveryCommandType(j.handlerName).value))
  }

  function Needed(jobs: seq<Job>): set<Triple> {
    set i | 0 <= i < |jobs| && Needs(jobs[i]).Some? :: Needs(jobs[i]).value
  }

  /** The closed mapping of handlers to the command type each delivers through. */
  predicate Delivers(handler: string, commandType: string) {
    || (handler == "morning_brief" && commandType == "notifications.deliver_brief")
    || (handler == "check_in" && commandType == "notifications.deliver_check_in")
    || (handler == "goal_execution" && commandType == "notifications.deliver_goal_result")
    || (handler == "notification_digest" && commandType == "notifications.deliver_digest")
  }

  /** Exactly the enabled jobs whose handler delivers need a grant, for their own command type. */
  lemma NeededExactly(jobs: seq<Job>, t: Triple)
    ensures t in Needed(jobs) <==>
            exists i :: 0 <= i < |jobs| && jobs[i].enabled && t == Triple("job", jobs[i].jobId, t.commandType)
                        && Delivers(jobs[i].handlerName, t.commandType)
  {
    hide Delivers, DeliveryCommandType;
    forall i | 0 <= i < |jobs|
      ensures Needs(jobs[i]) == Some(t) <==> jobs[i].enabled && t == Triple("job", jobs[i].jobId, t.commandType)
                                             && Delivers(jobs[i].handlerName, t.commandType)
    {
      DeliversIff(jobs[i].handlerName, t.commandType);
    }
    if t in Needed(jobs) {
      var i :| 0 <= i < |jobs| && Needs(jobs[i]).Some? && Needs(jobs[i]).value == t;
      assert Needs(jobs[i]) == Some(t);
    }
  }

  lemma DeliversIff(handler: string, commandType: string)
    ensures DeliveryCommandType(handler) == Some(commandType) <==> Delivers(handler, commandType)
  {
  }

  /** The needed triples that have no active grant. */
  function Lacking(s: Store, needed: set<Triple>): set<Triple> {
    set t | t in needed && !HasActive(s.table, t)
  }

  function Seeded(t: Triple, provenance: string, stamp: Stamp): Authority {
    Authority(stamp.id, t, GRANTED_BY, provenance, stamp.grantedAt, None)
  }

  /** One job of the pass: grant what it needs unless that is active already. */
  function PassStep(d: Digest, s: Store, j: Job, stamp: Stamp): Store {
    var need := Needs(j);
    if need.Some? && !HasActive(s.table, need.value)
    then GrantTxn(d, s, Seeded(need.value, "grandfathered", stamp), stamp.time)
    else s
  }

  /** The database after the pass over the jobs. */
  function Pass(d: Digest, s: Store, jobs: seq<Job>, stamps: seq<Stamp>): Store
    requires |jobs| <= |stamps|
  {
    if jobs == [] then s
    else PassStep(d, Pass(d, s, jobs[..|jobs| - 1], stamps), Last(jobs), stamps[|jobs| - 1])
  }

  /** The triples of the rows from position `m` on. */
  function NewTriples(table: seq<Authority>, m: nat): set<Triple>
    requires m <= |table|
  {
    set i | m <= i < |table| :: table[i].triple
  }

  lemma NeededStep(jobs: seq<Job>)
    requires jobs != []
    ensures Needed(jobs) == Needed(jobs[..|jobs| - 1]) + if Needs(Last(jobs)).Some? then {Needs(Last(jobs)).value} else {}
  {
    var front := jobs[..|jobs| - 1];
    forall t | t in Needed(jobs)
      ensures t in Needed(front) + if Needs(Last(jobs)).Some? then {Needs(Last(jobs)).value} else {}
    {
      var i :| 0 <= i < |jobs| && Needs(jobs[i]).Some? && t == Needs(jobs[i]).value;
      if i < |front| {
        assert front[i] == jobs[i];
      }
    }
    forall t | t in Needed(front) ensures t in Needed(jobs) {
      var i :| 0 <= i < |front| && Needs(front[i]).Some? && t == Needs(front[i]).value;
      assert jobs[i] == front[i];
    }
  }

  /**
  `s'` is `s` with one active row added for each needed triple that lacked one: old rows are kept,
  every needed triple is active, and no other triple's activity changed.
  */
  ghost predicate GrantsWhatLacks(s: Store, s': Store, needed: set<Triple>) {
    && s.table <= s'.table && |s'.table| == |s.table| + |Lacking(s, needed)|
    && NewTriples(s'.table, |s.table|) == Lacking(s, needed)
    && (forall i :: |s.table| <= i < |s'.table| ==>
          s'.table[i].revokedAt.None? && s'.table[i].grantedBy == "autonomous" && s'.table[i].provenance == "grandfathered")
    && (forall t :: HasActive(s'.table, t) <==> HasActive(s.table, t) || t in needed)
  }

  lemma GrantOneMore(s: Store, mid: Store, s': Store, needed: set<Triple>, a: Authority)
    requires GrantsWhatLacks(s, mid, needed)
    requires a.revokedAt.None? && a.grantedBy == "autonomous" && a.provenance == "grandfathered"
    requires !HasActive(mid.table, a.triple) && s'.table == mid.table + [a]
    ensures GrantsWhatLacks(s, s', needed + {a.triple})
  {
    hide NewTriples, HasActive;
    forall t ensures HasActive(s'.table, t) <==> HasActive(mid.table, t) || t == a.triple {
      HasActiveAfterGrant(mid.table, a, t);
    }
    NewTriplesStep(mid.table, a, |s.table|);
    assert Lacking(s, needed + {a.triple}) == Lacking(s, needed) + {a.triple};
    assert a.triple !in Lacking(s, needed);
  }

  lemma AlreadyActive(s: Store, mid: Store, needed: set<Triple>, t: Triple)
    requires GrantsWhatLacks(s, mid, needed) && HasActive(mid.table, t)
    ensures GrantsWhatLacks(s, mid, needed + {t})
  {
    hide NewTriples, HasActive;
    assert Lacking(s, needed + {t}) == Lacking(s, needed);
  }

  /** One pass grants exactly what the enabled, mapped jobs lack. */
  lemma {:induction false} PassGrantsWhatLacks(d: Digest, s: Store, jobs: seq<Job>, stamps: seq<Stamp>)
    requires |jobs| <= |stamps|
    ensures GrantsWhatLacks(s, Pass(d, s, jobs, stamps), Needed(jobs))
  {
    hide GrantsWhatLacks, Needed, Needs, Logged, HasActive;
    if jobs == [] {
      NothingNeeded(s);
    } else {
      var front, need := jobs[..|jobs| - 1], Needs(Last(jobs));
      PassGrantsWhatLacks(d, s, front, stamps);
      NeededStep(jobs);
      var mid, s' := Pass(d, s, front, stamps), Pass(d, s, jobs, stamps);
      if need.Some? {
        if HasActive(mid.table, need.value) {
          AlreadyActive(s, mid, Needed(front), need.value);
        } else {
          var a := Seeded(need.value, "grandfathered", stamps[|jobs| - 1]);
          LoggedKeepsTable(d, mid.(table := mid.table + [a]), GrantEvent(a, stamps[|jobs| - 1].time));
          GrantOneMore(s, mid, s', Needed(front), a);
        }
      } else {
        assert Needed(jobs) == Needed(front);
      }
    }
  }

  lemma LoggedKeepsTable(d: Digest, s: Store, e: Event)
    ensures Logged(d, s, e).table == s.table
  {
  }

  lemma NothingNeeded(s: Store)
    ensures GrantsWhatLacks(s, s, Needed([]))
  {
    assert Lacking(s, Needed([])) == {};
    assert NewTriples(s.table, |s.table|) == {};
  }

  lemma NewTriplesStep(table: seq<Authority>, a: Authority, m: nat)
    requires m <= |table|
    ensures NewTriples(table + [a], m) == NewTriples(table, m) + {a.triple}
  {
    var after := table + [a];
    assert after[|table|] == a;
    forall t | t in NewTriples(table, m) ensures t in NewTriples(after, m) {
      var i :| m <= i < |table| && t == table[i].triple;
      assert after[i] == table[i];
    }
  }

  /** A pass with nothing lacking changes nothing. */
  lemma {:induction false} PassIdle(d: Digest, s: Store, jobs: seq<Job>, stamps: seq<Stamp>)
    requires |jobs| <= |stamps| && forall t :: t in Needed(jobs) ==> HasActive(s.table, t)
    ensures Pass(d, s, jobs, stamps) == s
  {
    hide Needed, Needs, GrantTxn, HasActive;
    if jobs != [] {
      NeededStep(jobs);
      PassIdle(d, s, jobs[..|jobs| - 1], stamps);
    }
  }

  /** An immediate second pass adds nothing. */
  lemma SecondPassAddsNothing(d: Digest, s: Store, jobs: seq<Job>, stamps: seq<Stamp>, again: seq<Stamp>)
    requires |jobs| <= |stamps| && |jobs| <= |again|
    ensures Pass(d, Pass(d, s, jobs, stamps), jobs, again) == Pass(d, s, jobs, stamps)
  {
    hide Needed, HasActive, Pass;
    PassGrantsWhatLacks(d, s, jobs, stamps);
    PassIdle(d, Pass(d, s, jobs, stamps), jobs, again);
  }

  /** The pass is made of grants, so the table still replays from the log and the log still verifies. */
  lemma {:induction false} PassKeepsReplayAndChain(d: Digest, s: Store, jobs: seq<Job>, stamps: seq<Stamp>)
    requires |jobs| <= |stamps| && Replays(s) && Verifies(d, s.rows)
    ensures Replays(Pass(d, s, jobs, stamps)) && Verifies(d, Pass(d, s, jobs, stamps).rows)
  {
    hide Replays, Verifies, GrantTxn, Needs;
    if jobs != [] {
      var k := |jobs| - 1;
      PassKeepsReplayAndChain(d, s, jobs[..k], stamps);
      var mid := Pass(d, s, jobs[..k], stamps);
      if Needs(jobs[k]).Some? && !HasActive(mid.table, Needs(jobs[k]).value) {
        var st := Step.Grant(Seeded(Needs(jobs[k]).value, "grandfathered", stamps[k]), stamps[k].time);
        StepKeepsReplay(d, EMPTY.(store := mid), st);
        LockedStepKeepsChain(d, EMPTY.(store := mid), st);
      }
    }
  }

  // ---- The operations ----

  /** Grants a seeded job's delivery authority unless it is already active. */
  method SeedJobDeliveryAuthority(db: AuthorityDb, jobId: string, commandType: string, stamp: Stamp)
    modifies db
    ensures HasActive(db.store.table, Triple("job", jobId, commandType))
    ensures db.store.table == if HasActive(old(db.store.table), Triple("job", jobId, commandType)) then old(db.store.table)
            else old(db.store.table) + [Authority(stamp.id, Triple("job", jobId, commandType), "autonomous", "seeded",
                                                  stamp.grantedAt, None)]
    ensures db.store == if HasActive(old(db.store.table), JobTriple(jobId, commandType)) then old(db.store)
                        else GrantTxn(db.digest, old(db.store), Seeded(JobTriple(jobId, commandType), "seeded", stamp), stamp.time)
  {
    var existing := db.FindActive(JobTriple(jobId, commandType));
    if existing.None? {
      var _ := db.Grant(JobTriple(jobId, commandType), GRANTED_BY, "seeded", stamp.id, stamp.grantedAt, stamp.time);
    }
  }

  /** The boot-time pass over the jobs table. */
  method GrandfatherExistingJobs(db: AuthorityDb, jobs: seq<Job>, stamps: seq<Stamp>) returns (granted: nat)
    requires |jobs| <= |stamps|
    modifies db
    ensures db.store == Pass(db.digest, old(db.store), jobs, stamps)
    ensures granted == |Lacking(old(db.store), Needed(jobs))|
    ensures GrantsWhatLacks(old(db.store), db.store, Needed(jobs))
  {
    hide DeliveryCommandType, EventPayload, Target, GrantDetails;
    granted := 0;
    ghost var start := db.store;
    for k := 0 to |jobs|
      invariant db.store == Pass(db.digest, start, jobs[..k], stamps)
      invariant |db.store.table| == |start.table| + granted
    {
      assert jobs[..k + 1][..k] == jobs[..k];
      if jobs[k].enabled {
        var commandType := DeliveryCommandType(jobs[k].handlerName);
        if commandType.Some? {
          var t := JobTriple(jobs[k].jobId, commandType.value);
          var existing := db.FindActive(t);
          if existing.None? {
            var _ := db.Grant(t, GRANTED_BY, "grandfathered", stamps[k].id, stamps[k].grantedAt, stamps[k].time);
            granted := granted + 1;
          }
        }
      }
    }
    assert jobs[..|jobs|] == jobs;
    PassGrantsWhatLacks(db.digest, start, jobs, stamps);
  }
}
