/**
Request/ack correlation of ephemeral sends (src/stackowl/channels/socket_adapter.py:46-58, 161-204).
A call runs up to an `await`, other calls and inbound acks run, and it resumes; each such stretch
is one step.
*/
module EphemeralAcks {
  import opened Common

  const NO_ACK := -1

  datatype Future = Pending | Resolved(messageId: int) | Cancelled

  datatype Ack = Ack(requestId: string, messageId: int)

  /** `since` is how many acks had arrived when the call started. */
  datatype Call = InFlight(future: nat, since: nat) | Returned(value: int, since: nat) | Raised

  datatype Hub = Hub(waiters: map<string, nat>, futures: seq<Future>, calls: map<string, Call>, acks: seq<Ack>)

  datatype Step =
    | Start(id: string)               // register the waiter, then await the send
    | Receive(ack: Ack)               // resolve_ephemeral_sent
    | Expire(id: string)              // the ack timeout cancels the future
    | ReturnAck(id: string)           // wait_for delivers the result
    | ReturnNoAck(id: string)         // send failure or timeout: the sentinel
    | Abort(id: string)               // the caller itself is cancelled; only `finally` runs

  predicate Live(h: Hub, id: string) {
    id in h.calls && h.calls[id].InFlight? && h.calls[id].future < |h.futures|
  }

  predicate Enabled(h: Hub, st: Step) {
    match st
    case Start(id) => id !in h.calls
    case Receive(_) => true
    case Expire(id) => Live(h, id)
    case ReturnAck(id) => Live(h, id) && h.futures[h.calls[id].future].Resolved?
    case ReturnNoAck(id) => Live(h, id)
    case Abort(id) => Live(h, id)
  }

  function Cancel(futures: seq<Future>, i: nat): seq<Future>
    requires i < |futures|
  {
    if futures[i].Pending? then futures[i := Cancelled] else futures
  }

  /** An unknown id and a future that is already done are both ignored. */
  function Resolve(h: Hub, a: Ack): seq<Future> {
    if a.requestId !in h.waiters || h.waiters[a.requestId] >= |h.futures| || !h.futures[h.waiters[a.requestId]].Pending?
    then h.futures
    else h.futures[h.waiters[a.requestId] := Resolved(a.messageId)]
  }

  function Finish(h: Hub, id: string, c: Call): Hub {
    h.(waiters := h.waiters - {id}, calls := h.calls[id := c])
  }

  function Apply(h: Hub, st: Step): Hub
    requires Enabled(h, st)
  {
    match st
    case Start(id) =>
      Hub(h.waiters[id := |h.futures|], h.futures + [Pending], h.calls[id := InFlight(|h.futures|, |h.acks|)], h.acks)
    case Receive(a) => h.(futures := Resolve(h, a), acks := h.acks + [a])
    case Expire(id) => h.(futures := Cancel(h.futures, h.calls[id].future))
    case ReturnAck(id) => Finish(h, id, Returned(h.futures[h.calls[id].future].messageId, h.calls[id].since))
    case ReturnNoAck(id) => Finish(h, id, Returned(NO_ACK, h.calls[id].since))
    case Abort(id) => Finish(h.(futures := Cancel(h.futures, h.calls[id].future)), id, Raised)
  }

  predicate CanRun(h: Hub, run: seq<Step>)
    decreases |run|, 0
  {
    run == [] || (CanRun(h, run[..|run| - 1]) && Enabled(After(h, run[..|run| - 1]), Last(run)))
  }

  function After(h: Hub, run: seq<Step>): Hub
    requires CanRun(h, run)
    decreases |run|, 1
  {
    if run == [] then h else Apply(After(h, run[..|run| - 1]), Last(run))
  }

  const EMPTY := Hub(map[], [], map[], [])

  // ---- What every run keeps ----

  /** Position `k` holds the first ack for `id` from position `since` on. */
  predicate FirstAckAt(acks: seq<Ack>, since: nat, id: string, k: nat) {
    since <= k < |acks| && acks[k].requestId == id && forall i :: since <= i < k ==> acks[i].requestId != id
  }

  predicate NoAckSince(acks: seq<Ack>, since: nat, id: string) {
    since <= |acks| && forall i :: since <= i < |acks| ==> acks[i].requestId != id
  }

  /** The value is the message id of the first ack carrying `id` since the call started. */
  ghost predicate OwnFirstAck(acks: seq<Ack>, since: nat, id: string, value: int) {
    exists k: nat :: FirstAckAt(acks, since, id, k) && acks[k].messageId == value
  }

  ghost predicate CallOk(h: Hub, id: string, c: Call) {
    match c
    case InFlight(f, since) =>
      && f < |h.futures| && id in h.waiters && h.waiters[id] == f
      && (h.futures[f].Pending? ==> NoAckSince(h.acks, since, id))
      && (h.futures[f].Resolved? ==> OwnFirstAck(h.acks, since, id, h.futures[f].messageId))
    case Returned(v, since) => v == NO_ACK || OwnFirstAck(h.acks, since, id, v)
    case Raised => true
  }

  /** The waiter map holds exactly the requests in flight, each with its own future. */
  ghost predicate WaitersMatchCalls(h: Hub) {
    && (forall id :: id in h.waiters <==> id in h.calls && h.calls[id].InFlight?)
    && (forall a, b :: a in h.waiters && b in h.waiters && h.waiters[a] == h.waiters[b] ==> a == b)
  }

  ghost predicate Inv(h: Hub) {
    WaitersMatchCalls(h) && forall id :: id in h.calls ==> CallOk(h, id, h.calls[id])
  }

  /** One more ack does not disturb what was known about the earlier ones. */
  lemma AckExtends(acks: seq<Ack>, a: Ack, since: nat, id: string, value: int)
    ensures OwnFirstAck(acks, since, id, value) ==> OwnFirstAck(acks + [a], since, id, value)
    ensures NoAckSince(acks, since, id) && a.requestId != id ==> NoAckSince(acks + [a], since, id)
    ensures NoAckSince(acks, since, id) && a.requestId == id ==> OwnFirstAck(acks + [a], since, id, a.messageId)
  {
    if k: nat :| FirstAckAt(acks, since, id, k) && acks[k].messageId == value {
      assert FirstAckAt(acks + [a], since, id, k);
    }
    if NoAckSince(acks, since, id) && a.requestId == id {
      assert FirstAckAt(acks + [a], since, id, |acks|);
    }
  }

  lemma ReceiveKeepsCalls(h: Hub, a: Ack, id: string)
    requires Inv(h) && id in h.calls
    ensures CallOk(Apply(h, Receive(a)), id, h.calls[id])
  {
    hide NoAckSince, OwnFirstAck;
    assert CallOk(h, id, h.calls[id]);
    if h.calls[id].InFlight? {
      var f := h.futures[h.calls[id].future];
      AckExtends(h.acks, a, h.calls[id].since, id, if f.Resolved? then f.messageId else 0);
    } else if h.calls[id].Returned? {
      AckExtends(h.acks, a, h.calls[id].since, id, h.calls[id].value);
    }
  }

  lemma StepKeepsInv(h: Hub, st: Step)
    requires Inv(h) && Enabled(h, st)
    ensures Inv(Apply(h, st))
  {
    hide OwnFirstAck;
    var h' := Apply(h, st);
    assert WaitersMatchCalls(h') by { StepKeepsWaiters(h, st); }
    forall id | id in h'.calls ensures CallOk(h', id, h'.calls[id]) {
      if id in h.calls {
        assert CallOk(h, id, h.calls[id]);
        if st.Receive? {
          ReceiveKeepsCalls(h, st.ack, id);
        }
      }
    }
  }

  lemma StepKeepsWaiters(h: Hub, st: Step)
    requires Inv(h) && Enabled(h, st)
    ensures WaitersMatchCalls(Apply(h, st))
  {
    hide OwnFirstAck, NoAckSince;
    forall id | id in h.waiters ensures h.waiters[id] < |h.futures| {
      assert CallOk(h, id, h.calls[id]);
    }
  }

  /**
  Over every interleaving of sends, acks (late, duplicate or unknown), timeouts and cancellations
  with unique request ids: each call returns the sentinel or the message id of the first ack that
  carried its own request id since it started, and the waiter map holds exactly the in-flight requests.
  */
  lemma {:induction false} RunsKeepInv(run: seq<Step>)
    requires CanRun(EMPTY, run)
    ensures Inv(After(EMPTY, run))
    decreases |run|
  {
    if run != [] {
      RunsKeepInv(run[..|run| - 1]);
      StepKeepsInv(After(EMPTY, run[..|run| - 1]), Last(run));
    }
  }

  /** A call that `wait_for` answers returns the first ack that carried its own request id since it started. */
  lemma ReturnAckDelivers(run: seq<Step>, id: string)
    requires CanRun(EMPTY, run) && Enabled(After(EMPTY, run), ReturnAck(id))
    ensures var h := After(EMPTY, run);
            var c := Apply(h, ReturnAck(id)).calls[id];
            c.Returned? && c.since == h.calls[id].since && OwnFirstAck(h.acks, c.since, id, c.value)
  {
    hide OwnFirstAck;
    RunsKeepInv(run);
    assert CallOk(After(EMPTY, run), id, After(EMPTY, run).calls[id]);
  }

  /** Only its own timeout cancels the future of a call in flight. */
  lemma {:induction false} CancelledOnlyByTimeout(run: seq<Step>, id: string)
    requires CanRun(EMPTY, run) && Live(After(EMPTY, run), id)
    requires After(EMPTY, run).futures[After(EMPTY, run).calls[id].future].Cancelled?
    ensures Expire(id) in run
    decreases |run|
  {
    hide CallOk;
    var front, st := run[..|run| - 1], Last(run);
    assert run == front + [st];
    var h := After(EMPTY, front);
    RunsKeepInv(front);
    if st != Expire(id) {
      assert id in h.calls ==> h.calls[id].InFlight?;
      OtherStepKeepsFuture(h, st, id);
      CancelledOnlyByTimeout(front, id);
    }
  }

  /** Any other step leaves a call in flight where it was, and its future uncancelled if it was. */
  lemma OtherStepKeepsFuture(h: Hub, st: Step, id: string)
    requires Inv(h) && Enabled(h, st) && st != Expire(id) && Live(Apply(h, st), id)
    ensures st != Start(id) ==> Live(h, id) && Apply(h, st).calls[id] == h.calls[id]
    ensures Apply(h, st).futures[Apply(h, st).calls[id].future].Cancelled? ==>
              Live(h, id) && h.futures[h.calls[id].future].Cancelled?
  {
    hide NoAckSince, OwnFirstAck;
    assert id in h.calls ==> CallOk(h, id, h.calls[id]);
    if (st.Expire? || st.Abort?) && st.id in h.calls {
      assert CallOk(h, st.id, h.calls[st.id]);
    }
  }

  /** An ack that arrives before the timeout is delivered: the call can return, and returns the first one's message id. */
  lemma AckInTimeIsDelivered(run: seq<Step>, id: string, k: nat)
    requires CanRun(EMPTY, run) && Live(After(EMPTY, run), id) && Expire(id) !in run
    requires FirstAckAt(After(EMPTY, run).acks, After(EMPTY, run).calls[id].since, id, k)
    ensures var h := After(EMPTY, run);
            Enabled(h, ReturnAck(id))
            && Apply(h, ReturnAck(id)).calls[id] == Returned(h.acks[k].messageId, h.calls[id].since)
  {
    hide OwnFirstAck;
    var h := After(EMPTY, run);
    RunsKeepInv(run);
    assert CallOk(h, id, h.calls[id]);
    var f := h.futures[h.calls[id].future];
    if f.Cancelled? {
      CancelledOnlyByTimeout(run, id);
      assert false;
    }
    assert f.Resolved?;
    ReturnAckDelivers(run, id);
    FirstAckIsUnique(h.acks, h.calls[id].since, id, k, Apply(h, ReturnAck(id)).calls[id].value);
  }

  lemma FirstAckIsUnique(acks: seq<Ack>, since: nat, id: string, k: nat, value: int)
    requires FirstAckAt(acks, since, id, k) && OwnFirstAck(acks, since, id, value)
    ensures acks[k].messageId == value
  {
    var j: nat :| FirstAckAt(acks, since, id, j) && acks[j].messageId == value;
    assert j == k;
  }

  /** Once every call has finished the waiter map is empty. */
  lemma NoLeakedWaiters(run: seq<Step>)
    requires CanRun(EMPTY, run)
    requires forall id :: id in After(EMPTY, run).calls ==> !After(EMPTY, run).calls[id].InFlight?
    ensures After(EMPTY, run).waiters == map[]
  {
    RunsKeepInv(run);
    assert After(EMPTY, run).waiters.Keys == {};
  }

  /** A future that is done stays as it is, and a finished call keeps its outcome, for the rest of every run. */
  lemma {:induction false} ResolvedAtMostOnce(h: Hub, run: seq<Step>)
    requires CanRun(h, run)
    ensures |h.futures| <= |After(h, run).futures|
    ensures forall i :: 0 <= i < |h.futures| && !h.futures[i].Pending? ==> After(h, run).futures[i] == h.futures[i]
    ensures forall id :: id in h.calls && !h.calls[id].InFlight? ==>
              id in After(h, run).calls && After(h, run).calls[id] == h.calls[id]
    decreases |run|
  {
    if run != [] {
      ResolvedAtMostOnce(h, run[..|run| - 1]);
    }
  }

  // ---- The operations on the process-wide waiter map ----

  class Waiters {
    var waiters: map<string, nat>
    var futures: seq<Future>
    ghost var calls: map<string, Call>
    ghost var acks: seq<Ack>

    constructor ()
      ensures View() == EMPTY
    {
      waiters, futures, calls, acks := map[], [], map[], [];
    }

    ghost function View(): Hub
      reads this
    {
      Hub(waiters, futures, calls, acks)
    }

    /** The part of `send_ephemeral` up to its first await. */
    method BeginSend(id: string) returns (future: nat)
      requires Inv(View()) && id !in calls
      modifies this
      ensures View() == Apply(old(View()), Start(id)) && Inv(View())
      ensures Live(View(), id) && calls[id].future == future
    {
      StepKeepsInv(View(), Start(id));
      future := |futures|;
      futures := futures + [Pending];
      waiters := waiters[id := future];
      calls := calls[id := InFlight(future, |acks|)];
    }

    method ResolveEphemeralSent(id: string, messageId: int)
      requires Inv(View())
      modifies this
      ensures View() == Apply(old(View()), Receive(Ack(id, messageId))) && Inv(View())
    {
      StepKeepsInv(View(), Receive(Ack(id, messageId)));
      acks := acks + [Ack(id, messageId)];
      if id in waiters {
        assert CallOk(old(View()), id, calls[id]);
        var future := waiters[id];
        if futures[future].Pending? {
          futures := futures[future := Resolved(messageId)];
        }
      }
    }

    /** The rest of `send_ephemeral`: `acked` says whether `wait_for` delivered the future's result. */
    method EndSend(id: string, future: nat, acked: bool) returns (value: int)
      requires Inv(View()) && Live(View(), id) && calls[id].future == future
      requires acked ==> futures[future].Resolved?
      modifies this
      ensures View() == Apply(old(View()), if acked then ReturnAck(id) else ReturnNoAck(id)) && Inv(View())
      ensures if acked then OwnFirstAck(acks, old(calls[id].since), id, value) else value == -1
      ensures id !in waiters
    {
      StepKeepsInv(View(), if acked then ReturnAck(id) else ReturnNoAck(id));
      assert CallOk(View(), id, calls[id]);
      value := if acked then futures[future].messageId else NO_ACK;
      waiters := waiters - {id};
      calls := calls[id := Returned(value, calls[id].since)];
    }
  }
}
