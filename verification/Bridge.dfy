/** The request/response bridge between blocked guest threads and the Python dispatcher: requesters,
  * the bounded channel, the pending map, response slots and cancellation flags, step by step. */
module Bridge {
  import opened Prelude
  import opened Wire

  type Response = seq<byte>

  datatype Outcome = Answered(response: Response) | Failed

  /** Sending: the requester still holds the request. Waiting: it polls its response slot. */
  datatype Phase = Sending | Waiting | Returned(outcome: Outcome)

  /** `cancelled` is what every token of this request reads; `slot` holds unreceived responses. */
  datatype Call = Call(phase: Phase, cancelled: bool, slot: seq<Response>)

  datatype Completion = Completion(id: nat, response: Response)

  /** A request is at the requester, in `channel`, in `transit` (taken from the channel, not yet
    * filed), in `pending`, or in the hands of a completer (`completing`). `completions` is the
    * history of successful removals from the pending map. */
  datatype Sys = Sys(
    issued: nat, calls: map<nat, Call>, channel: seq<nat>, capacity: nat, open: bool,
    transit: Option<nat>, pending: set<nat>, completing: map<nat, Response>, completions: seq<Completion>)

  function Start(capacity: nat): Sys { Sys(0, map[], [], capacity, true, None, {}, map[], []) }

  datatype Act =
    | Invoke
    | TrySend(id: nat)
    | GiveUp(id: nat)            // cancellation seen or deadline passed, in either loop
    | TakeResponse(id: nat)
    | SeeDisconnect(id: nat)
    | Dequeue
    | File
    | LoseTransit                // the dequeuing future fails before it files the request
    | BeginComplete(id: nat, response: Response)
    | FinishComplete(id: nat)
    | CloseReceiver

  function Return(s: Sys, id: nat, outcome: Outcome): Sys
    requires id in s.calls
  {
    s.(calls := s.calls[id := s.calls[id].(phase := Returned(outcome), cancelled := true)])
  }

  predicate InPhase(s: Sys, id: nat, p: Phase) { id in s.calls && s.calls[id].phase == p }

  predicate Held(s: Sys, id: nat) {
    id in s.channel || s.transit == Some(id) || id in s.pending || id in s.completing
  }

  /** One atomic step; a step whose guard fails changes nothing. */
  function Step(s: Sys, a: Act): Sys {
    match a
    case Invoke =>
      s.(issued := s.issued + 1, calls := s.calls[s.issued + 1 := Call(Sending, false, [])])
    case TrySend(id) =>
      if !InPhase(s, id, Sending) then s
      else if !s.open then Return(s, id, Failed)
      else if |s.channel| >= s.capacity then s
      else s.(channel := s.channel + [id], calls := s.calls[id := s.calls[id].(phase := Waiting)])
    case GiveUp(id) =>
      if InPhase(s, id, Sending) || InPhase(s, id, Waiting) then Return(s, id, Failed) else s
    case TakeResponse(id) =>
      if InPhase(s, id, Waiting) && s.calls[id].slot != [] then Return(s, id, Answered(s.calls[id].slot[0])) else s
    case SeeDisconnect(id) =>
      if InPhase(s, id, Waiting) && s.calls[id].slot == [] && !Held(s, id) then Return(s, id, Failed) else s
    case Dequeue =>
      if s.channel != [] && s.transit.None? then s.(transit := Some(s.channel[0]), channel := s.channel[1..]) else s
    case File =>
      if s.transit.Some? then s.(pending := s.pending + {s.transit.value}, transit := None) else s
    case LoseTransit => s.(transit := None)
    case BeginComplete(id, r) =>
      if id !in s.pending then s
      else s.(pending := s.pending - {id}, completing := s.completing[id := r],
              completions := s.completions + [Completion(id, r)])
    case FinishComplete(id) =>
      if id !in s.completing then s else
        var rest := s.(completing := s.completing - {id});
        if InPhase(s, id, Waiting)
        then rest.(calls := s.calls[id := s.calls[id].(slot := s.calls[id].slot + [s.completing[id]])])
        else rest
    case CloseReceiver => s.(open := false, channel := [])
  }

  function Run(s: Sys, acts: seq<Act>): Sys {
    if acts == [] then s else Step(Run(s, acts[..|acts| - 1]), acts[|acts| - 1])
  }

  // ---------------------------------------------------------------- invariants

  function Bit(b: bool): nat { if b then 1 else 0 }

  /** In how many places the request is. */
  function Places(s: Sys, id: nat): nat {
    Bit(InPhase(s, id, Sending)) + Bit(id in s.channel) + Bit(s.transit == Some(id))
    + Bit(id in s.pending) + Bit(id in s.completing)
  }

  function Ids(cs: seq<Completion>): set<nat> { set k | 0 <= k < |cs| :: cs[k].id }

  /** Everything about one request. */
  ghost predicate Safe(s: Sys, id: nat) {
    // it is in at most one place, and only if it was issued
    && Places(s, id) <= 1
    && (id in s.calls <==> 1 <= id <= s.issued)
    && (id !in s.calls ==> Places(s, id) == 0 && id !in Ids(s.completions))
    // once completed it is nowhere, except with its completer for the moment
    && (id in Ids(s.completions) ==> Places(s, id) == Bit(id in s.completing))
    && (id in s.completing ==> Completion(id, s.completing[id]) in s.completions)
    // responses stay with their request
    && (id in s.calls ==> OwnResponse(s, id, s.calls[id]))
  }

  ghost predicate OwnResponse(s: Sys, id: nat, c: Call) {
    && |c.slot| <= 1
    && (c.slot != [] ==> id !in s.completing && Completion(id, c.slot[0]) in s.completions)
    && (c.phase.Returned? && c.phase.outcome.Answered? ==> Completion(id, c.phase.outcome.response) in s.completions)
    // every token of a returned call reads cancelled, of a running call not
    && (c.cancelled <==> c.phase.Returned?)
  }

  ghost predicate NoRepeats(s: Sys) {
    && (forall j, k :: 0 <= j < k < |s.channel| ==> s.channel[j] != s.channel[k])
    && (forall j, k :: 0 <= j < k < |s.completions| ==> s.completions[j].id != s.completions[k].id)
  }

  ghost predicate Inv(s: Sys) {
    NoRepeats(s) && |s.channel| <= s.capacity && forall id: nat :: Safe(s, id)
  }

  lemma {:induction false} IdsAppend(cs: seq<Completion>, c: Completion)
    ensures Ids(cs + [c]) == Ids(cs) + {c.id}
  {
    var cs' := cs + [c];
    assert cs'[|cs|] == c;
    forall k | 0 <= k < |cs| ensures cs[k].id in Ids(cs') { assert cs'[k] == cs[k]; }
  }

  lemma {:induction false} StepNoRepeats(s: Sys, a: Act)
    requires Inv(s)
    ensures NoRepeats(Step(s, a)) && |Step(s, a).channel| <= s.capacity == Step(s, a).capacity
  {
    hide Safe, Places;
    match a
    case TrySend(id) => if InPhase(s, id, Sending) { SafeSending(s, id); }
    case BeginComplete(id, r) => if id in s.pending { SafePending(s, id); }
    case _ =>
  }

  lemma SafeSending(s: Sys, id: nat)
    requires Safe(s, id) && InPhase(s, id, Sending)
    ensures id !in s.channel
  {
  }

  lemma SafePending(s: Sys, id: nat)
    requires Safe(s, id) && id in s.pending
    ensures id !in Ids(s.completions)
  {
  }

  predicate ByRequester(a: Act) { a.Invoke? || a.TrySend? || a.GiveUp? || a.TakeResponse? || a.SeeDisconnect? }

  lemma {:induction false} RequesterSafe(s: Sys, a: Act, id: nat)
    requires ByRequester(a) && Safe(s, id)
    ensures Safe(Step(s, a), id)
  {
    hide Ids;
  }

  lemma {:induction false} HostSafe(s: Sys, a: Act, id: nat)
    requires !ByRequester(a) && NoRepeats(s) && Safe(s, id)
    ensures Safe(Step(s, a), id)
  {
    match a
    case BeginComplete(x, r) => IdsAppend(s.completions, Completion(x, r));
    case FinishComplete(x) => hide Ids;
    case _ => hide Ids;
  }

  lemma {:induction false} StepInv(s: Sys, a: Act)
    requires Inv(s)
    ensures Inv(Step(s, a))
  {
    hide Safe, Step;
    StepNoRepeats(s, a);
    forall id: nat ensures Safe(Step(s, a), id) {
      if ByRequester(a) { RequesterSafe(s, a, id); } else { HostSafe(s, a, id); }
    }
  }

  /** What a returned call returned, and what was completed, never changes again. */
  ghost predicate Preserves(s: Sys, s': Sys) {
    && s.completions <= s'.completions
    && forall id :: id in s.calls && s.calls[id].phase.Returned? ==> id in s'.calls && s'.calls[id].phase == s.calls[id].phase
  }

  lemma {:induction false} StepPreserves(s: Sys, a: Act)
    requires Inv(s)
    ensures Preserves(s, Step(s, a))
  {
    assert Safe(s, s.issued + 1);
  }

  lemma {:induction false} RunSafe(s: Sys, acts: seq<Act>)
    requires Inv(s)
    ensures Inv(Run(s, acts)) && Preserves(s, Run(s, acts))
  {
    hide Inv, Step;
    if acts != [] {
      var n := |acts| - 1;
      RunSafe(s, acts[..n]);
      StepInv(Run(s, acts[..n]), acts[n]);
      StepPreserves(Run(s, acts[..n]), acts[n]);
    }
  }

  /** Safety of the bridge in every run. */
  lemma {:induction false} EveryRunSafe(capacity: nat, acts: seq<Act>)
    ensures Inv(Run(Start(capacity), acts))
  {
    hide Run, Step;
    RunSafe(Start(capacity), acts);
  }

  /** A request that was completed at some point of a run is not at its requester, in the channel,
    * in transit or pending at any later point, so it cannot be completed again. */
  lemma {:induction false} NeverReenters(capacity: nat, acts: seq<Act>, more: seq<Act>, id: nat)
    requires id in Ids(Run(Start(capacity), acts).completions)
    ensures var s := Run(Run(Start(capacity), acts), more);
            !InPhase(s, id, Sending) && id !in s.channel && s.transit != Some(id) && id !in s.pending
  {
    hide Run;
    var s := Run(Start(capacity), acts);
    EveryRunSafe(capacity, acts);
    RunSafe(s, more);
    var s' := Run(s, more);
    var k :| 0 <= k < |s.completions| && s.completions[k].id == id;
    assert s'.completions[k] == s.completions[k];
    assert Safe(s', id);
  }

  /** invoke_blocking returns Ok(r) only if r was completed for this very id, by the only completion
    * that id ever gets; and it keeps that answer. */
  lemma {:induction false} AnswerIsOwnAndUnique(capacity: nat, acts: seq<Act>, more: seq<Act>, id: nat, r: Response)
    requires InPhase(Run(Start(capacity), acts), id, Returned(Answered(r)))
    ensures var s := Run(Run(Start(capacity), acts), more);
            && InPhase(s, id, Returned(Answered(r)))
            && Completion(id, r) in s.completions
            && forall c :: c in s.completions && c.id == id ==> c.response == r
  {
    hide Run;
    var s := Run(Start(capacity), acts);
    EveryRunSafe(capacity, acts);
    RunSafe(s, more);
    var s' := Run(s, more);
    assert Safe(s', id);
    var k :| 0 <= k < |s'.completions| && s'.completions[k] == Completion(id, r);
    forall c | c in s'.completions && c.id == id ensures c.response == r {
      var j :| 0 <= j < |s'.completions| && s'.completions[j] == c;
      assert j == k;
    }
  }

  lemma {:induction false} PendingUnanswered(s: Sys, id: nat)
    requires Inv(s) && id in s.pending
    ensures id in s.calls && s.calls[id].slot == [] && id !in s.completing
  {
    assert Safe(s, id);
    assert id !in Ids(s.completions);
  }

  /** Delivering a response touches no other call, and no call at all if its own has returned. */
  lemma LateResponseIsLost(s: Sys, id: nat)
    ensures forall other :: other in s.calls && other != id ==>
              other in Step(s, FinishComplete(id)).calls && Step(s, FinishComplete(id)).calls[other] == s.calls[other]
    ensures !InPhase(s, id, Waiting) ==> Step(s, FinishComplete(id)).calls == s.calls
  {
  }

  /** In every reachable state a token reads cancelled exactly when its invocation has returned. */
  lemma {:induction false} TokensTellReturned(capacity: nat, acts: seq<Act>, id: nat)
    requires id in Run(Start(capacity), acts).calls
    ensures var c := Run(Start(capacity), acts).calls[id]; c.cancelled <==> c.phase.Returned?
  {
    EveryRunSafe(capacity, acts);
    assert Safe(Run(Start(capacity), acts), id);
  }

  // ---------------------------------------------------------------- the channel is first in, first out

  /** The request that a step moves from its requester into the channel, seen from its phase alone. */
  function SentBy(s: Sys, a: Act): seq<nat> {
    if a.TrySend? && InPhase(s, a.id, Sending) && InPhase(Step(s, a), a.id, Waiting) then [a.id] else []
  }

  /** The request that a step hands to the dispatcher. */
  function TakenBy(s: Sys, a: Act): seq<nat> {
    if s.transit.None? && Step(s, a).transit.Some? then [Step(s, a).transit.value] else []
  }

  function AllSent(capacity: nat, acts: seq<Act>): seq<nat> {
    if acts == [] then [] else
      var n := |acts| - 1;
      AllSent(capacity, acts[..n]) + SentBy(Run(Start(capacity), acts[..n]), acts[n])
  }

  function AllTaken(capacity: nat, acts: seq<Act>): seq<nat> {
    if acts == [] then [] else
      var n := |acts| - 1;
      AllTaken(capacity, acts[..n]) + TakenBy(Run(Start(capacity), acts[..n]), acts[n])
  }

  lemma {:induction false} ChannelStep(s: Sys, a: Act)
    requires s.open && a != CloseReceiver
    ensures Step(s, a).open && TakenBy(s, a) + Step(s, a).channel == s.channel + SentBy(s, a)
  {
    if a == Dequeue && s.channel != [] { assert s.channel == [s.channel[0]] + s.channel[1..]; }
  }

  /** In every run up to the closing of the receiver: the requests handed to the dispatcher, then those
    * in the channel, are the requests that were sent, in that order. */
  lemma {:induction false} FirstInFirstOut(capacity: nat, acts: seq<Act>)
    requires CloseReceiver !in acts
    ensures var s := Run(Start(capacity), acts);
            s.open && AllTaken(capacity, acts) + s.channel == AllSent(capacity, acts)
  {
    if acts != [] {
      hide Step, SentBy, TakenBy;
      var n := |acts| - 1;
      FirstInFirstOut(capacity, acts[..n]);
      assert acts[n] in acts;
      var s := Run(Start(capacity), acts[..n]);
      ChannelStep(s, acts[n]);
      Regroup(AllTaken(capacity, acts[..n]), TakenBy(s, acts[n]), Step(s, acts[n]).channel, s.channel, SentBy(s, acts[n]));
    }
  }

  lemma Regroup(taken: seq<nat>, more: seq<nat>, after: seq<nat>, before: seq<nat>, sent: seq<nat>)
    requires more + after == before + sent
    ensures taken + more + after == taken + before + sent
  {
    assert taken + more + after == taken + (more + after);
  }

  /** A sender gets its request in iff the receiver is there and the channel has room; it fails iff the
    * receiver is gone; the dispatcher gets a request iff one waits and it holds none. */
  lemma {:induction false} ChannelMovesIff(s: Sys, id: nat)
    requires InPhase(s, id, Sending)
    ensures InPhase(Step(s, TrySend(id)), id, Waiting) <==> s.open && |s.channel| < s.capacity
    ensures InPhase(Step(s, TrySend(id)), id, Returned(Failed)) <==> !s.open
    ensures Step(s, TrySend(id)).calls[id].phase.Returned? ==> !s.open
    ensures TakenBy(s, Dequeue) != [] <==> s.channel != [] && s.transit.None?
  {
  }

  // ---------------------------------------------------------------- the methods' steps

  /** The steps open to a waiting requester. */
  lemma WaitSteps(s: Sys, id: nat)
    requires InPhase(s, id, Waiting)
    ensures Step(s, GiveUp(id)) == Return(s, id, Failed)
    ensures s.calls[id].slot != [] ==> Step(s, TakeResponse(id)) == Return(s, id, Answered(s.calls[id].slot[0]))
    ensures s.calls[id].slot == [] ==> Step(s, SeeDisconnect(id)) == if Held(s, id) then s else Return(s, id, Failed)
  {
  }

  // ---------------------------------------------------------------- the objects' methods as step sequences

  /** The bridge and the pending map with the code that runs on them: one round of each loop of the
    * requester, and the dispatcher's two calls. Between calls any other step may happen. */
  class Sandbox {
    var issued: nat
    var calls: map<nat, Call>
    var channel: seq<nat>
    const capacity: nat
    var open: bool
    var transit: Option<nat>
    var pending: set<nat>
    var completing: map<nat, Response>
    ghost var completions: seq<Completion>

    ghost function Model(): Sys
      reads this
    {
      Sys(issued, calls, channel, capacity, open, transit, pending, completing, completions)
    }

    constructor (capacity: nat)
      ensures Model() == Start(capacity)
    {
      this.capacity := capacity;
      issued, calls, channel, open, transit, pending := 0, map[], [], true, None, {};
      completing, completions := map[], [];
    }

    method NewRequest() returns (id: nat)
      requires Inv(Model())
      modifies this
      ensures Model() == Step(old(Model()), Invoke) && Inv(Model())
      ensures InPhase(Model(), id, Sending) && id !in old(calls)
    {
      assert Safe(Model(), issued + 1);
      StepInv(Model(), Invoke);
      id := issued + 1;
      issued := id;
      calls := calls[id := Call(Sending, false, [])];
    }

    /** request_cancellation.cancel(): every token of the request now reads cancelled. */
    method CancelRequest(id: nat)
      requires id in calls
      modifies this`calls
      ensures calls == old(calls)[id := old(calls)[id].(cancelled := true)]
    {
      calls := calls[id := calls[id].(cancelled := true)];
    }

    /** The invocation returns; this alone cancels nothing. */
    method Leave(id: nat, outcome: Outcome)
      requires id in calls
      modifies this`calls
      ensures calls == old(calls)[id := old(calls)[id].(phase := Returned(outcome))]
    {
      calls := calls[id := calls[id].(phase := Returned(outcome))];
    }

    /** One round of the send loop: the two checks, then try_send. */
    method SendRound(id: nat, cancelled: bool, expired: bool)
      requires Inv(Model()) && InPhase(Model(), id, Sending)
      modifies this
      ensures Model() == Step(old(Model()), if cancelled || expired then GiveUp(id) else TrySend(id))
      ensures Inv(Model())
      ensures id in calls && calls[id].phase == if cancelled || expired || !old(open) then Returned(Failed)
                                                else if |old(channel)| >= capacity then Sending else Waiting
      ensures channel == if calls[id].phase == Waiting then old(channel) + [id] else old(channel)
    {
      StepInv(Model(), if cancelled || expired then GiveUp(id) else TrySend(id));
      hide Inv;
      if cancelled {
        CancelRequest(id);
        Leave(id, Failed);
        return;
      }
      if expired {
        CancelRequest(id);
        Leave(id, Failed);
        return;
      }
      if !open {
        CancelRequest(id);
        Leave(id, Failed);
        return;
      }
      if |channel| >= capacity { return; }
      channel := channel + [id];
      calls := calls[id := calls[id].(phase := Waiting)];
    }

    /** One round of the wait loop: the two checks, then recv_timeout. */
    method WaitRound(id: nat, cancelled: bool, expired: bool) returns (done: bool)
      requires Inv(Model()) && InPhase(Model(), id, Waiting)
      modifies this
      ensures Model() == Step(old(Model()), if cancelled || expired then GiveUp(id)
                                            else if old(calls)[id].slot != [] then TakeResponse(id) else SeeDisconnect(id))
      ensures Inv(Model()) && id in calls && (done <==> calls[id].phase.Returned?)
      ensures calls[id].phase == if cancelled || expired then Returned(Failed)
                                 else if old(calls)[id].slot != [] then Returned(Answered(old(calls)[id].slot[0]))
                                 else if Held(old(Model()), id) then Waiting else Returned(Failed)
    {
      StepInv(Model(), if cancelled || expired then GiveUp(id)
                       else if calls[id].slot != [] then TakeResponse(id) else SeeDisconnect(id));
      WaitSteps(Model(), id);
      hide Inv, Step;
      if cancelled {
        CancelRequest(id);
        Leave(id, Failed);
        return true;
      }
      if expired {
        CancelRequest(id);
        Leave(id, Failed);
        return true;
      }
      if calls[id].slot != [] {
        CancelRequest(id);
        Leave(id, Answered(calls[id].slot[0]));
        return true;
      }
      var held := id in channel || transit == Some(id) || id in pending || id in completing;
      if !held {
        CancelRequest(id);
        Leave(id, Failed);
        return true;
      }
      done := false;
    }

    /** next_virtual_process: takes a request from the channel and files it. */
    method NextVirtualProcess() returns (id: Option<nat>)
      requires Inv(Model()) && transit.None?
      modifies this
      ensures Model() == Step(Step(old(Model()), Dequeue), File) && Inv(Model())
      ensures id == if old(channel) == [] then None else Some(old(channel)[0])
      ensures pending == if id.Some? then old(pending) + {id.value} else old(pending)
      ensures id.Some? ==> id.value !in old(pending) && channel == old(channel)[1..]
    {
      StepInv(Model(), Dequeue);
      StepInv(Step(Model(), Dequeue), File);
      if channel == [] { return None; }
      assert Safe(Model(), channel[0]);
      id := Some(channel[0]);
      channel := channel[1..];
      pending := pending + {id.value};
    }

    /** complete_virtual_process: true iff the request was pending and its requester still waits. */
    method CompleteVirtualProcess(id: nat, response: Response) returns (ok: bool)
      requires Inv(Model())
      modifies this
      ensures Model() == (if id in old(pending) then Step(Step(old(Model()), BeginComplete(id, response)), FinishComplete(id))
                          else old(Model()))
      ensures Inv(Model())
      ensures ok == (id in old(pending) && InPhase(old(Model()), id, Waiting))
      ensures ok ==> id in calls && calls[id].slot == [response]
      ensures pending == old(pending) - {id} && (!ok ==> calls == old(calls))
    {
      StepInv(Model(), BeginComplete(id, response));
      StepInv(Step(Model(), BeginComplete(id, response)), FinishComplete(id));
      if id !in pending { return false; }
      PendingUnanswered(Model(), id);
      hide Inv;
      pending := pending - {id};
      completions := completions + [Completion(id, response)];
      ok := id in calls && calls[id].phase == Waiting;
      if ok {
        calls := calls[id := calls[id].(slot := calls[id].slot + [response])];
      }
    }
  }
}
