/** Bridge and supervisors together: every request that is filed gets a supervisor, whose completion
  * attempt is the call that removes the request from the pending map, and whose native cancellation
  * future watches the token of that request. */
module Invocation {
  import opened Prelude
  import opened Wire
  import opened Response
  import opened Bridge
  import Supervisor

  /** `tasks` holds what happened so far at the supervisor of each filed request. */
  datatype State = State(bridge: Sys, tasks: map<nat, seq<Supervisor.Act>>)

  datatype Act =
    | Host(step: Bridge.Act)                  // requesters, channel, response delivery
    | FileAndStart                            // the dequeued request is filed and its supervisor started
    | Task(id: nat, act: Supervisor.Act)

  function Start(capacity: nat): State { State(Bridge.Start(capacity), map[]) }

  /** The native cancellation future resolves only when the request's token reads cancelled. */
  predicate Enabled(s: State, id: nat, a: Supervisor.Act) {
    && id in s.tasks && !Supervisor.Run(s.tasks[id]).pc.Ended?
    && (a == Supervisor.NativeFires ==> id in s.bridge.calls && s.bridge.calls[id].cancelled)
  }

  function Step(s: State, a: Act): State {
    match a
    case Host(b) => if b.File? || b.BeginComplete? then s else s.(bridge := Bridge.Step(s.bridge, b))
    case FileAndStart =>
      if s.bridge.transit.None? then s
      else State(Bridge.Step(s.bridge, Bridge.File), s.tasks[s.bridge.transit.value := []])
    case Task(id, b) =>
      if !Enabled(s, id, b) then s else
        var acts := s.tasks[id] + [b];
        var sent := Supervisor.Run(acts).sent;
        State(if sent == [] then s.bridge else Bridge.Step(s.bridge, BeginComplete(id, sent[0])), s.tasks[id := acts])
  }

  function Run(capacity: nat, acts: seq<Act>): State {
    if acts == [] then Start(capacity) else Step(Run(capacity, acts[..|acts| - 1]), acts[|acts| - 1])
  }

  // ---------------------------------------------------------------- the two sides agree

  /** The completions of a request are what its supervisor sent. */
  ghost predicate Linked(s: State, id: nat) {
    && (id in s.tasks <==> id in s.bridge.pending || id in Ids(s.bridge.completions))
    && (id in s.tasks ==> Agree(s.bridge, id, Supervisor.Run(s.tasks[id]).sent))
    && (id in s.tasks && Supervisor.NativeFires in s.tasks[id] ==> InPhase(s.bridge, id, Returned(Failed)))
    && OnItsWay(s.bridge, id)
  }

  ghost predicate Agree(b: Sys, id: nat, sent: seq<seq<byte>>) {
    && (sent == [] <==> id in b.pending)
    && (forall k :: 0 <= k < |b.completions| && b.completions[k].id == id ==> sent == [b.completions[k].response])
  }

  /** A response to a requester that still waits is with its completer or in its slot. */
  ghost predicate OnItsWay(b: Sys, id: nat) {
    InPhase(b, id, Waiting) && id in Ids(b.completions) ==> id in b.completing || b.calls[id].slot != []
  }

  ghost predicate Inv(s: State) { Bridge.Inv(s.bridge) && forall id: nat :: Linked(s, id) }

  lemma HostFrame(b: Sys, a: Bridge.Act)
    requires !a.File? && !a.BeginComplete?
    ensures Bridge.Step(b, a).pending == b.pending && Bridge.Step(b, a).completions == b.completions
  {
  }

  lemma {:induction false} HostOnItsWay(b: Sys, a: Bridge.Act, id: nat)
    requires Safe(b, id) && OnItsWay(b, id) && !a.BeginComplete?
    ensures OnItsWay(Bridge.Step(b, a), id)
  {
    hide Ids;
  }

  lemma {:induction false} HostLinked(s: State, a: Bridge.Act, id: nat)
    requires Inv(s) && !a.File? && !a.BeginComplete?
    ensures Linked(Step(s, Host(a)), id)
  {
    hide Bridge.Step, Bridge.Inv, Ids, Supervisor.Run, Agree, OnItsWay;
    assert Linked(s, id);
    HostFrame(s.bridge, a);
    StepPreserves(s.bridge, a);
    SafeAt(s.bridge, id);
    HostOnItsWay(s.bridge, a, id);
    AgreeKept(s, a, id);
  }

  lemma SafeAt(b: Sys, id: nat)
    requires Bridge.Inv(b)
    ensures Safe(b, id)
  {
  }

  lemma AgreeKept(s: State, a: Bridge.Act, id: nat)
    requires !a.File? && !a.BeginComplete?
    ensures id in s.tasks && Agree(s.bridge, id, Supervisor.Run(s.tasks[id]).sent) ==>
              Agree(Bridge.Step(s.bridge, a), id, Supervisor.Run(s.tasks[id]).sent)
  {
    hide Supervisor.Run;
    HostFrame(s.bridge, a);
  }

  lemma {:induction false} FileLinked(s: State, id: nat)
    requires Inv(s) && s.bridge.transit.Some?
    ensures Linked(Step(s, FileAndStart), id)
  {
    hide Ids;
    var x := s.bridge.transit.value;
    assert Linked(s, id) && Linked(s, x);
    SafeAt(s.bridge, id);
    SafeAt(s.bridge, x);
    Unsent();
    if id == x {
      assert id !in Ids(s.bridge.completions);
      assert forall k :: 0 <= k < |s.bridge.completions| ==> s.bridge.completions[k].id != id by { NotAmong(s.bridge.completions, id); }
    }
  }

  lemma Unsent()
    ensures Supervisor.Run([]).sent == []
  {
  }

  lemma NotAmong(cs: seq<Completion>, id: nat)
    requires id !in Ids(cs)
    ensures forall k :: 0 <= k < |cs| ==> cs[k].id != id
  {
    forall k | 0 <= k < |cs| ensures cs[k].id != id { assert cs[k].id in Ids(cs); }
  }

  /** A pending request has not been answered, so if its token reads cancelled the call has failed. */
  lemma {:induction false} CancelledMeansFailed(b: Sys, id: nat)
    requires Safe(b, id) && id in b.pending
    ensures id !in Ids(b.completions)
    ensures id in b.calls && b.calls[id].cancelled ==> InPhase(b, id, Returned(Failed))
  {
  }

  /** The supervisor's step makes no attempt. */
  lemma {:induction false} SilentLinked(s: State, x: nat, a: Supervisor.Act, id: nat)
    requires Inv(s) && Enabled(s, x, a) && Supervisor.Run(s.tasks[x] + [a]).sent == []
    ensures Linked(Step(s, Task(x, a)), id)
  {
    hide Ids, Supervisor.Run, OnItsWay, Safe;
    assert Linked(s, id);
    if id == x {
      Supervisor.RunInv(s.tasks[x]);
      SafeAt(s.bridge, x);
      NotEndedUnsent(s.tasks[x]);
      CancelledMeansFailed(s.bridge, x);
    }
  }

  lemma NotEndedUnsent(acts: seq<Supervisor.Act>)
    ensures !Supervisor.Run(acts).pc.Ended? ==> Supervisor.Run(acts).sent == []
    ensures |Supervisor.Run(acts).sent| <= 1
  {
    hide Supervisor.Run;
    Supervisor.AtMostOneAttempt(acts);
    Supervisor.RunInv(acts);
  }

  /** The supervisor's step is its attempt: the request is still pending, so the attempt completes it. */
  lemma {:induction false} AttemptLinked(s: State, x: nat, a: Supervisor.Act, id: nat)
    requires Inv(s) && Enabled(s, x, a) && Supervisor.Run(s.tasks[x] + [a]).sent != []
    ensures Linked(Step(s, Task(x, a)), id)
  {
    hide Ids, Supervisor.Run, Safe;
    assert Linked(s, id) && Linked(s, x);
    NotEndedUnsent(s.tasks[x]);
    NotEndedUnsent(s.tasks[x] + [a]);
    var r := Supervisor.Run(s.tasks[x] + [a]).sent[0];
    assert x in s.bridge.pending;
    IdsAppend(s.bridge.completions, Completion(x, r));
    SafeAt(s.bridge, x);
    CancelledMeansFailed(s.bridge, x);
    NotAmong(s.bridge.completions, x);
  }

  lemma {:induction false} StepInv(s: State, a: Act)
    requires Inv(s)
    ensures Inv(Step(s, a))
  {
    var s' := Step(s, a);
    BridgeInv(s, a);
    forall id: nat ensures Linked(s', id) {
      hide Linked, Bridge.Inv, Supervisor.Run, Bridge.Step;
      match a
      case Host(b) => if !b.File? && !b.BeginComplete? { HostLinked(s, b, id); }
      case FileAndStart => if s.bridge.transit.Some? { FileLinked(s, id); }
      case Task(x, b) =>
        if Enabled(s, x, b) {
          if Supervisor.Run(s.tasks[x] + [b]).sent == [] { SilentLinked(s, x, b, id); } else { AttemptLinked(s, x, b, id); }
        }
    }
  }

  lemma {:induction false} BridgeInv(s: State, a: Act)
    requires Bridge.Inv(s.bridge)
    ensures Bridge.Inv(Step(s, a).bridge)
  {
    hide Bridge.Inv, Supervisor.Run, Bridge.Step;
    match a
    case Host(b) => Bridge.StepInv(s.bridge, b);
    case FileAndStart => Bridge.StepInv(s.bridge, Bridge.File);
    case Task(id, b) =>
      if Enabled(s, id, b) && Supervisor.Run(s.tasks[id] + [b]).sent != [] {
        Bridge.StepInv(s.bridge, BeginComplete(id, Supervisor.Run(s.tasks[id] + [b]).sent[0]));
      }
  }

  lemma {:induction false} StartInv(capacity: nat)
    ensures Inv(Start(capacity))
  {
    EveryRunSafe(capacity, []);
  }

  lemma {:induction false} EveryRun(capacity: nat, acts: seq<Act>)
    ensures Inv(Run(capacity, acts))
  {
    hide Inv, Step;
    if acts == [] {
      StartInv(capacity);
    } else {
      EveryRun(capacity, acts[..|acts| - 1]);
      StepInv(Run(capacity, acts[..|acts| - 1]), acts[|acts| - 1]);
    }
  }

  /** In every joint run an event reaches the supervisor of a filed request iff that has not ended, and
    * native cancellation only once the blocked call has returned. */
  lemma {:induction false} TaskStepsIff(capacity: nat, acts: seq<Act>, id: nat, a: Supervisor.Act)
    requires id in Run(capacity, acts).tasks
    ensures var s := Run(capacity, acts); var s' := Step(s, Task(id, a));
            && id in s'.tasks
            && (s'.tasks[id] == s.tasks[id] + [a] <==>
                  && !Supervisor.Run(s.tasks[id]).pc.Ended?
                  && (a == Supervisor.NativeFires ==> id in s.bridge.calls && s.bridge.calls[id].phase.Returned?))
            && (s'.tasks[id] == s.tasks[id] + [a] || s' == s)
  {
    hide Run, Supervisor.Run, Bridge.Step, Ids;
    var s := Run(capacity, acts);
    EveryRun(capacity, acts);
    SafeAt(s.bridge, id);
    assert |s.tasks[id] + [a]| != |s.tasks[id]|;
  }

  /** What the bridge sees of a joint run. */
  function BridgeActs(capacity: nat, acts: seq<Act>): seq<Bridge.Act> {
    if acts == [] then [] else
      var n := |acts| - 1;
      var s, s' := Run(capacity, acts[..n]), Run(capacity, acts);
      BridgeActs(capacity, acts[..n]) +
      match acts[n]
      case Host(b) => if b.File? || b.BeginComplete? then [] else [b]
      case FileAndStart => [Bridge.File]
      case Task(id, _) =>
        if id in s.tasks && id in s'.tasks && Supervisor.Run(s.tasks[id]).sent == [] && Supervisor.Run(s'.tasks[id]).sent != []
        then [BeginComplete(id, Supervisor.Run(s'.tasks[id]).sent[0])] else []
  }

  lemma {:induction false} BridgeSnoc(capacity: nat, acts: seq<Bridge.Act>, a: Bridge.Act)
    ensures Bridge.Run(Bridge.Start(capacity), acts + [a]) == Bridge.Step(Bridge.Run(Bridge.Start(capacity), acts), a)
  {
    assert (acts + [a])[..|acts|] == acts;
  }

  /** The bridge side of every joint run is a run of the bridge in which a request is completed at the
    * moment, and with the value, of its supervisor's attempt. */
  lemma {:induction false} BridgeIsARun(capacity: nat, acts: seq<Act>)
    ensures Run(capacity, acts).bridge == Bridge.Run(Bridge.Start(capacity), BridgeActs(capacity, acts))
  {
    if acts != [] {
      hide Supervisor.Run, Bridge.Start;
      var n := |acts| - 1;
      BridgeIsARun(capacity, acts[..n]);
      var before, s := BridgeActs(capacity, acts[..n]), Run(capacity, acts[..n]);
      assert before + [] == before;
      FileEmpty(s.bridge);
      match acts[n]
      case Host(b) => BridgeSnoc(capacity, before, b);
      case FileAndStart => BridgeSnoc(capacity, before, Bridge.File);
      case Task(id, b) =>
        if Enabled(s, id, b) {
          NotEndedUnsent(s.tasks[id]);
          var sent := Supervisor.Run(s.tasks[id] + [b]).sent;
          if sent != [] { BridgeSnoc(capacity, before, BeginComplete(id, sent[0])); }
        }
      hide Bridge.Step, Bridge.Run;
    }
  }

  lemma FileEmpty(b: Sys)
    ensures b.transit.None? ==> Bridge.Step(b, Bridge.File) == b
  {
  }

  // ---------------------------------------------------------------- what the blocked call returns

  /** In every joint run: a filed request has been completed iff its supervisor made its attempt, then
    * with the value sent there; until then it is pending. The call it belongs to has that value on its
    * way to it, has returned it, or gave up. */
  lemma {:induction false} CompletedIffSent(capacity: nat, acts: seq<Act>, id: nat)
    requires id in Run(capacity, acts).tasks
    ensures var s := Run(capacity, acts); var sent := Supervisor.Run(s.tasks[id]).sent;
            && |sent| <= 1
            && (sent == [] <==> id in s.bridge.pending)
            && (sent != [] <==> id in Ids(s.bridge.completions))
            && (forall c :: c in s.bridge.completions && c.id == id ==> sent == [c.response])
            && (sent != [] ==>
                  || InPhase(s.bridge, id, Returned(Answered(sent[0]))) || InPhase(s.bridge, id, Returned(Failed))
                  || (InPhase(s.bridge, id, Waiting)
                      && (s.bridge.calls[id].slot == [sent[0]] || (id in s.bridge.completing && s.bridge.completing[id] == sent[0]))))
  {
    hide Run, Supervisor.Run, Ids;
    var s := Run(capacity, acts);
    EveryRun(capacity, acts);
    NotEndedUnsent(s.tasks[id]);
    assert Linked(s, id) && Safe(s.bridge, id);
    var b, sent := s.bridge, Supervisor.Run(s.tasks[id]).sent;
    forall c | c in b.completions && c.id == id ensures sent == [c.response] {
      var k :| 0 <= k < |b.completions| && b.completions[k] == c;
    }
    if id in Ids(b.completions) {
      var call := b.calls[id];
      assert OwnResponse(b, id, call) && !call.phase.Sending?;
      if call.phase.Returned? && call.phase.outcome.Answered? {
        assert Completion(id, call.phase.outcome.response) in b.completions;
      } else if call.phase.Waiting? && call.slot != [] {
        assert Completion(id, call.slot[0]) in b.completions;
      } else if call.phase.Waiting? {
        assert Completion(id, b.completing[id]) in b.completions;
      }
    }
  }

  /** In every joint run, if invoke_blocking returns Ok(r) then the supervisor of that request ended with
    * the single attempt r and native cancellation never reached it; and unless its task was cancelled,
    * r is the handler's own encoded reply, or the cancellation reply if the handler cancelled itself. */
  lemma {:induction false} ReturnedAnswerIs(capacity: nat, acts: seq<Act>, id: nat, r: seq<byte>)
    requires InPhase(Run(capacity, acts).bridge, id, Returned(Answered(r)))
    ensures var s := Run(capacity, acts);
            && id in s.tasks && Supervisor.Run(s.tasks[id]).pc.Ended? && Supervisor.Run(s.tasks[id]).sent == [r]
            && Supervisor.NativeFires !in s.tasks[id]
            && (Supervisor.Cancel !in s.tasks[id] ==>
                  var ending := Supervisor.HandlerEnding(s.tasks[id]);
                  && ending.Some?
                  && (if ending.value.HandlerReturns? then EncodePython(ending.value.reply) == Bytes(r)
                      else r == Supervisor.CancelledResponse()))
  {
    hide Run, Supervisor.Run, Ids, EncodePython, Supervisor.CancelledResponse, Supervisor.HandlerEnding, Supervisor.ReplyComesFirst;
    var s := Run(capacity, acts);
    EveryRun(capacity, acts);
    assert Linked(s, id) && Safe(s.bridge, id);
    var k :| 0 <= k < |s.bridge.completions| && s.bridge.completions[k] == Completion(id, r);
    assert id in Ids(s.bridge.completions) by { Among(s.bridge.completions, k); }
    var task := s.tasks[id];
    NotEndedUnsent(task);
    Supervisor.AnswerIs(task);
    Supervisor.RunCourse(task);
    Supervisor.HandlerIsFirstEnding(task);
  }

  lemma Among(cs: seq<Completion>, k: nat)
    requires k < |cs|
    ensures cs[k].id in Ids(cs)
  {
  }
}
