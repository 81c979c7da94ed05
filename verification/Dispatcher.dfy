/** Life cycle of the event dispatcher task: handlers, the native enable flag and the generation
  * number, with every call and every task step on one event loop thread. */
module Dispatcher {
  import opened Prelude

  datatype Status = Scheduled | Waiting | Done

  datatype Task = Task(generation: nat, status: Status, cancelRequested: bool)

  /** `current` is the stored dispatcher task; `tasks` holds every dispatcher ever created. */
  datatype State = State(
    handlers: set<nat>, nextToken: nat, current: Option<nat>, generation: nat, enabled: bool, tasks: seq<Task>)
  {
    ghost predicate WellFormed() { current.Some? ==> current.value < |tasks| }

    predicate HasLiveTask()
      requires current.Some? ==> current.value < |tasks|
    {
      current.Some? && tasks[current.value].status != Done
    }
  }

  const INITIAL: State := State({}, 0, None, 0, false, [])

  // ---------------------------------------------------------------- the operations, as functions

  function Ensure(s: State): State
    requires s.WellFormed()
  {
    if s.HasLiveTask() then s.(enabled := true)
    else s.(generation := s.generation + 1, enabled := true, current := Some(|s.tasks|),
            tasks := s.tasks + [Task(s.generation + 1, Scheduled, false)])
  }

  function OnEvent(s: State): State
    requires s.WellFormed()
  {
    Ensure(s.(handlers := s.handlers + {s.nextToken}, nextToken := s.nextToken + 1))
  }

  function CloseHandlers(s: State): State { s.(handlers := {}, enabled := false) }

  function Remove(s: State, token: nat): State {
    var rest := s.(handlers := s.handlers - {token});
    if rest.handlers != {} then rest else CloseHandlers(rest)
  }

  function Cancel(s: State, i: nat): State
    requires i < |s.tasks|
  {
    s.(tasks := s.tasks[i := s.tasks[i].(cancelRequested := true)])
  }

  function Shutdown(s: State): State
    requires s.WellFormed()
  {
    var closed := CloseHandlers(s).(generation := s.generation + 1, current := None);
    if s.HasLiveTask() then Cancel(closed, s.current.value) else closed
  }

  /** The task ends; `cleanup` says whether its finally clause runs. */
  function Exit(s: State, i: nat, cleanup: bool): State
    requires i < |s.tasks|
  {
    var owns := cleanup && s.generation == s.tasks[i].generation;
    s.(tasks := s.tasks[i := s.tasks[i].(status := Done)], enabled := if owns then false else s.enabled)
  }

  /** Task i is resumed by the loop: first start, arrival of an event, or delivery of a cancellation.
    * A task cancelled before its first step never enters the try block. */
  function Resume(s: State, i: nat): State
    requires i < |s.tasks|
  {
    var t := s.tasks[i];
    if t.status == Done then s
    else if t.cancelRequested then Exit(s, i, t.status == Waiting)
    else if s.handlers == {} then Exit(s, i, true)
    else s.(tasks := s.tasks[i := t.(status := Waiting)])
  }

  /** `Foreign`: something other than the sandbox calls cancel() on a dispatcher task. The error is
    * delivered at that task's next turn, and anything may happen in between. */
  datatype Act = Subscribe | Unsubscribe(token: nat) | CloseAll | Stop | Turn(task: nat) | Foreign(task: nat)

  function Step(s: State, a: Act): State
    requires s.WellFormed()
  {
    match a
    case Subscribe => OnEvent(s)
    case Unsubscribe(token) => Remove(s, token)
    case CloseAll => CloseHandlers(s)
    case Stop => Shutdown(s)
    case Turn(i) => if i < |s.tasks| then Resume(s, i) else s
    case Foreign(i) => if i < |s.tasks| && s.tasks[i].status != Done then Cancel(s, i) else s
  }

  // ---------------------------------------------------------------- the invariant

  ghost predicate Owns(s: State, i: nat) {
    i < |s.tasks| && s.tasks[i].status != Done && s.tasks[i].generation == s.generation
  }

  /** What every run keeps, foreign cancellations included. */
  ghost predicate Base(s: State) {
    && s.WellFormed()
    && (forall i :: 0 <= i < |s.tasks| ==> s.tasks[i].generation <= s.generation)
    && (forall i, j :: 0 <= i < j < |s.tasks| ==> s.tasks[i].generation < s.tasks[j].generation)
    && (s.current.Some? ==> s.tasks[s.current.value].generation == s.generation)
    && (s.current.None? ==> forall i :: 0 <= i < |s.tasks| ==> s.tasks[i].generation < s.generation)
    && (s.handlers != {} && s.HasLiveTask() ==> s.enabled)
  }

  /** What runs without foreign cancellations keep. */
  ghost predicate Inv(s: State) {
    && Base(s)
    && (s.current.Some? ==> !s.tasks[s.current.value].cancelRequested)
    && (s.handlers != {} ==> s.HasLiveTask())
  }

  /** The promise to users: while anyone listens, events flow and exactly one task dispatches them. */
  ghost predicate Listening(s: State) {
    s.handlers != {} ==>
      && s.enabled
      && (exists i: nat :: Owns(s, i))
      && (forall i: nat, j: nat :: Owns(s, i) && Owns(s, j) ==> i == j)
  }

  lemma {:induction false} BaseListensIff(s: State)
    requires Base(s)
    ensures Listening(s) <==> s.handlers == {} || s.HasLiveTask()
  {
    forall i: nat | Owns(s, i) ensures s.current == Some(i) {
      if s.current.Some? { assert s.tasks[s.current.value].generation == s.generation; }
    }
    if s.HasLiveTask() { assert Owns(s, s.current.value); }
  }

  lemma SubscribeKeeps(s: State)
    requires Base(s)
    ensures Base(OnEvent(s)) && (Inv(s) ==> Inv(OnEvent(s)))
  {
  }

  lemma ShutdownKeeps(s: State)
    requires Base(s)
    ensures Base(Shutdown(s)) && (Inv(s) ==> Inv(Shutdown(s)))
  {
  }

  lemma ResumeKeeps(s: State, i: nat)
    requires Base(s) && i < |s.tasks|
    ensures Base(Resume(s, i)) && (Inv(s) ==> Inv(Resume(s, i)))
  {
    var s' := Resume(s, i);
    assert forall k :: 0 <= k < |s.tasks| ==> s'.tasks[k].generation == s.tasks[k].generation;
  }

  lemma CancelKeeps(s: State, i: nat)
    requires Base(s) && i < |s.tasks|
    ensures Base(Cancel(s, i))
  {
    var s' := Cancel(s, i);
    assert forall k :: 0 <= k < |s.tasks| ==> s'.tasks[k].generation == s.tasks[k].generation;
  }

  lemma StepKeeps(s: State, a: Act)
    requires Base(s)
    ensures Base(Step(s, a)) && (Inv(s) && !a.Foreign? ==> Inv(Step(s, a)))
  {
    hide OnEvent, Shutdown, Resume, Cancel;
    match a
    case Subscribe => SubscribeKeeps(s);
    case Stop => ShutdownKeeps(s);
    case Turn(i) => if i < |s.tasks| { ResumeKeeps(s, i); }
    case Foreign(i) => if i < |s.tasks| { CancelKeeps(s, i); }
    case _ =>
  }

  function Run(acts: seq<Act>): (s: State)
    ensures s.WellFormed()
  {
    if acts == [] then INITIAL else
      var s := Run(acts[..|acts| - 1]);
      KeepsWellFormed(s, acts[|acts| - 1]);
      Step(s, acts[|acts| - 1])
  }

  lemma KeepsWellFormed(s: State, a: Act)
    requires s.WellFormed()
    ensures Step(s, a).WellFormed()
  {
  }

  lemma {:induction false} RunKeeps(acts: seq<Act>)
    ensures Base(Run(acts))
    ensures (forall k :: 0 <= k < |acts| ==> !acts[k].Foreign?) ==> Inv(Run(acts))
  {
    if acts != [] {
      hide Base, Inv, Step;
      var n := |acts| - 1;
      RunKeeps(acts[..n]);
      StepKeeps(Run(acts[..n]), acts[n]);
    }
  }

  /** As long as only the sandbox cancels dispatcher tasks, the promise holds in every reachable state. */
  lemma {:induction false} AlwaysListening(acts: seq<Act>)
    requires forall k :: 0 <= k < |acts| ==> !acts[k].Foreign?
    ensures Inv(Run(acts)) && Listening(Run(acts))
  {
    hide Run;
    RunKeeps(acts);
    BaseListensIff(Run(acts));
  }

  /** A task of an older generation never touches the flag, whatever it does next. */
  lemma {:induction false} StaleExitHarmless(acts: seq<Act>, i: nat)
    requires i < |Run(acts).tasks| && Run(acts).tasks[i].generation != Run(acts).generation
    ensures Step(Run(acts), Turn(i)).enabled == Run(acts).enabled
    ensures Step(Run(acts), Turn(i)).handlers == Run(acts).handlers
  {
  }

  /** Every live task but the stored one has been told to stop. */
  ghost predicate StaleAreCancelled(s: State) {
    forall i :: 0 <= i < |s.tasks| && s.tasks[i].status != Done && s.current != Some(i) ==> s.tasks[i].cancelRequested
  }

  lemma {:induction false} StepCancelsStale(s: State, a: Act)
    requires s.WellFormed() && StaleAreCancelled(s)
    ensures StaleAreCancelled(Step(s, a))
  {
  }

  /** In every run a task that is no longer the stored one ends at its next turn. */
  lemma {:induction false} StaleTasksEnd(acts: seq<Act>, i: nat)
    requires i < |Run(acts).tasks| && Run(acts).current != Some(i)
    ensures Step(Run(acts), Turn(i)).tasks[i].status == Done
  {
    StaleCancelled(acts);
  }

  lemma {:induction false} StaleCancelled(acts: seq<Act>)
    ensures StaleAreCancelled(Run(acts))
  {
    if acts != [] {
      hide StaleAreCancelled, Step;
      StaleCancelled(acts[..|acts| - 1]);
      StepCancelsStale(Run(acts[..|acts| - 1]), acts[|acts| - 1]);
    }
  }

  // ---------------------------------------------------------------- who is registered

  /** Subscriptions so far; the next one gets this number as its token. */
  function Subscriptions(acts: seq<Act>): nat {
    if acts == [] then 0 else Subscriptions(acts[..|acts| - 1]) + if acts[|acts| - 1] == Subscribe then 1 else 0
  }

  /** Step k takes the handler with this token away. */
  predicate TakesAway(a: Act, token: nat) { a == Unsubscribe(token) || a == CloseAll || a == Stop }

  /** The token was given out at step k and its handler not taken away since. */
  ghost predicate RegisteredAt(acts: seq<Act>, k: nat, token: nat) {
    && k < |acts| && acts[k] == Subscribe && Subscriptions(acts[..k]) == token
    && forall j :: k < j < |acts| ==> !TakesAway(acts[j], token)
  }

  lemma {:induction false} RegisteredSnoc(acts: seq<Act>, init: seq<Act>, token: nat)
    requires acts != [] && init == acts[..|acts| - 1]
    ensures var a := acts[|acts| - 1];
            (exists k: nat :: RegisteredAt(acts, k, token))
            <==> (a == Subscribe && Subscriptions(init) == token)
                 || ((exists k: nat :: RegisteredAt(init, k, token)) && !TakesAway(a, token))
  {
    hide Subscriptions;
    var n := |acts| - 1;
    if a: nat :| RegisteredAt(init, a, token) && !TakesAway(acts[n], token) {
      assert init[..a] == acts[..a] && init[a] == acts[a];
      forall j | a < j < |acts| ensures !TakesAway(acts[j], token) { if j < n { assert acts[j] == init[j]; } }
      assert RegisteredAt(acts, a, token);
    }
    if acts[n] == Subscribe && Subscriptions(init) == token { assert RegisteredAt(acts, n, token); }
    if k: nat :| RegisteredAt(acts, k, token) {
      if k < n {
        assert init[..k] == acts[..k] && init[k] == acts[k];
        forall j | k < j < n ensures !TakesAway(init[j], token) { assert acts[j] == init[j]; }
        assert RegisteredAt(init, k, token) && !TakesAway(acts[n], token);
      }
    }
  }

  /** In every run the handlers are exactly those registered and neither removed nor closed since, and
    * every subscription gets a token that was never given out before. */
  lemma {:induction false} HandlersAre(acts: seq<Act>, token: nat)
    ensures token in Run(acts).handlers <==> exists k: nat :: RegisteredAt(acts, k, token)
    ensures Run(acts).nextToken == Subscriptions(acts)
    ensures token in Run(acts).handlers ==> token < Run(acts).nextToken
  {
    if acts != [] {
      hide RegisteredAt;
      var n := |acts| - 1;
      HandlersAre(acts[..n], token);
      RegisteredSnoc(acts, acts[..n], token);
      StepHandlers(Run(acts[..n]), acts[n], token);
      hide Step;
    }
  }

  lemma {:induction false} StepHandlers(s: State, a: Act, token: nat)
    requires s.WellFormed()
    ensures token in Step(s, a).handlers
       <==> (a == Subscribe && s.nextToken == token) || (token in s.handlers && !TakesAway(a, token))
    ensures Step(s, a).nextToken == s.nextToken + if a == Subscribe then 1 else 0
  {
  }

  /** A turn ends a live task iff its cancellation is due or nobody listens any more. */
  lemma {:induction false} TurnEndsIff(s: State, i: nat)
    requires i < |s.tasks| && s.tasks[i].status != Done
    ensures Resume(s, i).tasks[i].status == Done <==> s.tasks[i].cancelRequested || s.handlers == {}
    ensures Resume(s, i).enabled != s.enabled ==>
              Resume(s, i).tasks[i].status == Done && s.tasks[i].generation == s.generation && !Resume(s, i).enabled
    ensures (Resume(s, i).tasks[i].status == Done && s.tasks[i].status == Waiting && s.tasks[i].generation == s.generation) ==>
              !Resume(s, i).enabled
  {
  }

  // ---------------------------------------------------------------- foreign cancellations

  /** In every run, whoever cancels what and when: the promise holds iff nobody listens or the stored
    * task is alive. */
  lemma {:induction false} ListeningIff(acts: seq<Act>)
    ensures Listening(Run(acts)) <==> Run(acts).handlers == {} || Run(acts).HasLiveTask()
  {
    hide Run;
    RunKeeps(acts);
    BaseListensIff(Run(acts));
  }

  /** The step delivers a foreign cancellation to the stored task while someone listens. */
  predicate KillsDispatcher(s: State, a: Act) {
    && a.Turn? && a.task < |s.tasks| && s.handlers != {}
    && s.current == Some(a.task) && s.tasks[a.task].cancelRequested
  }

  /** The step brings a subscriber, or takes away the last one. */
  predicate EndsSilence(s: State, a: Act) {
    a == Subscribe || a == CloseAll || a == Stop || (a.Unsubscribe? && s.handlers <= {a.token})
  }

  /** In every run: a step breaks the promise iff it delivers a cancellation to the stored task while
    * someone listens, and mends it iff someone subscribes or the last subscriber goes. */
  lemma {:induction false} ListeningChangesIff(acts: seq<Act>, a: Act)
    ensures var s := Run(acts);
            && (Listening(s) ==> (!Listening(Step(s, a)) <==> KillsDispatcher(s, a)))
            && (!Listening(s) ==> (Listening(Step(s, a)) <==> EndsSilence(s, a)))
  {
    hide Run, Listening;
    var s := Run(acts);
    RunKeeps(acts);
    StepKeeps(s, a);
    BaseListensIff(s);
    BaseListensIff(Step(s, a));
    hide Base, Inv;
  }

  /** From any state at all, the next subscription brings events back. */
  lemma SubscribeRecovers(s: State)
    requires s.WellFormed()
    ensures var s' := OnEvent(s); s'.enabled && s'.WellFormed() && s'.HasLiveTask() && s.nextToken in s'.handlers
  {
  }

  // ---------------------------------------------------------------- the object

  class Sandbox {
    var handlers: set<nat>
    var nextToken: nat
    var current: Option<nat>
    var generation: nat
    var enabled: bool
    var tasks: seq<Task>

    ghost function Model(): State
      reads this
    {
      State(handlers, nextToken, current, generation, enabled, tasks)
    }

    constructor ()
      ensures Model() == INITIAL
    {
      handlers, nextToken, current, generation, enabled, tasks := {}, 0, None, 0, false, [];
    }

    method EnsureDispatcher()
      requires Model().WellFormed()
      modifies this
      ensures Model() == Ensure(old(Model()))
    {
      if current.Some? && tasks[current.value].status != Done {
        enabled := true;
        return;
      }
      generation := generation + 1;
      enabled := true;
      current := Some(|tasks|);
      tasks := tasks + [Task(generation, Scheduled, false)];
    }

    method RegisterHandler() returns (token: nat)
      requires Base(Model())
      modifies this
      ensures Model() == OnEvent(old(Model())) && token == old(nextToken)
      ensures Base(Model()) && (old(Inv(Model())) ==> Inv(Model()))
    {
      StepKeeps(Model(), Subscribe);
      token := nextToken;
      nextToken := nextToken + 1;
      handlers := handlers + {token};
      EnsureDispatcher();
    }

    method CloseEventHandlers()
      requires Base(Model())
      modifies this
      ensures Model() == CloseHandlers(old(Model()))
      ensures Base(Model()) && (old(Inv(Model())) ==> Inv(Model()))
    {
      StepKeeps(Model(), CloseAll);
      handlers := {};
      enabled := false;
    }

    method RemoveSubscription(token: nat)
      requires Base(Model())
      modifies this
      ensures Model() == Remove(old(Model()), token)
      ensures Base(Model()) && (old(Inv(Model())) ==> Inv(Model()))
    {
      StepKeeps(Model(), Unsubscribe(token));
      handlers := handlers - {token};
      if handlers != {} { return; }
      handlers, enabled := {}, false;
    }

    method ShutdownHandlers()
      requires Base(Model())
      modifies this
      ensures Model() == Shutdown(old(Model()))
      ensures Base(Model()) && (old(Inv(Model())) ==> Inv(Model()))
    {
      StepKeeps(Model(), Stop);
      handlers, enabled := {}, false;
      generation := generation + 1;
      var task := current;
      current := None;
      if task.None? || tasks[task.value].status == Done { return; }
      tasks := tasks[task.value := tasks[task.value].(cancelRequested := true)];
    }

    /** One turn of dispatcher task i, up to its next await or its end. */
    method DispatchTurn(i: nat)
      requires Base(Model()) && i < |tasks|
      modifies this
      ensures Model() == Resume(old(Model()), i)
      ensures Base(Model()) && (old(Inv(Model())) ==> Inv(Model()))
    {
      StepKeeps(Model(), Turn(i));
      var t := tasks[i];
      if t.status == Done { return; }
      if !t.cancelRequested && handlers != {} {
        tasks := tasks[i := t.(status := Waiting)];
        return;
      }
      tasks := tasks[i := t.(status := Done)];
      if (t.status == Waiting || !t.cancelRequested) && generation == t.generation {
        enabled := false;
      }
    }
  }
}
