/** The Python supervisor of one virtual executable request: a race between the handler task, the
  * native cancellation future and cancellations of the supervisor itself. */
module Supervisor {
  import opened Prelude
  import opened Wire
  import opened Response

  /** `cancelRequested`: cancel() was called and CancelledError is on its way into the handler. */
  datatype Handler = Running(cancelRequested: bool) | Finished(response: seq<byte>) | Raised | Cancelled

  datatype Native = Pending | Stopping | Fired | Stopped

  datatype Ending = Normal | Reraised | Escaped

  /** The await at which the supervisor is suspended. */
  datatype Pc =
    | FirstWait
    | AwaitHandler                       // native cancellation came first
    | AwaitNative(response: seq<byte>)   // the handler came first
    | CleanupHandler                     // except clause
    | CleanupNative
    | Ended(how: Ending)

  /** `mustCancel`: CancelledError will be thrown at the next resumption. `sent`: the arguments of
    * all completion attempts. */
  datatype State = State(pc: Pc, handler: Handler, native: Native, mustCancel: bool, sent: seq<seq<byte>>)

  const INITIAL: State := State(FirstWait, Running(false), Pending, false, [])

  const CANCELLED_TEXT: seq<byte> := [
    0x76, 0x69, 0x72, 0x74, 0x75, 0x61, 0x6C, 0x20, 0x65, 0x78, 0x65, 0x63, 0x75, 0x74, 0x61, 0x62,
    0x6C, 0x65, 0x20, 0x72, 0x65, 0x71, 0x75, 0x65, 0x73, 0x74, 0x20, 0x63, 0x61, 0x6E, 0x63, 0x65,
    0x6C, 0x6C, 0x65, 0x64, 0x0A]

  /** Encoding of the fixed reply: code 126 and the text above. */
  function CancelledResponse(): seq<byte> { EncodeRust(Reply(126, [], CANCELLED_TEXT)) }

  predicate HandlerDone(s: State) { !s.handler.Running? }

  predicate NativeDone(s: State) { s.native.Fired? || s.native.Stopped? }

  function CancelHandler(s: State): State {
    if s.handler.Running? then s.(handler := Running(true)) else s
  }

  function CancelNative(s: State): State {
    if s.native.Pending? then s.(native := Stopping) else s
  }

  function Complete(s: State, response: seq<byte>, how: Ending): State {
    s.(sent := s.sent + [response], pc := Ended(how))
  }

  // ---------------------------------------------------------------- the coroutine between awaits

  /** `await _await_cancelled_handler`: does not suspend on a finished task and swallows everything. */
  function AfterNativeCancel(s: State): State {
    if HandlerDone(s) then Complete(s, CancelledResponse(), Normal) else s.(pc := AwaitHandler)
  }

  function FinishCleanup(s: State): State {
    if NativeDone(s) then Complete(s, CancelledResponse(), Reraised) else s.(pc := CleanupNative)
  }

  /** The except clause for CancelledError. */
  function EnterCleanup(s: State): State {
    var c := CancelNative(CancelHandler(s));
    if HandlerDone(c) then FinishCleanup(c) else c.(pc := CleanupHandler)
  }

  /** The branch in which the handler task was the one that finished. */
  function HandlerFirst(s: State): State {
    match s.handler
    case Finished(r) =>
      var c := CancelNative(s);
      if NativeDone(c) then Complete(c, r, Normal) else c.(pc := AwaitNative(r))
    case Cancelled => EnterCleanup(s)
    case Raised => s.(pc := Ended(Escaped))
    case Running(_) => s
  }

  /** The loop resumes the supervisor, if what it awaits is done or a cancellation is due. */
  function Turn(s: State): State {
    var c := s.(mustCancel := false);
    match s.pc
    case FirstWait =>
      if s.mustCancel then EnterCleanup(c)
      else if NativeDone(s) then AfterNativeCancel(CancelHandler(c))
      else HandlerFirst(c)
    case AwaitHandler =>
      if s.mustCancel || HandlerDone(s) then Complete(c, CancelledResponse(), Normal) else s
    case AwaitNative(r) => if s.mustCancel || NativeDone(s) then Complete(c, r, Normal) else s
    case CleanupHandler => if s.mustCancel || HandlerDone(s) then FinishCleanup(c) else s
    case CleanupNative => if s.mustCancel || NativeDone(s) then Complete(c, CancelledResponse(), Reraised) else s
    case Ended(_) => s
  }

  /** Task.cancel on the supervisor: passed on to an unfinished awaited future, else delivered later. */
  function CancelSupervisor(s: State): State {
    match s.pc
    case Ended(_) => s
    case FirstWait => s.(mustCancel := true)
    case AwaitHandler | CleanupHandler => if HandlerDone(s) then s.(mustCancel := true) else CancelHandler(s)
    case AwaitNative(_) | CleanupNative => if NativeDone(s) then s.(mustCancel := true) else CancelNative(s)
  }

  /** How the handler task can end: with a reply that is then encoded, or by CancelledError. */
  datatype Act = Resume | Cancel | HandlerReturns(reply: Reply) | HandlerCancelled | NativeFires | NativeStops

  function Encoded(reply: Reply): Handler {
    match EncodePython(reply)
    case Bytes(data) => Finished(data)
    case StructError => Raised
  }

  function Step(s: State, a: Act): State {
    match a
    case Resume => Turn(s)
    case Cancel => CancelSupervisor(s)
    case HandlerReturns(reply) => if s.handler.Running? then s.(handler := Encoded(reply)) else s
    case HandlerCancelled => if s.handler.Running? then s.(handler := Cancelled) else s
    case NativeFires => if s.native.Pending? then s.(native := Fired) else s
    case NativeStops => if s.native.Stopping? then s.(native := Stopped) else s
  }

  function Run(acts: seq<Act>): State {
    if acts == [] then INITIAL else Step(Run(acts[..|acts| - 1]), acts[|acts| - 1])
  }

  // ---------------------------------------------------------------- exactly one completion attempt

  ghost predicate Inv(s: State) {
    && (!s.pc.Ended? ==> s.sent == [])
    && (s.pc.Ended? && s.pc.how != Escaped ==> |s.sent| == 1)
    && (s.pc == Ended(Escaped) ==> s.sent == [] && s.handler == Raised)
    && (s.pc.AwaitNative? ==> s.handler == Finished(s.pc.response))
    && (s.pc.CleanupHandler? || s.pc.CleanupNative? || s.pc.AwaitNative? ==> s.native != Pending)
    && (s.sent != [] ==> s.sent[0] == CancelledResponse() || s.handler == Finished(s.sent[0]))
    && ((s.pc.AwaitHandler? || s.pc.CleanupHandler?) && s.handler.Running? ==> s.handler.cancelRequested)
  }

  lemma {:induction false} StepInv(s: State, a: Act)
    requires Inv(s)
    ensures Inv(Step(s, a))
  {
    hide CancelledResponse, EncodePython;
  }

  lemma {:induction false} RunInv(acts: seq<Act>)
    ensures Inv(Run(acts))
  {
    hide Step, Inv;
    if acts != [] {
      RunInv(acts[..|acts| - 1]);
      StepInv(Run(acts[..|acts| - 1]), acts[|acts| - 1]);
    } else {
      InitialInv();
    }
  }

  lemma InitialInv()
    ensures Inv(INITIAL)
  {
    hide CancelledResponse;
  }

  lemma {:induction false} NeverRaised(acts: seq<Act>)
    requires forall i :: 0 <= i < |acts| && acts[i].HandlerReturns? ==> Packs(acts[i].reply)
    ensures Run(acts).handler != Raised
  {
    if acts != [] { NeverRaised(acts[..|acts| - 1]); }
  }

  /** In any order of events: never two attempts, and when the supervisor has ended there was exactly
    * one, unless the handler's reply could not be encoded and that error escaped. */
  lemma {:induction false} AtMostOneAttempt(acts: seq<Act>)
    ensures |Run(acts).sent| <= 1
    ensures Run(acts).pc.Ended? ==> (|Run(acts).sent| == 1 <==> Run(acts).pc.how != Escaped)
    ensures Run(acts).pc == Ended(Escaped) ==> Run(acts).handler == Raised
  {
    hide Run, CancelledResponse;
    RunInv(acts);
  }

  lemma {:induction false} ExactlyOneAttempt(acts: seq<Act>)
    requires forall i :: 0 <= i < |acts| && acts[i].HandlerReturns? ==> Packs(acts[i].reply)
    ensures Run(acts).pc.Ended? ==> |Run(acts).sent| == 1
  {
    hide Run, Packs;
    AtMostOneAttempt(acts);
    NeverRaised(acts);
  }

  /** The first act that ends the handler task; later ones are void. */
  function HandlerEnding(acts: seq<Act>): Option<Act> {
    if acts == [] then None
    else if acts[0].HandlerReturns? || acts[0].HandlerCancelled? then Some(acts[0])
    else HandlerEnding(acts[1..])
  }

  lemma {:induction false} HandlerEndingSnoc(acts: seq<Act>, a: Act)
    ensures HandlerEnding(acts + [a])
         == if HandlerEnding(acts).Some? then HandlerEnding(acts)
            else if a.HandlerReturns? || a.HandlerCancelled? then Some(a) else None
  {
    if acts == [] {
      assert ([] + [a])[1..] == [];
    } else {
      assert (acts + [a])[1..] == acts[1..] + [a];
      HandlerEndingSnoc(acts[1..], a);
    }
  }

  /** The handler gave a reply that does not fit the response header. */
  ghost predicate GaveUnpackable(acts: seq<Act>) {
    var ending := HandlerEnding(acts);
    ending.Some? && ending.value.HandlerReturns? && !Packs(ending.value.reply)
  }

  ghost predicate EndedBy(h: Handler, ending: Option<Act>) {
    match ending
    case None => h.Running?
    case Some(a) => if a.HandlerReturns? then h == Encoded(a.reply) else h == Cancelled
  }

  /** The handler ends as the first act that ends it says, whatever the supervisor does. */
  lemma {:induction false} HandlerIsFirstEnding(acts: seq<Act>)
    ensures EndedBy(Run(acts).handler, HandlerEnding(acts))
    ensures Run(acts).handler == Raised <==> GaveUnpackable(acts)
  {
    hide CancelledResponse;
    if acts != [] {
      var n := |acts| - 1;
      HandlerIsFirstEnding(acts[..n]);
      HandlerEndingSnoc(acts[..n], acts[n]);
      assert acts[..n] + [acts[n]] == acts;
    }
  }

  /** Neither kind of cancellation has happened. */
  ghost predicate Quiet(acts: seq<Act>) { Cancel !in acts && NativeFires !in acts }

  /** At the first wait a cancellation of either kind is still there to be seen. */
  lemma {:induction false} FirstWaitIs(acts: seq<Act>)
    ensures var s := Run(acts);
            s.pc == FirstWait ==>
              (s.mustCancel <==> Cancel in acts) && (NativeDone(s) <==> NativeFires in acts) && !s.native.Stopping?
  {
    hide CancelledResponse, Encoded;
    if acts != [] {
      FirstWaitIs(acts[..|acts| - 1]);
      assert acts == acts[..|acts| - 1] + [acts[|acts| - 1]];
    }
  }

  lemma {:induction false} QuietSnoc(acts: seq<Act>)
    requires acts != []
    ensures var n := |acts| - 1; Quiet(acts) <==> Quiet(acts[..n]) && acts[n] != Cancel && acts[n] != NativeFires
  {
    assert acts == acts[..|acts| - 1] + [acts[|acts| - 1]];
  }

  /** One step loses the answer iff it resumes the supervisor from its first wait when neither kind of
    * cancellation has happened and the handler's reply cannot be encoded. */
  lemma {:induction false} EscapesIff(acts: seq<Act>, a: Act)
    requires !Run(acts).pc.Ended?
    ensures Run(acts + [a]).pc == Ended(Escaped)
       <==> a == Resume && Run(acts).pc == FirstWait && Quiet(acts) && GaveUnpackable(acts)
  {
    hide CancelledResponse, GaveUnpackable;
    assert (acts + [a])[..|acts|] == acts;
    HandlerIsFirstEnding(acts);
    FirstWaitIs(acts);
  }

  /** Step k resumes the supervisor after the handler gave a reply and before any cancellation. */
  ghost predicate ResumedOnReply(acts: seq<Act>, k: nat)
    requires k < |acts|
  {
    var ending := HandlerEnding(acts[..k]);
    acts[k] == Resume && Quiet(acts[..k]) && ending.Some? && ending.value.HandlerReturns?
  }

  ghost predicate ReplyComesFirst(acts: seq<Act>) { exists k :: 0 <= k < |acts| && ResumedOnReply(acts, k) }

  lemma {:induction false} ReplyComesFirstSnoc(acts: seq<Act>)
    requires acts != []
    ensures var n := |acts| - 1;
            ReplyComesFirst(acts) <==> ReplyComesFirst(acts[..n]) || ResumedOnReply(acts, n)
  {
    hide Quiet, HandlerEnding;
    var n := |acts| - 1;
    var init := acts[..n];
    forall k | 0 <= k < n ensures ResumedOnReply(acts, k) <==> ResumedOnReply(init, k) {
      assert init[..k] == acts[..k];
    }
    if ReplyComesFirst(init) {
      var k :| 0 <= k < n && ResumedOnReply(init, k);
      assert ResumedOnReply(acts, k);
    }
  }

  /** Where a run stands once the reply came first, and where it can stand if not. */
  ghost predicate Course(s: State, first: bool) {
    match s.handler
    case Finished(data) =>
      if first then (s.pc == AwaitNative(data) && s.sent == []) || (s.pc.Ended? && s.sent == [data])
      else OnCancelCourse(s)
    case Raised => if first then s.pc == Ended(Escaped) && s.sent == [] else OnCancelCourse(s)
    case _ => !first && OnCancelCourse(s)
  }

  /** No reply is on its way out, and none but the cancellation reply has gone. */
  ghost predicate OnCancelCourse(s: State) {
    !s.pc.AwaitNative? && s.sent == if s.pc.Ended? then [CancelledResponse()] else []
  }

  /** At the first wait, unless the course is set already. */
  ghost predicate AtStart(acts: seq<Act>) {
    Quiet(acts) && !ReplyComesFirst(acts) && Run(acts).handler != Cancelled ==> Run(acts).pc == FirstWait
  }

  /** The act is a resumption that finds a reply, encoded or not. */
  predicate MeetsReply(s: State, a: Act) { a == Resume && (s.handler.Finished? || s.handler.Raised?) }

  /** What a step may assume about the run so far. */
  ghost predicate OnCourse(s: State, quiet: bool, first: bool) {
    && Course(s, first)
    && (s.pc == FirstWait ==> (quiet <==> !s.mustCancel && !NativeDone(s)) && !s.native.Stopping?)
    && (quiet && !first && s.handler != Cancelled ==> s.pc == FirstWait)
  }

  lemma {:induction false} CourseTurn(s: State, quiet: bool, first: bool)
    requires OnCourse(s, quiet, first)
    ensures Course(Turn(s), first || (quiet && MeetsReply(s, Resume)))
    ensures quiet && !first && !MeetsReply(s, Resume) && Turn(s).handler != Cancelled ==> Turn(s).pc == FirstWait
  {
    hide CancelledResponse;
  }

  lemma {:induction false} CourseStep(s: State, a: Act, quiet: bool, first: bool)
    requires OnCourse(s, quiet, first)
    ensures Course(Step(s, a), first || (quiet && MeetsReply(s, a)))
    ensures quiet && a != Cancel && a != NativeFires && !first && !MeetsReply(s, a) && Step(s, a).handler != Cancelled
            ==> Step(s, a).pc == FirstWait
  {
    hide CancelledResponse, EncodePython, Turn;
    if a == Resume { CourseTurn(s, quiet, first); }
  }

  lemma {:induction false} QuietAtFirstWait(acts: seq<Act>)
    ensures var s := Run(acts);
            s.pc == FirstWait ==> (Quiet(acts) <==> !s.mustCancel && !NativeDone(s)) && !s.native.Stopping?
  {
    hide Run;
    FirstWaitIs(acts);
  }

  lemma {:induction false} RunCourse(acts: seq<Act>)
    ensures Course(Run(acts), ReplyComesFirst(acts)) && AtStart(acts)
  {
    hide CancelledResponse, Step, Course, Quiet, ReplyComesFirst, NativeDone;
    if acts == [] {
      InitialCourse();
    } else {
      var n := |acts| - 1;
      var init := acts[..n];
      RunCourse(init);
      QuietAtFirstWait(init);
      ReplyComesFirstSnoc(acts);
      HandlerIsFirstEnding(init);
      QuietSnoc(acts);
      CourseStep(Run(init), acts[n], Quiet(init), ReplyComesFirst(init));
    }
  }

  lemma InitialCourse()
    ensures Course(Run([]), ReplyComesFirst([])) && AtStart([])
  {
    hide CancelledResponse;
  }

  /** What a supervisor that has ended sent, in every run, read off the order of events alone: the
    * handler's encoded reply, or nothing if it cannot be encoded, when the loop resumed the supervisor
    * on that reply before any cancellation; the cancellation reply in all other cases. */
  lemma {:induction false} AnswerIs(acts: seq<Act>)
    requires Run(acts).pc.Ended?
    ensures !ReplyComesFirst(acts) ==> Run(acts).sent == [CancelledResponse()]
    ensures ReplyComesFirst(acts) ==>
              var ending := HandlerEnding(acts);
              && ending.Some? && ending.value.HandlerReturns?
              && Run(acts).sent == match EncodePython(ending.value.reply) case Bytes(data) => [data] case StructError => []
  {
    hide Run, CancelledResponse, ReplyComesFirst, EncodePython;
    RunCourse(acts);
    HandlerIsFirstEnding(acts);
  }

  lemma {:induction false} CancelledTextIs()
    ensures var text := "virtual executable request cancelled\n";
            |CANCELLED_TEXT| == |text| && forall i :: 0 <= i < |text| ==> CANCELLED_TEXT[i] as int == text[i] as int
  {
  }

  // ---------------------------------------------------------------- how it ends

  /** There is something for the supervisor to be resumed on. */
  ghost predicate Stirred(acts: seq<Act>) {
    Cancel in acts || NativeFires in acts || HandlerEnding(acts).Some?
  }

  /** Step k is the first resumption that finds something. */
  ghost predicate Decides(acts: seq<Act>, k: nat) {
    && k < |acts| && acts[k] == Resume && Stirred(acts[..k])
    && forall j :: 0 <= j < k && acts[j] == Resume ==> !Stirred(acts[..j])
  }

  /** How the supervisor is to end when it is resumed after these events: its own cancellation first,
    * then the native one, then the handler. */
  ghost function EndingAfter(acts: seq<Act>): Ending
    requires Stirred(acts)
  {
    if Cancel in acts then Reraised
    else if NativeFires in acts then Normal
    else if !HandlerEnding(acts).value.HandlerReturns? then Reraised
    else if GaveUnpackable(acts) then Escaped
    else Normal
  }

  ghost predicate Lane(pc: Pc, how: Ending) {
    || pc == Ended(how)
    || (how == Reraised && (pc.CleanupHandler? || pc.CleanupNative?))
    || (how == Normal && (pc.AwaitHandler? || pc.AwaitNative?))
  }

  lemma {:induction false} LaneKept(s: State, a: Act, how: Ending)
    requires Lane(s.pc, how)
    ensures Lane(Step(s, a).pc, how)
  {
    hide CancelledResponse, Encoded;
  }

  /** Until something is found the supervisor stays at its first wait. */
  lemma {:induction false} NotStirred(acts: seq<Act>)
    requires forall j :: 0 <= j < |acts| && acts[j] == Resume ==> !Stirred(acts[..j])
    ensures Run(acts).pc == FirstWait
  {
    if acts != [] {
      hide Stirred, CancelledResponse, Encoded;
      var n := |acts| - 1;
      var init := acts[..n];
      forall j | 0 <= j < n && init[j] == Resume ensures !Stirred(init[..j]) { assert init[..j] == acts[..j]; }
      NotStirred(init);
      UnstirredState(init);
    }
  }

  lemma {:induction false} UnstirredState(acts: seq<Act>)
    ensures Run(acts).pc == FirstWait && !Stirred(acts) ==>
              !Run(acts).mustCancel && !NativeDone(Run(acts)) && Run(acts).handler.Running?
  {
    hide Run;
    FirstWaitIs(acts);
    HandlerIsFirstEnding(acts);
  }

  lemma {:induction false} TurnsIntoLane(acts: seq<Act>)
    requires Run(acts).pc == FirstWait && Stirred(acts)
    ensures Lane(Turn(Run(acts)).pc, EndingAfter(acts))
  {
    hide Run, CancelledResponse, HandlerEnding;
    FirstWaitIs(acts);
    HandlerIsFirstEnding(acts);
  }

  /** In every run the first resumption that finds something decides how the supervisor ends. */
  lemma {:induction false} EndingIs(acts: seq<Act>, k: nat)
    requires Decides(acts, k)
    ensures Lane(Run(acts).pc, EndingAfter(acts[..k]))
    decreases |acts|
  {
    hide Stirred, EndingAfter, Lane, Step;
    var n := |acts| - 1;
    if k == n {
      forall j | 0 <= j < n && acts[..n][j] == Resume ensures !Stirred(acts[..n][..j]) {
        assert acts[..n][..j] == acts[..j];
      }
      NotStirred(acts[..n]);
      TurnsIntoLane(acts[..n]);
      ResumeIsTurn(Run(acts[..n]));
    } else {
      assert acts[..n][..k] == acts[..k];
      forall j | 0 <= j < k && acts[..n][j] == Resume ensures !Stirred(acts[..n][..j]) {
        assert acts[..n][..j] == acts[..j];
      }
      EndingIs(acts[..n], k);
      LaneKept(Run(acts[..n]), acts[n], EndingAfter(acts[..k]));
    }
  }

  lemma ResumeIsTurn(s: State)
    ensures Step(s, Resume) == Turn(s)
  {
  }

  /** The fixed reply says 126, has nothing on standard output and the text on standard error. */
  lemma {:induction false} CancelledReplyIs()
    ensures Decode(CancelledResponse()) == Got(Reply(126, [], CANCELLED_TEXT), |CancelledResponse()|)
  {
    hide Decode, EncodeRust;
    DecodeInvertsIff(Reply(126, [], CANCELLED_TEXT), []);
    assert CancelledResponse() + [] == CancelledResponse();
  }

  /** A supervisor that waits for its handler to stop has asked it to. */
  lemma {:induction false} HandlerAskedToStop(acts: seq<Act>)
    ensures var s := Run(acts);
            (s.pc.AwaitHandler? || s.pc.CleanupHandler?) && s.handler.Running? ==> s.handler.cancelRequested
  {
    hide Run, CancelledResponse;
    RunInv(acts);
  }

  /** From every reachable state the supervisor ends once the handler gives in to its cancellation and
    * the native future to its own, with the loop resuming it after each. */
  lemma {:induction false} CanAlwaysEnd(acts: seq<Act>)
    ensures Step(Step(Step(Step(Run(acts), HandlerCancelled), Resume), NativeStops), Resume).pc.Ended?
  {
    hide Run, CancelledResponse;
    RunInv(acts);
    FirstWaitIs(acts);
    var s1 := Step(Run(acts), HandlerCancelled);
    var s2 := Step(s1, Resume);
    assert s1.pc == Run(acts).pc && HandlerDone(s1);
    assert s2.pc.Ended? || s2.pc.AwaitNative? || s2.pc.CleanupNative?;
    assert !s2.pc.Ended? ==> s2.native != Pending;
  }

  /** Nothing is left hanging: once handler and native future are done, one resumption ends it. */
  lemma {:induction false} EndsWhenSettled(acts: seq<Act>)
    ensures HandlerDone(Run(acts)) && NativeDone(Run(acts)) ==> Turn(Run(acts)).pc.Ended?
  {
    hide Run, CancelledResponse;
    RunInv(acts);
  }
}
