/** The event bus under concurrency: any number of threads interleave the atomic operations of
  * emit and set_enabled on the shared flag, counters and channel. */
module EventBusSteps {
  import opened Prelude
  import opened EventBus

  /** Where a thread stands between two atomic operations, with what it holds in local variables. */
  datatype Pc =
    | Idle
    | Entered(change: Change)                              // saw enabled == true
    | Swapped(change: Change, count: nat)                  // took a non-zero drop count
    | NoticeReady(change: Change, count: nat, number: nat) // numbered the notice, about to send it
    | Restoring(amount: nat)                               // notice refused, about to give the count back
    | Fetching(change: Change)                             // about to number the event
    | EventReady(change: Change, number: nat)              // about to send the event
    | Losing                                               // event refused, about to count it
    | Disabling                                            // stored enabled == false, about to clear the count

  /** `log`: all accepted events; `passed`: emits that passed the enabled check; `discarded`: counts
    * cleared by disabling. These three are history, not program state. */
  datatype Sys = Sys(bus: Bus, threads: seq<Pc>, log: seq<FileEvent>, passed: nat, discarded: nat)

  datatype Act = Begin(thread: nat, change: Change) | Advance(thread: nat) | Enable(thread: nat, on: bool) | Recv | Close

  function Start(capacity: nat, threads: nat): Sys {
    Sys(Bus(false, 0, 0, [], capacity, true), seq(threads, _ => Idle), [], 0, 0)
  }

  function At(s: Sys, i: nat, pc: Pc): Sys
    requires i < |s.threads|
  {
    s.(threads := s.threads[i := pc])
  }

  function Send(s: Sys, e: FileEvent): Sys {
    s.(bus := s.bus.(queue := s.bus.queue + [e]), log := s.log + [e])
  }

  function AddDropped(s: Sys, n: nat): Sys { s.(bus := s.bus.(dropped := s.bus.dropped + n)) }

  function NextNumber(s: Sys): Sys { s.(bus := s.bus.(sequence := s.bus.sequence + 1)) }

  /** One atomic operation of thread i. */
  function Move(s: Sys, i: nat): (s': Sys)
    requires i < |s.threads|
    ensures |s'.threads| == |s.threads| && s'.threads == s.threads[i := s'.threads[i]]
    ensures s'.log == s.log || exists e :: s'.log == s.log + [e]
  {
    match s.threads[i]
    case Idle => s
    case Entered(c) =>
      var d := s.bus.dropped;
      At(s.(bus := s.bus.(dropped := 0)), i, if d > 0 then Swapped(c, d) else Fetching(c))
    case Swapped(c, d) => At(NextNumber(s), i, NoticeReady(c, d, s.bus.sequence + 1))
    case NoticeReady(c, d, n) =>
      if s.bus.Room() then At(Send(s, FileEvent(n, DROP_NOTICE, d)), i, Fetching(c)) else At(s, i, Restoring(d + 1))
    case Restoring(n) => At(AddDropped(s, n), i, Idle)
    case Fetching(c) => At(NextNumber(s), i, EventReady(c, s.bus.sequence + 1))
    case EventReady(c, n) =>
      if s.bus.Room() then At(Send(s, FileEvent(n, c, 0)), i, Idle) else At(s, i, Losing)
    case Losing => At(AddDropped(s, 1), i, Idle)
    case Disabling =>
      At(s.(bus := s.bus.(dropped := 0), discarded := s.discarded + s.bus.dropped), i, Idle)
  }

  /** One step of the system; an action that does not apply changes nothing. */
  function Step(s: Sys, a: Act): Sys {
    match a
    case Begin(i, c) =>
      if i < |s.threads| && s.threads[i] == Idle && s.bus.enabled then At(s, i, Entered(c)).(passed := s.passed + 1) else s
    case Advance(i) => if i < |s.threads| then Move(s, i) else s
    case Enable(i, on) =>
      if i < |s.threads| && s.threads[i] == Idle
      then At(s.(bus := s.bus.(enabled := on)), i, if on then Idle else Disabling) else s
    case Recv => s.(bus := Receive(s.bus))
    case Close => s.(bus := s.bus.(open := false, queue := []))
  }

  function Run(s: Sys, acts: seq<Act>): Sys {
    if acts == [] then s else Step(Run(s, acts[..|acts| - 1]), acts[|acts| - 1])
  }

  // ---------------------------------------------------------------- accounting

  /** Emits that a thread still has to account for. */
  function Held(pc: Pc): nat {
    match pc
    case Idle | Disabling => 0
    case Swapped(_, d) => d + 1
    case NoticeReady(_, d, _) => d + 1
    case Restoring(n) => n
    case _ => 1
  }

  /** Losses and unsent numbers that a thread still has to account for. */
  function Numbers(pc: Pc): nat {
    match pc
    case Swapped(_, d) => d
    case NoticeReady(_, d, _) => d + 1
    case Restoring(n) => n
    case EventReady(_, _) => 1
    case Losing => 1
    case _ => 0
  }

  /** 1 for an ordinary event, 0 for a notice. */
  function IsOrdinary(e: FileEvent): nat { if e.droppedCount == 0 then 1 else 0 }

  /** Every emit that passed the check is received, reported, counted, in a thread's hands, or discarded. */
  ghost predicate Conserved(s: Sys) {
    s.passed == Sum(IsOrdinary, s.log) + Sum(Losses, s.log) + s.bus.dropped + Sum(Held, s.threads) + s.discarded
  }

  /** Every number handed out is on an accepted event or stands for a loss: the gap law in total. */
  ghost predicate NumbersConserved(s: Sys) {
    s.bus.sequence == |s.log| + Sum(Losses, s.log) + s.bus.dropped + Sum(Numbers, s.threads) + s.discarded
  }

  predicate CountsPositive(pc: Pc) {
    (pc.Swapped? || pc.NoticeReady?) ==> pc.count > 0
  }

  /** The number on an event that thread i has not sent yet. */
  predicate InFlight(s: Sys, i: nat, n: nat) {
    i < |s.threads| && (s.threads[i].NoticeReady? || s.threads[i].EventReady?) && s.threads[i].number == n
  }

  ghost predicate Distinct(s: Sys) {
    && (forall j, k :: 0 <= j < k < |s.log| ==> s.log[j].sequence != s.log[k].sequence)
    && (forall j :: 0 <= j < |s.log| ==> s.log[j].sequence <= s.bus.sequence)
    && (forall i: nat, n: nat :: InFlight(s, i, n) ==> n <= s.bus.sequence)
    && (forall i: nat, n: nat, j :: InFlight(s, i, n) && 0 <= j < |s.log| ==> s.log[j].sequence != n)
    && (forall i: nat, i': nat, n: nat :: InFlight(s, i, n) && InFlight(s, i', n) ==> i == i')
  }

  ghost predicate Bounded(s: Sys) {
    && |s.bus.queue| <= s.bus.capacity
    && (forall i :: 0 <= i < |s.threads| ==> CountsPositive(s.threads[i]))
  }

  ghost predicate Inv(s: Sys) { Bounded(s) && Conserved(s) && NumbersConserved(s) && Distinct(s) }

  lemma {:induction false} MoveSums(s: Sys, i: nat)
    requires i < |s.threads|
    ensures var s' := Move(s, i); var pc, pc' := s.threads[i], s'.threads[i];
            && Sum(Held, s'.threads) == Sum(Held, s.threads) - Held(pc) + Held(pc')
            && Sum(Numbers, s'.threads) == Sum(Numbers, s.threads) - Numbers(pc) + Numbers(pc')
            && forall e :: s'.log == s.log + [e] ==>
                 Sum(IsOrdinary, s'.log) == Sum(IsOrdinary, s.log) + IsOrdinary(e)
                 && Sum(Losses, s'.log) == Sum(Losses, s.log) + Losses(e)
  {
    hide Sum, Move, Held, Numbers;
    var s' := Move(s, i);
    SumUpdate(Held, s.threads, i, s'.threads[i]);
    SumUpdate(Numbers, s.threads, i, s'.threads[i]);
    forall e | s'.log == s.log + [e]
      ensures Sum(IsOrdinary, s'.log) == Sum(IsOrdinary, s.log) + IsOrdinary(e)
      ensures Sum(Losses, s'.log) == Sum(Losses, s.log) + Losses(e)
    {
      SumSnoc(IsOrdinary, s.log, e);
      SumSnoc(Losses, s.log, e);
    }
  }

  lemma {:induction false} MoveBounded(s: Sys, i: nat)
    requires i < |s.threads| && Bounded(s)
    ensures Bounded(Move(s, i))
  {
    assert CountsPositive(s.threads[i]);
  }

  lemma {:induction false} MoveConserves(s: Sys, i: nat)
    requires i < |s.threads| && Bounded(s) && Conserved(s) && NumbersConserved(s)
    ensures Conserved(Move(s, i)) && NumbersConserved(Move(s, i))
  {
    hide Sum;
    MoveSums(s, i);
    assert CountsPositive(s.threads[i]);
  }

  lemma {:induction false} MoveDistinct(s: Sys, i: nat)
    requires i < |s.threads| && Distinct(s)
    ensures Distinct(Move(s, i))
  {
    var s' := Move(s, i);
    forall k: nat, n: nat | InFlight(s', k, n) && k != i ensures InFlight(s, k, n) {}
    match s.threads[i]
    case NoticeReady(_, _, n) => assert InFlight(s, i, n);
    case EventReady(_, n) => assert InFlight(s, i, n);
    case _ =>
  }

  lemma {:induction false} StepInv(s: Sys, a: Act)
    requires Inv(s)
    ensures Inv(Step(s, a))
  {
    hide Sum, Move;
    match a
    case Advance(i) =>
      if i < |s.threads| {
        MoveBounded(s, i);
        MoveConserves(s, i);
        MoveDistinct(s, i);
      }
    case Begin(i, _) => UpdateQuiet(s, a, i);
    case Enable(i, _) => UpdateQuiet(s, a, i);
    case _ => assert forall i: nat, n: nat :: InFlight(Step(s, a), i, n) <==> InFlight(s, i, n);
  }

  lemma {:induction false} UpdateQuiet(s: Sys, a: Act, i: nat)
    requires Inv(s) && (a.Begin? || a.Enable?) && a.thread == i
    ensures Inv(Step(s, a))
  {
    hide Sum;
    var s' := Step(s, a);
    if i < |s.threads| {
      assert s'.threads == s.threads[i := s'.threads[i]];
      SumUpdate(Held, s.threads, i, s'.threads[i]);
      SumUpdate(Numbers, s.threads, i, s'.threads[i]);
    }
    assert forall k: nat, n: nat :: InFlight(s', k, n) ==> InFlight(s, k, n);
  }

  lemma {:induction false} SumIdle(f: Pc -> nat, n: nat)
    requires f(Idle) == 0
    ensures Sum(f, seq(n, _ => Idle)) == 0
  {
    if n != 0 {
      assert seq(n, _ => Idle)[..n - 1] == seq(n - 1, _ => Idle);
      SumIdle(f, n - 1);
    }
  }

  /** All four invariants hold after every interleaving, for any number of threads. */
  lemma {:induction false} EveryInterleaving(capacity: nat, threads: nat, acts: seq<Act>)
    ensures Inv(Run(Start(capacity, threads), acts))
  {
    if acts == [] {
      SumIdle(Held, threads);
      SumIdle(Numbers, threads);
    } else {
      EveryInterleaving(capacity, threads, acts[..|acts| - 1]);
      StepInv(Run(Start(capacity, threads), acts[..|acts| - 1]), acts[|acts| - 1]);
    }
  }

  lemma {:induction false} SumZero(f: Pc -> nat, xs: seq<Pc>)
    requires forall i :: 0 <= i < |xs| ==> f(xs[i]) == 0
    ensures Sum(f, xs) == 0
  {
    if xs != [] { SumZero(f, xs[..|xs| - 1]); }
  }

  /** Once all threads are idle and nothing was discarded, the receiver can compute the exact total
    * of lost emits from what it got: highest number handed out minus events accepted. */
  lemma {:induction false} QuiescentTotals(capacity: nat, threads: nat, acts: seq<Act>)
    ensures var s := Run(Start(capacity, threads), acts);
      (s.discarded == 0 && forall i :: 0 <= i < |s.threads| ==> s.threads[i] == Idle) ==>
        && s.passed == Sum(IsOrdinary, s.log) + Sum(Losses, s.log) + s.bus.dropped
        && s.passed - Sum(IsOrdinary, s.log) == s.bus.sequence - |s.log|
  {
    var s := Run(Start(capacity, threads), acts);
    EveryInterleaving(capacity, threads, acts);
    if forall i :: 0 <= i < |s.threads| ==> s.threads[i] == Idle {
      SumZero(Held, s.threads);
      SumZero(Numbers, s.threads);
    }
  }

  // ---------------------------------------------------------------- which emits pass

  /** Thread i is between two calls. */
  predicate Free(s: Sys, i: nat) { i < |s.threads| && s.threads[i] == Idle }

  /** Step k is a set_enabled(on) of a thread that is free to make it. */
  ghost predicate Switches(capacity: nat, threads: nat, acts: seq<Act>, k: nat, on: bool)
    requires k < |acts|
  {
    acts[k].Enable? && acts[k].on == on && Free(Run(Start(capacity, threads), acts[..k]), acts[k].thread)
  }

  /** The last such step so far is an enabling one. */
  ghost predicate SwitchedOn(capacity: nat, threads: nat, acts: seq<Act>) {
    exists j :: 0 <= j < |acts| && Switches(capacity, threads, acts, j, true)
                && forall i :: j < i < |acts| ==> !Switches(capacity, threads, acts, i, false)
  }

  /** How often a free thread began an emit while the bus was switched on. */
  ghost function Begun(capacity: nat, threads: nat, acts: seq<Act>): nat {
    if acts == [] then 0 else
      var n := |acts| - 1;
      Begun(capacity, threads, acts[..n])
      + if acts[n].Begin? && Free(Run(Start(capacity, threads), acts[..n]), acts[n].thread)
           && SwitchedOn(capacity, threads, acts[..n]) then 1 else 0
  }

  lemma {:induction false} SwitchedOnSnoc(capacity: nat, threads: nat, acts: seq<Act>)
    requires acts != []
    ensures var n := |acts| - 1;
            SwitchedOn(capacity, threads, acts)
            <==> Switches(capacity, threads, acts, n, true)
                 || (SwitchedOn(capacity, threads, acts[..n]) && !Switches(capacity, threads, acts, n, false))
  {
    hide Run;
    var n := |acts| - 1;
    var init := acts[..n];
    forall k, on | 0 <= k < n
      ensures Switches(capacity, threads, init, k, on) <==> Switches(capacity, threads, acts, k, on)
    {
      assert init[..k] == acts[..k];
    }
    hide Switches;
    if SwitchedOn(capacity, threads, init) && !Switches(capacity, threads, acts, n, false) {
      var j :| 0 <= j < n && Switches(capacity, threads, init, j, true)
               && forall i :: j < i < n ==> !Switches(capacity, threads, init, i, false);
      assert Switches(capacity, threads, acts, j, true);
      forall i | j < i < |acts| ensures !Switches(capacity, threads, acts, i, false) {
        if i < n { assert !Switches(capacity, threads, init, i, false); }
      }
    }
    if SwitchedOn(capacity, threads, acts) && !Switches(capacity, threads, acts, n, true) {
      var j :| 0 <= j < |acts| && Switches(capacity, threads, acts, j, true)
               && forall i :: j < i < |acts| ==> !Switches(capacity, threads, acts, i, false);
      assert Switches(capacity, threads, init, j, true);
      forall i | j < i < n ensures !Switches(capacity, threads, init, i, false) {
        assert !Switches(capacity, threads, acts, i, false);
      }
    }
  }

  lemma StepSwitches(s: Sys, a: Act)
    ensures Step(s, a).passed == s.passed + if a.Begin? && Free(s, a.thread) && s.bus.enabled then 1 else 0
    ensures Step(s, a).bus.enabled <==> if a.Enable? && Free(s, a.thread) then a.on else s.bus.enabled
  {
  }

  /** In every interleaving the emits that pass the check are exactly those begun while the last switch
    * of the bus was on. */
  lemma {:induction false} PassedIsBegun(capacity: nat, threads: nat, acts: seq<Act>)
    ensures var s := Run(Start(capacity, threads), acts);
            s.passed == Begun(capacity, threads, acts) && (s.bus.enabled <==> SwitchedOn(capacity, threads, acts))
  {
    hide SwitchedOn;
    if acts == [] {
      NeverSwitched(capacity, threads);
    } else {
      var n := |acts| - 1;
      hide Step;
      PassedIsBegun(capacity, threads, acts[..n]);
      SwitchedOnSnoc(capacity, threads, acts);
      StepSwitches(Run(Start(capacity, threads), acts[..n]), acts[n]);
    }
  }

  lemma NeverSwitched(capacity: nat, threads: nat)
    ensures !SwitchedOn(capacity, threads, [])
  {
  }

  // ---------------------------------------------------------------- the sequential emit

  function Moves(s: Sys, i: nat, k: nat): Sys
    requires i < |s.threads|
    ensures |Moves(s, i, k).threads| == |s.threads|
    decreases k
  {
    if k == 0 then s else Moves(Move(s, i), i, k - 1)
  }

  /** The last moves of an emit: number the event and send it. */
  lemma {:induction false} SoloEvent(s: Sys, i: nat, c: Change)
    requires i < |s.threads| && s.threads[i] == Fetching(c)
    ensures var s' := Move(Move(Move(s, i), i), i); var e := FileEvent(s.bus.sequence + 1, c, 0);
            s' == At(if s.bus.Room() then Send(NextNumber(s), e) else AddDropped(NextNumber(s), 1), i, Idle)
  {
  }

  /** The first moves of an emit that finds a drop count: take it, number the notice, send it or not. */
  lemma {:induction false} SoloNotice(s: Sys, i: nat, c: Change)
    requires i < |s.threads| && s.threads[i] == Entered(c) && s.bus.dropped > 0
    ensures var s' := Move(Move(Move(s, i), i), i); var notice := FileEvent(s.bus.sequence + 1, DROP_NOTICE, s.bus.dropped);
            var taken := NextNumber(s.(bus := s.bus.(dropped := 0)));
            && (s.bus.Room() ==> s' == At(Send(taken, notice), i, Fetching(c)))
            && (!s.bus.Room() ==> Move(s', i) == At(AddDropped(taken, s.bus.dropped + 1), i, Idle))
  {
  }

  lemma SoloPlain(s: Sys, i: nat, c: Change)
    requires i < |s.threads|
    ensures s.threads[i] == Entered(c) && s.bus.dropped == 0 ==> Move(s, i) == At(s, i, Fetching(c))
    ensures s.threads[i] == Idle ==> Move(s, i) == s
  {
  }

  /** A thread that runs without interruption performs exactly the sequential emit. */
  lemma {:induction false} SoloRunIsEmit(s: Sys, i: nat, c: Change)
    requires i < |s.threads| && s.threads[i] == Idle && |s.bus.queue| <= s.bus.capacity
    ensures var s' := Moves(Step(s, Begin(i, c)), i, 6);
            s'.bus == Emit(s.bus, c) && s'.threads == s.threads && s'.log == s.log + Sent(s.bus, c)
  {
    hide Move, Moves;
    var s0 := Step(s, Begin(i, c));
    var s1 := Move(s0, i);
    var s3 := Move(Move(s1, i), i);
    var s4 := Move(s3, i);
    MovesSix(s0, i);
    SoloPlain(s0, i, c);
    if s.bus.enabled && s.bus.dropped == 0 {
      SoloEvent(s1, i, c);
      SoloPlain(s4, i, c);
    } else if s.bus.enabled {
      SoloNotice(s0, i, c);
      if s.bus.Room() { SoloEvent(s3, i, c); } else { SoloPlain(s4, i, c); }
    }
    assert s.log + [] == s.log && s.bus.queue + [] == s.bus.queue;
  }

  /** And a set_enabled that runs without interruption is the sequential one. */
  lemma {:induction false} SoloRunIsSetEnabled(s: Sys, i: nat, on: bool)
    requires i < |s.threads| && s.threads[i] == Idle
    ensures var s' := Move(Step(s, Enable(i, on)), i);
            && s'.bus == SetEnabled(s.bus, on) && s'.threads == s.threads && s'.log == s.log
            && s'.discarded == s.discarded + if on then 0 else s.bus.dropped
  {
  }

  lemma {:induction false} MovesSix(s: Sys, i: nat)
    requires i < |s.threads|
    ensures Moves(s, i, 6) == Move(Move(Move(Move(Move(Move(s, i), i), i), i), i), i)
  {
    hide Move;
    var s2 := Move(Move(s, i), i);
    var s4 := Move(Move(s2, i), i);
    assert Moves(s, i, 6) == Moves(s2, i, 4);
    assert Moves(s2, i, 4) == Moves(s4, i, 2);
  }
}
