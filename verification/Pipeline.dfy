/** Events from concurrent emitters to one Python handler: the native bus with its threads, the
  * dispatcher that takes events off it, and one registration made at any point of the run. */
module Pipeline {
  import opened Prelude
  import opened EventBus
  import opened Subscription
  import Threads = EventBusSteps

  /** `hand`: native events received and not yet offered. `early`: those offered before this handler
    * was registered. `lost`: those thrown away by clear_events_now, by a cancelled dispatcher or with
    * the channel. `handler`: what the registration has been through. */
  datatype State = State(
    native: Threads.Sys, registered: bool, hand: seq<FileEvent>, early: seq<FileEvent>, lost: seq<FileEvent>,
    handler: seq<Subscription.Op>)

  datatype Act =
    | Bus(act: Threads.Act)     // an atomic step of an emitting or enabling thread, or the channel closes
    | Register
    | Clear                     // one try_recv of clear_events_now
    | Take                      // next_event resolves
    | Offer                     // the dispatcher resumes and offers the event to the registrations
    | Forget(index: nat)        // the dispatcher is cancelled with the event in its hands
    | Work                      // the handler's worker takes from its queue

  function Start(capacity: nat, threads: nat): State {
    State(Threads.Start(capacity, threads), false, [], [], [], [])
  }

  function Without(es: seq<FileEvent>, i: nat): seq<FileEvent>
    requires i < |es|
  {
    es[..i] + es[i + 1..]
  }

  function Step(s: State, a: Act): State {
    var waiting := s.native.bus.queue;
    match a
    case Bus(b) =>
      if b.Recv? then s
      else s.(native := Threads.Step(s.native, b), lost := s.lost + if b.Close? then waiting else [])
    case Register => s.(registered := true)
    case Clear =>
      if waiting == [] then s else s.(native := Threads.Step(s.native, Threads.Recv), lost := s.lost + [waiting[0]])
    case Take =>
      if waiting == [] then s else s.(native := Threads.Step(s.native, Threads.Recv), hand := s.hand + [waiting[0]])
    case Offer =>
      if s.hand == [] then s
      else if s.registered then s.(hand := s.hand[1..], handler := s.handler + [Native(s.hand[0])])
      else s.(hand := s.hand[1..], early := s.early + [s.hand[0]])
    case Forget(i) =>
      if i < |s.hand| then s.(hand := Without(s.hand, i), lost := s.lost + [s.hand[i]]) else s
    case Work => if s.registered then s.(handler := s.handler + [Worker]) else s
  }

  function Run(capacity: nat, threads: nat, acts: seq<Act>): State {
    if acts == [] then Start(capacity, threads) else Step(Run(capacity, threads, acts[..|acts| - 1]), acts[|acts| - 1])
  }

  // ---------------------------------------------------------------- nothing appears or vanishes

  /** Every accepted native event is somewhere. */
  ghost predicate Weighed(s: State) {
    Sum(Weight, s.native.log)
    == Sum(Weight, s.early) + Sum(Weight, s.lost) + Sum(Weight, Natives(s.handler))
       + Sum(Weight, s.hand) + Sum(Weight, s.native.bus.queue)
  }

  /** Unless events were thrown away, they are where they are in the order of acceptance. */
  ghost predicate InOrder(s: State) {
    s.lost == [] ==> s.native.log == s.early + Natives(s.handler) + s.hand + s.native.bus.queue
  }

  ghost predicate Inv(s: State) {
    Threads.Inv(s.native) && (!s.registered ==> s.handler == []) && Weighed(s) && InOrder(s)
  }

  /** A step of a thread appends the same events to the log and to the queue. */
  lemma {:induction false} ThreadAppends(s: Threads.Sys, a: Threads.Act) returns (more: seq<FileEvent>)
    requires !a.Recv? && !a.Close?
    ensures Threads.Step(s, a).log == s.log + more
    ensures Threads.Step(s, a).bus.queue == s.bus.queue + more
  {
    more := [];
    if a.Advance? && a.thread < |s.threads| { more := Threads.Step(s, a).log[|s.log|..]; }
  }

  lemma {:induction false} NativesSnoc(ops: seq<Subscription.Op>, op: Subscription.Op)
    ensures Natives(ops + [op]) == Natives(ops) + if op.Native? then [op.event] else []
  {
    assert (ops + [op])[..|ops|] == ops;
  }

  lemma NothingWeighs()
    ensures Sum(Weight, []) == 0 && Natives([]) == []
  {
  }

  /** Taking one event out of the middle takes its weight. */
  lemma {:induction false} WeightWithout(es: seq<FileEvent>, i: nat)
    requires i < |es|
    ensures Sum(Weight, es) == Sum(Weight, Without(es, i)) + Weight(es[i])
  {
    hide Sum, Weight;
    SumSnoc(Weight, es[..i], es[i]);
    SumAppend(Weight, es[..i] + [es[i]], es[i + 1..]);
    SumAppend(Weight, es[..i], es[i + 1..]);
    assert es[..i] + [es[i]] + es[i + 1..] == es;
  }

  lemma {:induction false} ThreadKeeps(s: State, a: Threads.Act)
    requires Weighed(s) && InOrder(s) && !a.Recv? && !a.Close?
    ensures Weighed(Step(s, Act.Bus(a))) && InOrder(Step(s, Act.Bus(a)))
  {
    hide Threads.Step, Sum, Weight, Natives;
    var more := ThreadAppends(s.native, a);
    SumAppend(Weight, s.native.log, more);
    SumAppend(Weight, s.native.bus.queue, more);
    assert s.lost + [] == s.lost;
    var front := s.early + Natives(s.handler) + s.hand;
    assert front + s.native.bus.queue + more == front + (s.native.bus.queue + more);
  }

  lemma {:induction false} CloseKeeps(s: State)
    requires Weighed(s) && InOrder(s)
    ensures Weighed(Step(s, Act.Bus(Threads.Close))) && InOrder(Step(s, Act.Bus(Threads.Close)))
  {
    hide Sum, Weight, Natives;
    NothingWeighs();
    SumAppend(Weight, s.lost, s.native.bus.queue);
    assert s.lost + [] == s.lost;
  }

  /** Clear and Take: the head leaves the native queue. */
  lemma {:induction false} TakeKeeps(s: State, a: Act)
    requires Weighed(s) && InOrder(s) && (a == Clear || a == Take)
    ensures Weighed(Step(s, a)) && InOrder(Step(s, a))
  {
    hide Sum, Weight, Natives;
    var q := s.native.bus.queue;
    if q != [] {
      WeightWithout(q, 0);
      assert Without(q, 0) == q[1..];
      SumSnoc(Weight, s.lost, q[0]);
      SumSnoc(Weight, s.hand, q[0]);
      var front := s.early + Natives(s.handler);
      assert front + s.hand + q == front + (s.hand + [q[0]]) + q[1..];
    }
  }

  lemma {:induction false} ForgetKeeps(s: State, i: nat)
    requires Weighed(s) && InOrder(s)
    ensures Weighed(Step(s, Forget(i))) && InOrder(Step(s, Forget(i)))
  {
    hide Sum, Weight, Natives;
    if i < |s.hand| {
      WeightWithout(s.hand, i);
      SumSnoc(Weight, s.lost, s.hand[i]);
    }
  }

  lemma HandOver(a: seq<FileEvent>, b: seq<FileEvent>, hand: seq<FileEvent>, q: seq<FileEvent>)
    requires hand != []
    ensures a + b + hand + q == a + (b + [hand[0]]) + hand[1..] + q
    ensures b == [] ==> a + b + hand + q == (a + [hand[0]]) + b + hand[1..] + q
  {
    assert hand == [hand[0]] + hand[1..];
  }

  lemma {:induction false} OfferKeeps(s: State)
    requires Weighed(s) && InOrder(s) && (!s.registered ==> s.handler == [])
    ensures Weighed(Step(s, Offer)) && InOrder(Step(s, Offer))
  {
    hide Sum, Weight, Natives;
    if s.hand != [] {
      var e, seen := s.hand[0], Natives(s.handler);
      WeightWithout(s.hand, 0);
      assert Without(s.hand, 0) == s.hand[1..];
      HandOver(s.early, seen, s.hand, s.native.bus.queue);
      if s.registered {
        NativesSnoc(s.handler, Native(e));
        SumSnoc(Weight, seen, e);
      } else {
        NothingWeighs();
        SumSnoc(Weight, s.early, e);
      }
    }
  }

  lemma {:induction false} StepInv(s: State, a: Act)
    requires Inv(s)
    ensures Inv(Step(s, a))
  {
    hide Threads.Inv, Threads.Step, Weighed, InOrder;
    match a
    case Bus(b) =>
      Threads.StepInv(s.native, b);
      if b.Close? { CloseKeeps(s); } else if !b.Recv? { ThreadKeeps(s, b); }
    case Clear =>
      Threads.StepInv(s.native, Threads.Recv);
      TakeKeeps(s, a);
    case Take =>
      Threads.StepInv(s.native, Threads.Recv);
      TakeKeeps(s, a);
    case Offer => OfferKeeps(s);
    case Forget(i) => ForgetKeeps(s, i);
    case Register => RegisterKeeps(s);
    case Work => WorkKeeps(s);
  }

  lemma RegisterKeeps(s: State)
    requires Weighed(s) && InOrder(s)
    ensures Weighed(Step(s, Register)) && InOrder(Step(s, Register))
  {
  }

  lemma {:induction false} WorkKeeps(s: State)
    requires Weighed(s) && InOrder(s)
    ensures Weighed(Step(s, Work)) && InOrder(Step(s, Work))
  {
    hide Sum, Natives;
    NativesSnoc(s.handler, Worker);
    assert Natives(s.handler) + [] == Natives(s.handler);
  }

  lemma {:induction false} StartInv(capacity: nat, threads: nat)
    ensures Inv(Start(capacity, threads))
  {
    Threads.EveryInterleaving(capacity, threads, []);
    NothingWeighs();
  }

  /** In every joint run each accepted native event is waiting, in the dispatcher's hands, offered to
    * this handler, offered before it came, or lost; in the order of acceptance unless some were lost. */
  lemma {:induction false} EveryRun(capacity: nat, threads: nat, acts: seq<Act>)
    ensures Inv(Run(capacity, threads, acts))
  {
    hide Inv, Step;
    if acts == [] {
      StartInv(capacity, threads);
    } else {
      var n := |acts| - 1;
      EveryRun(capacity, threads, acts[..n]);
      StepInv(Run(capacity, threads, acts[..n]), acts[n]);
    }
  }

  /** The registration is there from its step on, and from then on no event is early: every event that
    * is offered reaches the handler. */
  lemma {:induction false} RegisteredFromThen(capacity: nat, threads: nat, acts: seq<Act>, k: nat)
    requires k < |acts| && acts[k] == Register
    ensures Run(capacity, threads, acts).registered
    ensures Run(capacity, threads, acts).early == Run(capacity, threads, acts[..k]).early
    decreases |acts|
  {
    hide Threads.Step;
    var n := |acts| - 1;
    if k < n {
      RegisteredFromThen(capacity, threads, acts[..n], k);
      assert acts[..n][..k] == acts[..k];
    }
  }

  lemma {:induction false} NotRegisteredBefore(capacity: nat, threads: nat, acts: seq<Act>)
    requires Register !in acts
    ensures !Run(capacity, threads, acts).registered && Run(capacity, threads, acts).handler == []
  {
    if acts != [] {
      hide Threads.Step;
      var n := |acts| - 1;
      assert acts[n] in acts;
      NotRegisteredBefore(capacity, threads, acts[..n]);
    }
  }

  /** What the native side sees of a joint step. */
  function NativeActs(acts: seq<Act>): seq<Threads.Act> {
    if acts == [] then [] else
      var n := |acts| - 1;
      NativeActs(acts[..n]) +
      match acts[n]
      case Bus(b) => if b.Recv? then [] else [b]
      case Clear => [Threads.Recv]
      case Take => [Threads.Recv]
      case _ => []
  }

  /** The native side of every joint run is a run of the concurrent bus. */
  lemma {:induction false} NativeIsARun(capacity: nat, threads: nat, acts: seq<Act>)
    ensures Run(capacity, threads, acts).native == Threads.Run(Threads.Start(capacity, threads), NativeActs(acts))
  {
    if acts != [] {
      hide Threads.Start;
      var n := |acts| - 1;
      NativeIsARun(capacity, threads, acts[..n]);
      var before, s := NativeActs(acts[..n]), Run(capacity, threads, acts[..n]);
      assert before + [] == before;
      RecvEmpty(s.native);
      match acts[n]
      case Bus(b) => NativeSnoc(capacity, threads, before, b);
      case Clear => NativeSnoc(capacity, threads, before, Threads.Recv);
      case Take => NativeSnoc(capacity, threads, before, Threads.Recv);
      case _ =>
      hide Threads.Step, Threads.Run;
    }
  }

  lemma RecvEmpty(s: Threads.Sys)
    ensures s.bus.queue == [] ==> Threads.Step(s, Threads.Recv) == s
  {
  }

  lemma {:induction false} NativeSnoc(capacity: nat, threads: nat, acts: seq<Threads.Act>, a: Threads.Act)
    ensures Threads.Run(Threads.Start(capacity, threads), acts + [a])
         == Threads.Step(Threads.Run(Threads.Start(capacity, threads), acts), a)
  {
    assert (acts + [a])[..|acts|] == acts;
  }

  /** The oldest waiting event is the next one a registered handler is offered, once the dispatcher has
    * empty hands. */
  lemma {:induction false} OffersOldest(s: State)
    requires s.registered && s.hand == [] && s.native.bus.queue != []
    ensures Natives(Step(Step(s, Take), Offer).handler) == Natives(s.handler) + [s.native.bus.queue[0]]
    ensures Step(s, Work).handler == s.handler + [Worker]
  {
    hide Natives;
    NativesSnoc(s.handler, Native(s.native.bus.queue[0]));
  }

  // ---------------------------------------------------------------- the count law

  lemma {:induction false} WeightSplits(es: seq<FileEvent>)
    ensures Sum(Weight, es) == Sum(Threads.IsOrdinary, es) + Sum(Losses, es)
  {
    if es != [] { WeightSplits(es[..|es| - 1]); }
  }

  /** Every emit that passed the enabled check, by where it is now. */
  function Accounted(s: State, f: Filter, maxsize: nat): nat {
    var t := DispatchAll(f, maxsize, s.handler);
    // what the handler was told or will be, and what its filter hides
    Told(t.log) + t.queue.dropped + Filtered(f, Natives(s.handler))
    // native events that did not get to it, or not yet
    + Sum(Weight, s.early) + Sum(Weight, s.lost) + Sum(Weight, s.hand) + Sum(Weight, s.native.bus.queue)
    // counted natively, in the hands of a thread, or discarded by disabling
    + s.native.bus.dropped + Sum(Threads.Held, s.native.threads) + s.native.discarded
  }

  /** End to end, for any number of threads in mid-emit, any interleaving and a registration made at
    * any point: the accounts never exceed the emits that passed the check, and make them up exactly
    * iff the handler's queue never lacked room for a native notice that stood for several changes. */
  lemma {:induction false} EndToEndCountsIff(capacity: nat, threads: nat, f: Filter, maxsize: nat, acts: seq<Act>)
    ensures var s := Run(capacity, threads, acts);
            && Accounted(s, f, maxsize) <= s.native.passed
            && (Accounted(s, f, maxsize) == s.native.passed <==> NeverLosesSeveral(f, maxsize, s.handler))
  {
    hide Run, DispatchAll, Told, Sum, Filtered, Natives, NeverLosesSeveral, Weight;
    var s := Run(capacity, threads, acts);
    EveryRun(capacity, threads, acts);
    WeightSplits(s.native.log);
    FilterSplits(f, Natives(s.handler));
    HandlerCountsExactIff(f, maxsize, s.handler);
  }
}
