/** Delivery to one Python event handler: its filter and its bounded queue. */
module Subscription {
  import opened LossyQueue
  import opened Prelude
  import opened EventBus
  import Paths

  /** How an item of the abstract stream looks in the queue; a synthesised notice borrows the
    * sequence number of the event that triggered it. */
  predicate Renders(item: Item<FileEvent>, e: FileEvent) {
    match item
    case Event(original) => e == original
    case Notice(count) => e.change == DROP_NOTICE && e.droppedCount == count
  }

  class HandlerQueue {
    var queue: seq<FileEvent>
    var droppedCount: nat
    const maxsize: nat
    /** The offers and gets so far, as a run of the lossy queue. */
    ghost var trace: Trace<FileEvent>

    ghost predicate Valid()
      reads this
    {
      && Sound(trace)
      && trace.queue.capacity == maxsize && trace.queue.dropped == droppedCount
      && |queue| == |trace.queue.items|
      && forall i :: 0 <= i < |queue| ==> Renders(trace.queue.items[i], queue[i])
    }

    /** The sandbox configuration rejects a queue size below one. */
    constructor (maxsize: nat)
      requires maxsize > 0
      ensures Valid() && this.maxsize == maxsize && trace == LossyQueue.Start(maxsize)
    {
      this.maxsize := maxsize;
      queue, droppedCount := [], 0;
      trace := LossyQueue.Start(maxsize);
      new;
      ReconstructsEveryRun<FileEvent>(maxsize, []);
    }

    method PutNoWait(e: FileEvent) returns (ok: bool)
      modifies this`queue
      ensures ok == (|old(queue)| < maxsize)
      ensures queue == if ok then old(queue) + [e] else old(queue)
    {
      ok := |queue| < maxsize;
      if ok { queue := queue + [e]; }
    }

    /** Offers one matching event to the handler. */
    method Deliver(e: FileEvent)
      requires Valid()
      modifies this`queue, this`droppedCount, this`trace
      ensures Valid() && trace == LossyQueue.Step(old(trace), Put(e))
    {
      hide Sound;
      StepSound(trace, Put(e));
      SoundQueue(trace);
      trace := LossyQueue.Step(trace, Put(e));
      if droppedCount > 0 {
        var ok := PutNoWait(FileEvent(e.sequence, DROP_NOTICE, droppedCount));
        if !ok {
          droppedCount := droppedCount + 1;
          return;
        }
        droppedCount := 0;
      }
      var ok := PutNoWait(e);
      if ok { return; }
      droppedCount := droppedCount + 1;
    }

    /** The worker takes the next event, if there is one. */
    method Next() returns (e: Option<FileEvent>)
      requires Valid()
      modifies this`queue, this`trace
      ensures Valid() && trace == LossyQueue.Step(old(trace), Take)
      ensures e.None? <==> old(trace.queue.items) == []
      ensures e.Some? ==> Renders(old(trace.queue.items)[0], e.value)
    {
      StepSound(trace, Take);
      trace := LossyQueue.Step(trace, Take);
      if queue == [] { return None; }
      e := Some(queue[0]);
      queue := queue[1..];
    }
  }

  lemma SoundQueue(t: Trace<FileEvent>)
    requires Sound(t)
    ensures t.queue.open && |t.queue.items| <= t.queue.capacity
  {
  }

  // ---------------------------------------------------------------- the filter

  datatype Filter = Filter(kinds: Option<set<Kind>>, prefix: Option<string>)

  predicate EventMatches(f: Filter, e: FileEvent) {
    && (f.kinds.Some? ==> e.change.kind in f.kinds.value)
    && (f.prefix.Some? ==>
          || Paths.PathMatchesPrefix(e.change.path, f.prefix.value)
          || (e.change.target.Some? && Paths.PathMatchesPrefix(e.change.target.value, f.prefix.value)))
  }

  /** On canonical paths the filter is component containment: an event passes iff its kind is asked for
    * and the prefix contains the path or, for a rename, the path it was renamed to. */
  lemma {:induction false} MatchesByComponents(f: Filter, e: FileEvent)
    requires f.prefix.Some? ==> Paths.Canonical(f.prefix.value)
    requires Paths.Canonical(e.change.path) && (e.change.target.Some? ==> Paths.Canonical(e.change.target.value))
    ensures EventMatches(f, e)
       <==> (f.kinds.None? || e.change.kind in f.kinds.value)
            && (f.prefix.None?
                || Paths.Components(f.prefix.value) <= Paths.Components(e.change.path)
                || (e.change.target.Some? && Paths.Components(f.prefix.value) <= Paths.Components(e.change.target.value)))
  {
    hide Paths.Canonical, Paths.Components, Paths.PathMatchesPrefix;
    if f.prefix.Some? {
      Paths.PrefixIsAncestry(e.change.path, f.prefix.value);
      if e.change.target.Some? { Paths.PrefixIsAncestry(e.change.target.value, f.prefix.value); }
    }
  }

  /** The matching part of the native stream, which is what the handler's queue is offered. */
  function Matching(f: Filter, es: seq<FileEvent>): seq<FileEvent> {
    if es == [] then [] else
      var n := |es| - 1;
      Matching(f, es[..n]) + if EventMatches(f, es[n]) then [es[n]] else []
  }

  /** The dispatcher's treatment of one registration while events arrive, gets interleaved at will. */
  datatype Op = Native(event: FileEvent) | Worker

  function Dispatch(f: Filter, t: Trace<FileEvent>, op: Op): Trace<FileEvent> {
    match op
    case Native(e) => if EventMatches(f, e) then LossyQueue.Step(t, Put(e)) else t
    case Worker => LossyQueue.Step(t, Take)
  }

  function DispatchAll(f: Filter, maxsize: nat, ops: seq<Op>): Trace<FileEvent> {
    if ops == [] then LossyQueue.Start(maxsize) else Dispatch(f, DispatchAll(f, maxsize, ops[..|ops| - 1]), ops[|ops| - 1])
  }

  function Natives(ops: seq<Op>): seq<FileEvent> {
    if ops == [] then [] else
      var n := |ops| - 1;
      Natives(ops[..n]) + if ops[n].Native? then [ops[n].event] else []
  }

  /** For every interleaving the accepted log accounts for exactly the matching native events:
    * each is in the log at its place or covered by a hole, and nothing else is. */
  lemma {:induction false} HandlerStreamReconstructs(f: Filter, maxsize: nat, ops: seq<Op>)
    ensures var t := DispatchAll(f, maxsize, ops);
            && Sound(t) && t.offered == Matching(f, Natives(ops))
            && Accounted(t.log, t.queue.dropped, Matching(f, Natives(ops)))
  {
    hide Accounted;
    if ops == [] {
      ReconstructsEveryRun<FileEvent>(maxsize, []);
    } else {
      var n := |ops| - 1;
      HandlerStreamReconstructs(f, maxsize, ops[..n]);
      var t := DispatchAll(f, maxsize, ops[..n]);
      var es := Natives(ops[..n]);
      assert es + [] == es && Matching(f, es) + [] == Matching(f, es);
      match ops[n]
      case Native(e) =>
        assert (es + [e])[..|es|] == es;
        if EventMatches(f, e) { StepSound(t, Put(e)); }
      case Worker => StepSound(t, Take);
    }
  }

  /** Losses on the native side reach a handler only if its filter admits the notice: it is reported
    * at "/", so any narrower path prefix, or a kind list without EventsDropped, hides it. */
  lemma NativeNoticeSeenIff(f: Filter, number: nat, count: nat)
    requires f.prefix.Some? ==> f.prefix.value != "" && f.prefix.value[0] == '/'
    ensures EventMatches(f, FileEvent(number, DROP_NOTICE, count))
       <==> (f.kinds.None? || EventsDropped in f.kinds.value) && (f.prefix.None? || f.prefix.value == "/")
  {
  }

  // ---------------------------------------------------------------- losses across both queues

  /** How many emitted changes a native event stands for. */
  function Weight(e: FileEvent): nat { if e.droppedCount > 0 then e.droppedCount else 1 }

  /** How many changes the handler hears about, taking every count at its word. */
  function Told(log: seq<Item<FileEvent>>): nat {
    if log == [] then 0 else
      var last := log[|log| - 1];
      Told(log[..|log| - 1]) + if last.Event? then Weight(last.event) else last.count
  }

  /** One offer adds the event's own weight if there is room for it and the notice due, else one. */
  lemma {:induction false} OfferTells(log: seq<Item<FileEvent>>, q: Queue<FileEvent>, e: FileEvent)
    ensures Told(log + Accepted(q, e)) + DroppedAfter(q, e)
         == Told(log) + q.dropped + if q.Room(Due(q)) then Weight(e) else 1
  {
    hide Told, Weight;
    var sent := Accepted(q, e);
    if sent == [] {
      assert log + sent == log;
    } else {
      ToldSnoc(log, sent[0]);
      if |sent| == 2 {
        ToldSnoc(log + [sent[0]], sent[1]);
        assert log + sent == log + [sent[0]] + [sent[1]];
      }
    }
  }

  /** Slots an offer needs to deliver its event. */
  function Due(q: Queue<FileEvent>): nat { if q.dropped > 0 then 2 else 1 }

  lemma {:induction false} ToldSnoc(log: seq<Item<FileEvent>>, x: Item<FileEvent>)
    ensures Told(log + [x]) == Told(log) + if x.Event? then Weight(x.event) else x.count
  {
    assert (log + [x])[..|log|] == log;
  }

  /** The step offers the handler a native notice for several changes and its queue lacks the room. */
  predicate LacksRoom(f: Filter, q: Queue<FileEvent>, op: Op) {
    op.Native? && EventMatches(f, op.event) && !q.Room(Due(q)) && Weight(op.event) > 1
  }

  predicate LosesSeveral(f: Filter, maxsize: nat, ops: seq<Op>, k: nat)
    requires k < |ops|
  {
    LacksRoom(f, DispatchAll(f, maxsize, ops[..k]).queue, ops[k])
  }

  ghost predicate NeverLosesSeveral(f: Filter, maxsize: nat, ops: seq<Op>) {
    forall k :: 0 <= k < |ops| ==> !LosesSeveral(f, maxsize, ops, k)
  }

  /** The changes that a step offers to the handler. */
  function Gain(f: Filter, op: Op): nat {
    if op.Native? && EventMatches(f, op.event) then Weight(op.event) else 0
  }

  /** What one step adds to the handler's count falls behind what it adds to the offers iff it loses
    * several changes at once. */
  lemma {:induction false} StepTells(f: Filter, t: Trace<FileEvent>, op: Op)
    ensures var t' := Dispatch(f, t, op);
            var told := Told(t'.log) + t'.queue.dropped - Told(t.log) - t.queue.dropped;
            && told <= Gain(f, op)
            && (told == Gain(f, op) <==> !LacksRoom(f, t.queue, op))
  {
    hide Told, EventMatches;
    if op.Native? && EventMatches(f, op.event) { OfferTells(t.log, t.queue, op.event); }
  }

  lemma {:induction false} MatchingStep(f: Filter, ops: seq<Op>, op: Op)
    ensures Sum(Weight, Matching(f, Natives(ops + [op])))
         == Sum(Weight, Matching(f, Natives(ops))) + Gain(f, op)
  {
    hide EventMatches;
    assert (ops + [op])[..|ops|] == ops;
    var es := Natives(ops);
    assert es + [] == es;
    if op.Native? {
      assert (es + [op.event])[..|es|] == es;
      var ms := Matching(f, es);
      assert ms + [] == ms && (ms + [op.event])[..|ms|] == ms;
    }
  }

  /** The counts a handler sees never overstate what was emitted; they are exact iff its queue never
    * lacked room for a native notice that stood for several changes, since that loss counts as one. */
  lemma {:induction false} HandlerCountsExactIff(f: Filter, maxsize: nat, ops: seq<Op>)
    ensures var t := DispatchAll(f, maxsize, ops); var offered := Matching(f, Natives(ops));
            && Told(t.log) + t.queue.dropped <= Sum(Weight, offered)
            && (Told(t.log) + t.queue.dropped == Sum(Weight, offered) <==> NeverLosesSeveral(f, maxsize, ops))
  {
    hide Told, Matching, Natives, Sum, DispatchAll, Dispatch, LacksRoom, NeverLosesSeveral, Gain;
    if ops == [] {
      NothingTold(f, maxsize);
    } else {
      var n := |ops| - 1;
      HandlerCountsExactIff(f, maxsize, ops[..n]);
      LosesSnoc(f, maxsize, ops);
      StepTells(f, DispatchAll(f, maxsize, ops[..n]), ops[n]);
      MatchingStep(f, ops[..n], ops[n]);
      assert ops[..n] + [ops[n]] == ops;
    }
  }

  lemma NothingTold(f: Filter, maxsize: nat)
    ensures DispatchAll(f, maxsize, []) == LossyQueue.Start(maxsize) && NeverLosesSeveral(f, maxsize, [])
    ensures Told([]) == 0 && Sum(Weight, Matching(f, Natives([]))) == 0
  {
  }

  lemma {:induction false} LosesSnoc(f: Filter, maxsize: nat, ops: seq<Op>)
    requires ops != []
    ensures var n := |ops| - 1; var init := ops[..n];
            NeverLosesSeveral(f, maxsize, ops)
            <==> NeverLosesSeveral(f, maxsize, init) && !LacksRoom(f, DispatchAll(f, maxsize, init).queue, ops[n])
    ensures DispatchAll(f, maxsize, ops) == Dispatch(f, DispatchAll(f, maxsize, ops[..|ops| - 1]), ops[|ops| - 1])
  {
    hide LacksRoom, Dispatch;
    var n := |ops| - 1;
    var init := ops[..n];
    forall k | 0 <= k < n ensures LosesSeveral(f, maxsize, ops, k) <==> LosesSeveral(f, maxsize, init, k) {
      assert init[..k] == ops[..k];
    }
    assert LosesSeveral(f, maxsize, ops, n) <==> LacksRoom(f, DispatchAll(f, maxsize, init).queue, ops[n]);
  }

  lemma {:induction false} SentTotal(b: Bus, c: Change)
    requires b.enabled && |b.queue| <= b.capacity
    ensures Sum(Weight, Sent(b, c)) + Emit(b, c).dropped == b.dropped + 1
  {
    hide Sum;
    var sent := Sent(b, c);
    assert Sum(Weight, []) == 0 by { NoWeight(); }
    if sent != [] {
      SumSnoc(Weight, [], sent[0]);
      assert [] + [sent[0]] == [sent[0]];
      if |sent| == 2 {
        SumSnoc(Weight, [sent[0]], sent[1]);
        assert sent == [sent[0]] + [sent[1]];
      }
    }
  }

  lemma NoWeight()
    ensures Sum(Weight, []) == 0
  {
  }

  /** On the native side the total is right in every run: what the log stands for, what is still
    * counted and what disabling discarded make up the emitted changes. */
  lemma {:induction false} NativeTotalIsEmitted(capacity: nat, ops: seq<EventBus.Op>)
    ensures var t := EventBus.Run(EventBus.Start(capacity), ops);
            Sum(Weight, t.log) + t.bus.dropped + t.discarded == |t.emitted|
  {
    if ops != [] {
      hide Emit, Sent;
      var n := |ops| - 1;
      NativeTotalIsEmitted(capacity, ops[..n]);
      var t := EventBus.Run(EventBus.Start(capacity), ops[..n]);
      RunInv(capacity, ops[..n]);
      if ops[n].EmitOp? {
        if t.bus.enabled {
          SentTotal(t.bus, ops[n].change);
          SumAppend(Weight, t.log, Sent(t.bus, ops[n].change));
        } else {
          DisabledEmit(t, ops[n].change);
        }
      }
    }
  }

  /** The changes that native events outside the filter stand for. */
  function Filtered(f: Filter, es: seq<FileEvent>): nat {
    if es == [] then 0 else
      var n := |es| - 1;
      Filtered(f, es[..n]) + if EventMatches(f, es[n]) then 0 else Weight(es[n])
  }

  lemma {:induction false} FilterSplits(f: Filter, es: seq<FileEvent>)
    ensures Sum(Weight, es) == Sum(Weight, Matching(f, es)) + Filtered(f, es)
  {
    if es != [] {
      hide EventMatches;
      var n := |es| - 1;
      FilterSplits(f, es[..n]);
      var ms := Matching(f, es[..n]);
      assert ms + [] == ms && (ms + [es[n]])[..|ms|] == ms;
    }
  }
}
