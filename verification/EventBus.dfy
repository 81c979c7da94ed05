/** The native event bus, one emit at a time: sequence numbers, the drop counter, the bounded channel. */
module EventBus {
  import opened LossyQueue
  import opened Prelude

  datatype Kind = FileCreated | FileModified | FileMetadataModified | FileRemoved
    | DirectoryCreated | DirectoryRemoved | PathRenamed | EventsDropped

  /** What a caller reports; sequence number and drop count are added by the bus. */
  datatype Change = Change(kind: Kind, path: string, target: Option<string>)

  datatype FileEvent = FileEvent(sequence: nat, change: Change, droppedCount: nat)

  const DROP_NOTICE: Change := Change(EventsDropped, "/", None)

  datatype Bus = Bus(enabled: bool, sequence: nat, dropped: nat, queue: seq<FileEvent>, capacity: nat, open: bool) {
    predicate Room() { open && |queue| < capacity }
  }

  // ---------------------------------------------------------------- the specification of one emit

  /** The events one emit appends: `n` is the number of slots that are free. */
  function Sent(b: Bus, c: Change): seq<FileEvent> {
    var free := if b.open then b.capacity - |b.queue| else 0;
    if !b.enabled || free <= 0 then []
    else if b.dropped == 0 then [FileEvent(b.sequence + 1, c, 0)]
    else if free == 1 then [FileEvent(b.sequence + 1, DROP_NOTICE, b.dropped)]
    else [FileEvent(b.sequence + 1, DROP_NOTICE, b.dropped), FileEvent(b.sequence + 2, c, 0)]
  }

  function Emit(b: Bus, c: Change): Bus {
    if !b.enabled then b else
      var attempts := if b.dropped > 0 && b.Room() then 2 else 1;
      b.(sequence := b.sequence + attempts, dropped := DroppedAfter(Lossy(b), c), queue := b.queue + Sent(b, c))
  }

  function SetEnabled(b: Bus, on: bool): Bus {
    if on then b.(enabled := true) else b.(enabled := false, dropped := 0)
  }

  function Receive(b: Bus): Bus {
    if b.queue == [] then b else b.(queue := b.queue[1..])
  }

  // ---------------------------------------------------------------- the bus is a lossy queue

  function ItemOf(e: FileEvent): Item<Change> {
    if e.droppedCount > 0 then Notice(e.droppedCount) else Event(e.change)
  }

  function Items(es: seq<FileEvent>): seq<Item<Change>> {
    seq(|es|, i requires 0 <= i < |es| => ItemOf(es[i]))
  }

  function Lossy(b: Bus): Queue<Change> { Queue(Items(b.queue), b.dropped, b.capacity, b.open) }

  lemma EmitIsOffer(b: Bus, c: Change)
    requires b.enabled
    ensures Items(Sent(b, c)) == Accepted(Lossy(b), c)
    ensures Lossy(Emit(b, c)) == Offer(Lossy(b), c)
  {
    assert Items(b.queue + Sent(b, c)) == Items(b.queue) + Items(Sent(b, c));
  }

  // ---------------------------------------------------------------- the object

  class Channel {
    var enabled: bool
    var sequence: nat
    var dropped: nat
    var queue: seq<FileEvent>
    var open: bool
    const capacity: nat

    ghost function State(): Bus
      reads this
    {
      Bus(enabled, sequence, dropped, queue, capacity, open)
    }

    constructor (capacity: nat)
      ensures State() == Bus(false, 0, 0, [], capacity, true)
    {
      this.capacity := capacity;
      enabled, sequence, dropped, queue, open := false, 0, 0, [], true;
    }

    method TrySend(e: FileEvent) returns (ok: bool)
      modifies this`queue
      ensures ok == old(State().Room())
      ensures queue == if ok then old(queue) + [e] else old(queue)
    {
      ok := open && |queue| < capacity;
      if ok { queue := queue + [e]; }
    }

    method NewEvent(c: Change, droppedCount: nat) returns (e: FileEvent)
      modifies this`sequence
      ensures sequence == old(sequence) + 1 && e == FileEvent(sequence, c, droppedCount)
    {
      sequence := sequence + 1;
      e := FileEvent(sequence, c, droppedCount);
    }

    method EmitChange(c: Change)
      modifies this`sequence, this`dropped, this`queue
      ensures State() == Emit(old(State()), c)
    {
      if !enabled { return; }
      var count := dropped;
      dropped := 0;
      if count > 0 {
        var notice := NewEvent(DROP_NOTICE, count);
        var ok := TrySend(notice);
        if !ok {
          dropped := dropped + (count + 1);
          return;
        }
      }
      var e := NewEvent(c, 0);
      var ok := TrySend(e);
      if ok { return; }
      dropped := dropped + 1;
    }

    method Enable(on: bool)
      modifies this`enabled, this`dropped
      ensures State() == SetEnabled(old(State()), on)
    {
      enabled := on;
      if on { return; }
      dropped := 0;
    }

    method Recv() returns (e: Option<FileEvent>)
      modifies this`queue
      ensures State() == Receive(old(State()))
      ensures e == if old(queue) == [] then None else Some(old(queue)[0])
    {
      if queue == [] { return None; }
      e := Some(queue[0]);
      queue := queue[1..];
    }
  }

  // ---------------------------------------------------------------- serialised runs

  datatype Op = EmitOp(change: Change) | ReceiveOp | EnableOp(on: bool) | CloseOp

  /** `log`: every event ever accepted; `emitted`: every change that found the bus enabled;
    * `discarded`: drop counts wiped out by disabling. */
  datatype BusTrace = BusTrace(bus: Bus, log: seq<FileEvent>, emitted: seq<Change>, discarded: nat)

  function Start(capacity: nat): BusTrace { BusTrace(Bus(false, 0, 0, [], capacity, true), [], [], 0) }

  function Step(t: BusTrace, op: Op): BusTrace {
    match op
    case EmitOp(c) =>
      BusTrace(Emit(t.bus, c), t.log + Sent(t.bus, c), if t.bus.enabled then t.emitted + [c] else t.emitted, t.discarded)
    case ReceiveOp => t.(bus := Receive(t.bus))
    case EnableOp(on) =>
      BusTrace(SetEnabled(t.bus, on), t.log, t.emitted, if on then t.discarded else t.discarded + t.bus.dropped)
    case CloseOp => t.(bus := t.bus.(open := false, queue := []))
  }

  function Run(t: BusTrace, ops: seq<Op>): BusTrace {
    if ops == [] then t else Step(Run(t, ops[..|ops| - 1]), ops[|ops| - 1])
  }

  /** Sequence number just before log entry i (0 before the first). */
  function Before(log: seq<FileEvent>, i: nat): nat
    requires i <= |log|
  {
    if i == 0 then 0 else log[i - 1].sequence
  }

  /** The numbers skipped before event i are exactly the losses it reports. */
  predicate ExactAt(log: seq<FileEvent>, i: nat)
    requires i < |log|
  {
    log[i].sequence == Before(log, i) + 1 + log[i].droppedCount
  }

  predicate AtLeastAt(log: seq<FileEvent>, i: nat)
    requires i < |log|
  {
    log[i].sequence >= Before(log, i) + 1 + log[i].droppedCount
  }

  ghost predicate GapsExact(log: seq<FileEvent>) {
    forall i :: 0 <= i < |log| ==> ExactAt(log, i)
  }

  ghost predicate GapsAtLeast(log: seq<FileEvent>) {
    forall i :: 0 <= i < |log| ==> AtLeastAt(log, i)
  }

  ghost predicate Inv(t: BusTrace) {
    && |t.bus.queue| <= t.bus.capacity
    && GapsAtLeast(t.log) && t.bus.sequence >= Before(t.log, |t.log|) + t.bus.dropped
    && (t.discarded == 0 ==>
          && GapsExact(t.log) && t.bus.sequence == Before(t.log, |t.log|) + t.bus.dropped
          && Accounted(Items(t.log), t.bus.dropped, t.emitted))
  }

  lemma {:induction false} GapAppend(log: seq<FileEvent>, e: FileEvent)
    ensures (GapsExact(log) && e.sequence == Before(log, |log|) + 1 + e.droppedCount) ==> GapsExact(log + [e])
    ensures (GapsAtLeast(log) && e.sequence >= Before(log, |log|) + 1 + e.droppedCount) ==> GapsAtLeast(log + [e])
  {
    var log' := log + [e];
    forall i | 0 <= i < |log| ensures ExactAt(log', i) == ExactAt(log, i) && AtLeastAt(log', i) == AtLeastAt(log, i) {}
    assert ExactAt(log', |log|) <==> e.sequence == Before(log, |log|) + 1 + e.droppedCount;
    assert AtLeastAt(log', |log|) <==> e.sequence >= Before(log, |log|) + 1 + e.droppedCount;
  }

  lemma {:induction false} EmitGaps(b: Bus, log: seq<FileEvent>, c: Change)
    requires b.enabled && |b.queue| <= b.capacity
    ensures var b', log' := Emit(b, c), log + Sent(b, c);
            && ((GapsExact(log) && b.sequence == Before(log, |log|) + b.dropped) ==>
                  GapsExact(log') && b'.sequence == Before(log', |log'|) + b'.dropped)
            && ((GapsAtLeast(log) && b.sequence >= Before(log, |log|) + b.dropped) ==>
                  GapsAtLeast(log') && b'.sequence >= Before(log', |log'|) + b'.dropped)
  {
    hide GapsExact, GapsAtLeast;
    var notice := FileEvent(b.sequence + 1, DROP_NOTICE, b.dropped);
    var sent := Sent(b, c);
    if sent == [] {
      assert log + sent == log;
    } else if b.dropped == 0 {
      GapAppend(log, FileEvent(b.sequence + 1, c, 0));
    } else {
      GapAppend(log, notice);
      GapAppend(log + [notice], FileEvent(b.sequence + 2, c, 0));
      if |sent| == 2 {
        assert log + sent == log + [notice] + [FileEvent(b.sequence + 2, c, 0)];
      }
    }
  }

  lemma {:induction false} StepInv(t: BusTrace, op: Op)
    requires Inv(t)
    ensures Inv(Step(t, op))
  {
    hide Accounted, GapsExact, GapsAtLeast;
    match op
    case EmitOp(c) =>
      var sent := Sent(t.bus, c);
      if t.bus.enabled {
        EmitGaps(t.bus, t.log, c);
        EmitIsOffer(t.bus, c);
        assert Items(t.log + sent) == Items(t.log) + Items(sent);
        if t.discarded == 0 { OfferAccounts(Items(t.log), Lossy(t.bus), t.emitted, c); }
      } else {
        assert t.log + sent == t.log;
      }
    case _ =>
  }

  /** Every serialised run: gaps never understate the losses, and unless disabling threw a count
    * away they are exact and the emitted changes can be rebuilt in order up to holes. */
  lemma {:induction false} RunInv(capacity: nat, ops: seq<Op>)
    ensures Inv(Run(Start(capacity), ops))
  {
    if ops != [] {
      RunInv(capacity, ops[..|ops| - 1]);
      StepInv(Run(Start(capacity), ops[..|ops| - 1]), ops[|ops| - 1]);
    } else {
      assert Expand(Items([])) + Holes(0) == [];
    }
  }

  /** The last enabling or disabling step so far is an enabling one. */
  ghost predicate SwitchedOn(ops: seq<Op>) {
    exists j :: 0 <= j < |ops| && ops[j] == EnableOp(true) && forall i :: j < i < |ops| ==> !ops[i].EnableOp?
  }

  /** The changes reported while the bus was switched on, in order, read off the steps alone. */
  ghost function Heard(ops: seq<Op>): seq<Change> {
    if ops == [] then [] else
      var n := |ops| - 1;
      Heard(ops[..n]) + if ops[n].EmitOp? && SwitchedOn(ops[..n]) then [ops[n].change] else []
  }

  lemma {:induction false} SwitchedOnSnoc(ops: seq<Op>)
    requires ops != []
    ensures var n := |ops| - 1;
            SwitchedOn(ops) <==> if ops[n].EnableOp? then ops[n].on else SwitchedOn(ops[..n])
  {
    var n := |ops| - 1;
    var init := ops[..n];
    if ops[n].EnableOp? {
      if ops[n].on { assert ops[n] == EnableOp(true); }
    } else {
      if SwitchedOn(init) {
        var j :| 0 <= j < n && init[j] == EnableOp(true) && forall i :: j < i < n ==> !init[i].EnableOp?;
        assert ops[j] == EnableOp(true);
        assert forall i :: j < i < n ==> ops[i] == init[i];
      }
      if SwitchedOn(ops) {
        var j :| 0 <= j < |ops| && ops[j] == EnableOp(true) && forall i :: j < i < |ops| ==> !ops[i].EnableOp?;
        assert init[j] == EnableOp(true);
        assert forall i :: j < i < n ==> init[i] == ops[i];
      }
    }
  }

  /** In every run the bus takes in exactly the changes reported while it was switched on. */
  lemma {:induction false} EmittedIsHeard(capacity: nat, ops: seq<Op>)
    ensures var t := Run(Start(capacity), ops); t.emitted == Heard(ops) && (t.bus.enabled <==> SwitchedOn(ops))
  {
    hide SwitchedOn, Sent;
    if ops == [] {
      NeverSwitched();
    } else {
      var n := |ops| - 1;
      EmittedIsHeard(capacity, ops[..n]);
      SwitchedOnSnoc(ops);
      assert Heard(ops[..n]) + [] == Heard(ops[..n]);
    }
  }

  lemma NeverSwitched()
    ensures !SwitchedOn([])
  {
  }

  /** In every run an accepted event that reports losses is a notice at the root and nothing else; one
    * that reports none is a change that some emit reported. */
  lemma {:induction false} NoticesAre(capacity: nat, ops: seq<Op>, k: nat)
    requires k < |Run(Start(capacity), ops).log|
    ensures var e := Run(Start(capacity), ops).log[k];
            if e.droppedCount > 0 then e.change == Change(EventsDropped, "/", None) else EmitOp(e.change) in ops
  {
    if ops != [] {
      var n := |ops| - 1;
      var t := Run(Start(capacity), ops[..n]);
      RunInv(capacity, ops[..n]);
      assert ops == ops[..n] + [ops[n]];
      if k < |t.log| { NoticesAre(capacity, ops[..n], k); }
    }
  }

  /** Once the receiver is gone nothing waits and nothing is accepted any more. */
  lemma {:induction false} ClosedAcceptsNothing(capacity: nat, ops: seq<Op>, k: nat)
    requires k < |ops| && ops[k] == CloseOp
    ensures var t := Run(Start(capacity), ops);
            !t.bus.open && t.bus.queue == [] && t.log == Run(Start(capacity), ops[..k]).log
    decreases |ops|
  {
    hide Step;
    var n := |ops| - 1;
    ClosedStep(Run(Start(capacity), ops[..n]), ops[n]);
    if k < n {
      ClosedAcceptsNothing(capacity, ops[..n], k);
      assert ops[..n][..k] == ops[..k];
    }
  }

  lemma {:induction false} ClosedStep(t: BusTrace, op: Op)
    ensures op == CloseOp || (!t.bus.open && t.bus.queue == []) ==>
              !Step(t, op).bus.open && Step(t, op).bus.queue == [] && Step(t, op).log == t.log
  {
    assert t.log + [] == t.log && t.bus.queue + [] == t.bus.queue;
  }

  /** Without a disabling step nothing is discarded. */
  lemma {:induction false} NoDisableNoDiscard(capacity: nat, ops: seq<Op>)
    requires EnableOp(false) !in ops
    ensures Run(Start(capacity), ops).discarded == 0
  {
    if ops != [] {
      var n := |ops| - 1;
      assert ops[n] in ops;
      NoDisableNoDiscard(capacity, ops[..n]);
    }
  }

  lemma {:induction false} SerialisedGapsExact(capacity: nat, ops: seq<Op>)
    requires EnableOp(false) !in ops
    ensures GapsExact(Run(Start(capacity), ops).log)
  {
    RunInv(capacity, ops);
    NoDisableNoDiscard(capacity, ops);
  }

  // ---------------------------------------------------------------- what disabling costs

  /** The losses that an accepted event reports. */
  function Losses(e: FileEvent): nat { e.droppedCount }

  /** Numbers skipped without a report: before each accepted event, and after the last one. */
  function Unexplained(log: seq<FileEvent>): int {
    if log == [] then 0 else
      var n := |log| - 1;
      Unexplained(log[..n]) + (log[n].sequence - Before(log, n) - 1 - log[n].droppedCount)
  }

  lemma {:induction false} LogTelescopes(log: seq<FileEvent>)
    ensures Before(log, |log|) == |log| + Sum(Losses, log) + Unexplained(log)
  {
    if log != [] { LogTelescopes(log[..|log| - 1]); }
  }

  lemma {:induction false} EmitReports(b: Bus, log: seq<FileEvent>, c: Change)
    requires b.enabled && |b.queue| <= b.capacity
    ensures var b', log' := Emit(b, c), log + Sent(b, c);
            b'.sequence - |log'| - Sum(Losses, log') - b'.dropped == b.sequence - |log| - Sum(Losses, log) - b.dropped
  {
    hide Sum;
    var sent := Sent(b, c);
    if sent == [] {
      assert log + sent == log;
    } else {
      SumSnoc(Losses, log, sent[0]);
      if |sent| == 2 {
        SumSnoc(Losses, log + [sent[0]], sent[1]);
        assert log + sent == log + [sent[0]] + [sent[1]];
      }
    }
  }

  /** Serial conservation of numbers: accepted, reported, counted or discarded. */
  lemma {:induction false} SerialNumbers(capacity: nat, ops: seq<Op>)
    ensures var t := Run(Start(capacity), ops);
            t.bus.sequence == |t.log| + Sum(Losses, t.log) + t.bus.dropped + t.discarded
  {
    hide Sum, Emit, Sent;
    if ops == [] {
      LogTelescopes([]);
    } else {
      var n := |ops| - 1;
      SerialNumbers(capacity, ops[..n]);
      RunInv(capacity, ops[..n]);
      var t := Run(Start(capacity), ops[..n]);
      if ops[n].EmitOp? {
        if t.bus.enabled { EmitReports(t.bus, t.log, ops[n].change); } else { DisabledEmit(t, ops[n].change); }
      }
    }
  }

  lemma DisabledEmit(t: BusTrace, c: Change)
    requires !t.bus.enabled
    ensures Step(t, EmitOp(c)) == t
  {
    assert t.log + [] == t.log;
  }

  /** What disabling discards is exactly what the numbers skip without a report. */
  lemma {:induction false} DiscardedIsUnexplained(capacity: nat, ops: seq<Op>)
    ensures var t := Run(Start(capacity), ops);
            t.discarded == Unexplained(t.log) + (t.bus.sequence - Before(t.log, |t.log|) - t.bus.dropped)
  {
    hide Run;
    SerialNumbers(capacity, ops);
    LogTelescopes(Run(Start(capacity), ops).log);
  }

  lemma {:induction false} ExactIsExplained(log: seq<FileEvent>)
    requires GapsExact(log)
    ensures Unexplained(log) == 0
  {
    if log != [] {
      var n := |log| - 1;
      assert ExactAt(log, n);
      forall i | 0 <= i < n ensures ExactAt(log[..n], i) { assert ExactAt(log, i); }
      ExactIsExplained(log[..n]);
    }
  }

  /** Step k disables the bus while it holds a drop count. */
  ghost predicate Discards(capacity: nat, ops: seq<Op>, k: nat)
    requires k < |ops|
  {
    ops[k] == EnableOp(false) && Run(Start(capacity), ops[..k]).bus.dropped > 0
  }

  lemma {:induction false} DiscardsPrefix(capacity: nat, ops: seq<Op>, n: nat)
    requires n <= |ops|
    ensures forall k :: 0 <= k < n ==> (Discards(capacity, ops[..n], k) <==> Discards(capacity, ops, k))
  {
    forall k | 0 <= k < n ensures Discards(capacity, ops[..n], k) <==> Discards(capacity, ops, k) {
      assert ops[..n][..k] == ops[..k];
    }
  }

  lemma {:induction false} DiscardedIff(capacity: nat, ops: seq<Op>)
    ensures Run(Start(capacity), ops).discarded == 0 <==> forall k :: 0 <= k < |ops| ==> !Discards(capacity, ops, k)
  {
    if ops != [] {
      var n := |ops| - 1;
      DiscardedIff(capacity, ops[..n]);
      DiscardsPrefix(capacity, ops, n);
      assert Discards(capacity, ops, n)
        <==> Run(Start(capacity), ops).discarded > Run(Start(capacity), ops[..n]).discarded;
    }
  }

  /** In every serialised run: all gaps are exact, the open one at the end included, iff no step
    * disabled the bus while it held a drop count. */
  lemma {:induction false} GapsExactIff(capacity: nat, ops: seq<Op>)
    ensures var t := Run(Start(capacity), ops);
            (GapsExact(t.log) && t.bus.sequence == Before(t.log, |t.log|) + t.bus.dropped)
              <==> forall k :: 0 <= k < |ops| ==> !Discards(capacity, ops, k)
  {
    hide Run, GapsExact, Discards;
    var t := Run(Start(capacity), ops);
    RunInv(capacity, ops);
    DiscardedIsUnexplained(capacity, ops);
    if GapsExact(t.log) { ExactIsExplained(t.log); }
    DiscardedIff(capacity, ops);
  }

  /** Accepting is what exposes a discarded count: the gap is exact iff none is outstanding. */
  lemma {:induction false} AcceptedGapIff(b: Bus, log: seq<FileEvent>, c: Change)
    requires Sent(b, c) != []
    ensures GapsExact(log + Sent(b, c)) <==> GapsExact(log) && b.sequence == Before(log, |log|) + b.dropped
  {
    var sent := Sent(b, c);
    var log' := log + sent;
    forall i | 0 <= i < |log| ensures ExactAt(log', i) == ExactAt(log, i) {}
    assert ExactAt(log', |log|) <==> b.sequence == Before(log, |log|) + b.dropped;
    if |sent| == 2 { assert ExactAt(log', |log| + 1); }
    if GapsExact(log') {
      assert ExactAt(log', |log|);
      forall i | 0 <= i < |log| ensures ExactAt(log, i) { assert ExactAt(log', i); }
    }
  }

  lemma {:induction false} LogGrows(capacity: nat, ops: seq<Op>, k: nat)
    requires k <= |ops|
    ensures |Run(Start(capacity), ops[..k]).log| <= |Run(Start(capacity), ops).log|
    decreases |ops|
  {
    if k == |ops| {
      assert ops[..k] == ops;
    } else {
      var n := |ops| - 1;
      assert ops[..n][..k] == ops[..k];
      LogGrows(capacity, ops[..n], k);
    }
  }

  /** Step k throws a count away and some event is accepted later. */
  ghost predicate Exposed(capacity: nat, ops: seq<Op>, k: nat)
    requires k < |ops|
  {
    Discards(capacity, ops, k) && |Run(Start(capacity), ops[..k]).log| < |Run(Start(capacity), ops).log|
  }

  /** The last step exposes nothing new, unless it accepts something: then it exposes every discard. */
  lemma {:induction false} ExposedStep(capacity: nat, ops: seq<Op>, k: nat)
    requires k < |ops|
    ensures var n := |ops| - 1; var init := ops[..n];
            var longer := |Run(Start(capacity), ops).log| > |Run(Start(capacity), init).log|;
            && (k < n && !longer ==> (Exposed(capacity, ops, k) <==> Exposed(capacity, init, k)))
            && (k < n && longer ==> (Exposed(capacity, ops, k) <==> Discards(capacity, init, k)))
            && (k == n ==> !Exposed(capacity, ops, k))
  {
    hide Emit, Sent;
    var n := |ops| - 1;
    LogGrows(capacity, ops, n);
    if k < n {
      DiscardsPrefix(capacity, ops, n);
      LogGrows(capacity, ops[..n], k);
      assert ops[..n][..k] == ops[..k];
    }
  }

  /** The receiver's view, in every serialised run: each pair of consecutive accepted events has the
    * exact gap iff nothing was accepted after a step that disabled the bus while it held a count. */
  lemma {:induction false} LogGapsExactIff(capacity: nat, ops: seq<Op>)
    ensures GapsExact(Run(Start(capacity), ops).log) <==> forall k :: 0 <= k < |ops| ==> !Exposed(capacity, ops, k)
  {
    hide GapsExact, Discards, Exposed, Run, Step;
    if ops == [] {
      EmptyLog(capacity);
    } else {
      var n := |ops| - 1;
      var t := Run(Start(capacity), ops[..n]);
      LogGapsExactIff(capacity, ops[..n]);
      ExposedStep(capacity, ops, n);
      LastStep(capacity, ops);
      if ops[n].EmitOp? && Sent(t.bus, ops[n].change) != [] {
        AcceptedGapIff(t.bus, t.log, ops[n].change);
        GapsExactIff(capacity, ops[..n]);
        forall k | 0 <= k < n ensures Exposed(capacity, ops, k) <==> Discards(capacity, ops[..n], k) {
          ExposedStep(capacity, ops, k);
        }
      } else {
        assert t.log + [] == t.log;
        forall k | 0 <= k < n ensures Exposed(capacity, ops, k) <==> Exposed(capacity, ops[..n], k) {
          ExposedStep(capacity, ops, k);
        }
      }
    }
  }

  lemma EmptyLog(capacity: nat)
    ensures GapsExact(Run(Start(capacity), []).log)
  {
  }

  lemma {:induction false} LastStep(capacity: nat, ops: seq<Op>)
    requires ops != []
    ensures var n := |ops| - 1; var t := Run(Start(capacity), ops[..n]);
            Run(Start(capacity), ops).log == t.log + if ops[n].EmitOp? then Sent(t.bus, ops[n].change) else []
  {
    hide Sent, Emit;
    var t := Run(Start(capacity), ops[..|ops| - 1]);
    assert t.log + [] == t.log;
  }
}
