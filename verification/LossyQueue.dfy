/** The overflow discipline that the event bus and the per-handler queues share: a bounded queue,
  * a count of losses, and a notice that reports the count as soon as there is room for it. */
module LossyQueue {
  import opened Prelude

  datatype Item<+T> = Event(event: T) | Notice(count: nat)

  /** `open` is false once the receiving end is gone: then every send fails. */
  datatype Queue<+T> = Queue(items: seq<Item<T>>, dropped: nat, capacity: nat, open: bool) {
    predicate Room(n: nat) { open && |items| + n <= capacity }
  }

  /** The items that one offer appends, in order. */
  function Accepted<T>(q: Queue<T>, e: T): seq<Item<T>> {
    if q.dropped == 0 then (if q.Room(1) then [Event(e)] else [])
    else if !q.Room(1) then []
    else if q.Room(2) then [Notice(q.dropped), Event(e)]
    else [Notice(q.dropped)]
  }

  function DroppedAfter<T>(q: Queue<T>, e: T): nat {
    if q.dropped == 0 then (if q.Room(1) then 0 else 1)
    else if !q.Room(1) then q.dropped + 1
    else if q.Room(2) then 0
    else 1
  }

  function Offer<T>(q: Queue<T>, e: T): Queue<T> {
    q.(items := q.items + Accepted(q, e), dropped := DroppedAfter(q, e))
  }

  function Get<T>(q: Queue<T>): Queue<T> {
    if q.items == [] then q else q.(items := q.items[1..])
  }

  // ---------------------------------------------------------------- reconstruction

  function Holes<T>(n: nat): seq<Option<T>> { seq(n, _ => None) }

  /** The stream a receiver can rebuild: a notice of count d stands for d holes. */
  function Expand<T>(log: seq<Item<T>>): seq<Option<T>> {
    if log == [] then [] else
      var last := log[|log| - 1];
      Expand(log[..|log| - 1]) + (if last.Event? then [Some(last.event)] else Holes(last.count))
  }

  ghost predicate Matches<T>(rebuilt: seq<Option<T>>, offered: seq<T>) {
    && |rebuilt| == |offered|
    && forall i :: 0 <= i < |rebuilt| && rebuilt[i].Some? ==> rebuilt[i].value == offered[i]
  }

  /** Every offer is accounted for: received in its place, or one hole of some notice or of the count. */
  ghost predicate Accounted<T>(log: seq<Item<T>>, dropped: nat, offered: seq<T>) {
    Matches(Expand(log) + Holes(dropped), offered)
  }

  lemma {:induction false} ExpandSnoc<T>(log: seq<Item<T>>, x: Item<T>)
    ensures Expand(log + [x]) == Expand(log) + (if x.Event? then [Some(x.event)] else Holes(x.count))
  {
    assert (log + [x])[..|log|] == log;
  }

  lemma {:induction false} LoseOne<T>(log: seq<Item<T>>, dropped: nat, offered: seq<T>, e: T)
    requires Accounted(log, dropped, offered)
    ensures Accounted(log, dropped + 1, offered + [e])
  {
    hide Expand;
    var before, after := Expand(log) + Holes(dropped), Expand(log) + Holes(dropped + 1);
    assert after == before + [None];
  }

  lemma {:induction false} ReceiveOne<T>(log: seq<Item<T>>, offered: seq<T>, e: T)
    requires Accounted(log, 0, offered)
    ensures Accounted(log + [Event(e)], 0, offered + [e])
  {
    hide Expand;
    ExpandSnoc(log, Event(e));
    var rebuilt := Expand(log);
    assert rebuilt + Holes(0) == rebuilt;
    assert Expand(log + [Event(e)]) + Holes(0) == rebuilt + [Some(e)];
  }

  lemma {:induction false} Report<T>(log: seq<Item<T>>, dropped: nat, offered: seq<T>)
    requires Accounted(log, dropped, offered)
    ensures Accounted(log + [Notice(dropped)], 0, offered)
  {
    hide Expand;
    ExpandSnoc(log, Notice(dropped));
    assert Expand(log + [Notice(dropped)]) + Holes(0) == Expand(log) + Holes(dropped);
  }

  lemma {:induction false} OfferAccounts<T>(log: seq<Item<T>>, q: Queue<T>, offered: seq<T>, e: T)
    requires Accounted(log, q.dropped, offered)
    ensures Accounted(log + Accepted(q, e), DroppedAfter(q, e), offered + [e])
  {
    hide Accounted;
    var reported := log + [Notice(q.dropped)];
    assert reported + [Event(e)] == log + [Notice(q.dropped), Event(e)];
    assert log + [] == log;
    if q.dropped == 0 {
      if q.Room(1) { ReceiveOne(log, offered, e); } else { LoseOne(log, 0, offered, e); }
    } else if !q.Room(1) {
      LoseOne(log, q.dropped, offered, e);
    } else {
      Report(log, q.dropped, offered);
      if q.Room(2) { ReceiveOne(reported, offered, e); } else { LoseOne(reported, 0, offered, e); }
    }
  }

  // ---------------------------------------------------------------- runs of offers and gets

  datatype Op<+T> = Put(event: T) | Take

  /** `log` is everything ever accepted, `offered` everything ever offered, `taken` what the gets
    * handed out. */
  datatype Trace<+T> = Trace(queue: Queue<T>, log: seq<Item<T>>, offered: seq<T>, taken: seq<Item<T>>)

  function Start<T>(capacity: nat): Trace<T> {
    Trace(Queue([], 0, capacity, true), [], [], [])
  }

  function Step<T>(t: Trace<T>, op: Op<T>): Trace<T> {
    match op
    case Put(e) => Trace(Offer(t.queue, e), t.log + Accepted(t.queue, e), t.offered + [e], t.taken)
    case Take => t.(queue := Get(t.queue), taken := t.taken + if t.queue.items == [] then [] else [t.queue.items[0]])
  }

  function Run<T>(t: Trace<T>, ops: seq<Op<T>>): Trace<T> {
    if ops == [] then t else Step(Run(t, ops[..|ops| - 1]), ops[|ops| - 1])
  }

  ghost predicate Sound<T>(t: Trace<T>) {
    && t.queue.open && |t.queue.items| <= t.queue.capacity
    && Accounted(t.log, t.queue.dropped, t.offered)
    && t.taken + t.queue.items == t.log
  }

  lemma {:induction false} StepSound<T>(t: Trace<T>, op: Op<T>)
    requires Sound(t)
    ensures Sound(Step(t, op))
  {
    hide Accounted;
    match op
    case Put(e) =>
      OfferAccounts(t.log, t.queue, t.offered, e);
      var a := Accepted(t.queue, e);
      assert t.taken + (t.queue.items + a) == t.log + a;
    case Take =>
      if t.queue.items != [] { assert t.queue.items == [t.queue.items[0]] + t.queue.items[1..]; }
      assert t.taken + [] == t.taken;
  }

  /** In every interleaving of offers and gets the receiver can rebuild the offered stream up to
    * holes, the bound is kept, and what the gets handed out followed by what waits is what was
    * accepted, in order. */
  lemma {:induction false} ReconstructsEveryRun<T>(capacity: nat, ops: seq<Op<T>>)
    ensures Sound(Run(Start(capacity), ops))
  {
    if ops != [] {
      ReconstructsEveryRun(capacity, ops[..|ops| - 1]);
      StepSound(Run(Start(capacity), ops[..|ops| - 1]), ops[|ops| - 1]);
    } else {
      assert Expand<T>([]) + Holes(0) == [];
    }
  }

  // ---------------------------------------------------------------- recovery from overflow

  /** An offer delivers its event iff there is room for it and for the notice that is due; a notice that
    * is due goes first whenever there is any room; without room one more loss is counted. */
  lemma OfferDeliversIff<T>(q: Queue<T>, e: T)
    ensures var free := if q.open then q.capacity - |q.items| else 0;
            && (Event(e) in Accepted(q, e) <==> free >= if q.dropped > 0 then 2 else 1)
            && (free >= 2 ==> Offer(q, e).dropped == 0)
            && (q.dropped > 0 && free >= 1 ==> Accepted(q, e) != [] && Accepted(q, e)[0] == Notice(q.dropped))
            && (free <= 0 ==> Accepted(q, e) == [] && Offer(q, e).dropped == q.dropped + 1)
  {
    if q.Room(2) && q.dropped > 0 {
      assert Accepted(q, e)[1] == Event(e);
    } else if q.Room(1) && q.dropped == 0 {
      assert Accepted(q, e)[0] == Event(e);
    }
  }

  /** With capacity 1 the first loss is final: from then on only notices are ever accepted. */
  lemma {:induction false} CapacityOneStarves<T>(t: Trace<T>, ops: seq<Op<T>>)
    requires Sound(t) && t.queue.capacity == 1 && t.queue.dropped > 0
    ensures var t' := Run(t, ops);
            && t'.queue.capacity == 1 && t'.queue.dropped > 0
            && t.log <= t'.log
            && forall i :: |t.log| <= i < |t'.log| ==> t'.log[i].Notice?
  {
    if ops != [] {
      CapacityOneStarves(t, ops[..|ops| - 1]);
    }
  }

  /** With capacity 2 or more it is not: once drained, a queue takes the next event again. */
  lemma {:induction false} LargerCapacityRecovers<T>(q: Queue<T>, e: T)
    requires q.open && q.capacity >= 2 && q.items == []
    ensures Offer(q, e).dropped == 0 && Event(e) in Offer(q, e).items
  {
    OfferDeliversIff(q, e);
  }
}
