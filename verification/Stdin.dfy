/** Interactive process stdin: a byte queue with a closed flag and room for one waker. */
module Stdin {
  import opened Prelude
  import opened Wire

  /** Reader identities stand for wakers. */
  type Reader = nat

  datatype Pipe = Pipe(data: seq<byte>, closed: bool, waker: Option<Reader>)

  datatype Poll = ReadyBytes(bytes: seq<byte>) | PendingRead

  // ---------------------------------------------------------------- the object

  class InteractiveStdin {
    var data: seq<byte>
    var closed: bool
    var waker: Option<Reader>

    ghost function State(): Pipe
      reads this
    {
      Pipe(data, closed, waker)
    }

    constructor ()
      ensures State() == Pipe([], false, None)
    {
      data, closed, waker := [], false, None;
    }

    /** False stands for the error "process stdin is closed"; `woken` is the waker that was woken. */
    method Write(bytes: seq<byte>) returns (ok: bool, woken: Option<Reader>)
      modifies this
      ensures ok == !old(closed)
      ensures State() == if ok then WriteTo(old(State()), bytes) else old(State())
      ensures woken == if ok then old(waker) else None
    {
      if closed { return false, None; }
      data := data + bytes;
      ok, woken, waker := true, waker, None;
    }

    method Close() returns (woken: Option<Reader>)
      modifies this
      ensures State() == CloseOf(old(State())) && woken == old(waker)
    {
      closed := true;
      woken, waker := waker, None;
    }

    method PollRead(reader: Reader, remaining: nat) returns (p: Poll)
      modifies this
      ensures (State(), p) == ReadFrom(old(State()), reader, remaining)
    {
      if remaining == 0 { return ReadyBytes([]); }
      if data == [] && closed { return ReadyBytes([]); }
      if data == [] {
        waker := Some(reader);
        return PendingRead;
      }
      var n := Min(remaining, |data|);
      p := ReadyBytes(data[..n]);
      data := data[n..];
    }

    /** Ready(n) reports how much can be read: n bytes, or 0 at end of file. */
    method PollReadReady(reader: Reader) returns (ready: Option<nat>)
      modifies this
      ensures (State(), ready) == ReadyOf(old(State()), reader)
    {
      if data != [] { return Some(|data|); }
      if closed { return Some(0); }
      waker := Some(reader);
      ready := None;
    }
  }

  // ---------------------------------------------------------------- the operations, as functions

  function WriteTo(p: Pipe, bytes: seq<byte>): Pipe { Pipe(p.data + bytes, p.closed, None) }

  function CloseOf(p: Pipe): Pipe { Pipe(p.data, true, None) }

  function ReadFrom(p: Pipe, reader: Reader, remaining: nat): (Pipe, Poll) {
    if remaining == 0 then (p, ReadyBytes([]))
    else if p.data == [] then
      if p.closed then (p, ReadyBytes([])) else (p.(waker := Some(reader)), PendingRead)
    else
      var n := Min(remaining, |p.data|);
      (p.(data := p.data[n..]), ReadyBytes(p.data[..n]))
  }

  function ReadyOf(p: Pipe, reader: Reader): (Pipe, Option<nat>) {
    if p.data != [] then (p, Some(|p.data|))
    else if p.closed then (p, Some(0))
    else (p.(waker := Some(reader)), None)
  }

  // ---------------------------------------------------------------- runs

  datatype Op = WriteOp(bytes: seq<byte>) | CloseOp | ReadOp(reader: Reader, remaining: nat) | ReadyOp(reader: Reader)

  /** `written`: bytes of successful writes; `got`: bytes handed to readers, both in order;
    * `asleep`: readers whose last poll was pending and who were not woken since. */
  datatype Trace = Trace(pipe: Pipe, written: seq<byte>, got: seq<byte>, asleep: set<Reader>)

  const START: Trace := Trace(Pipe([], false, None), [], [], {})

  function Wake(asleep: set<Reader>, waker: Option<Reader>): set<Reader> {
    if waker.Some? then asleep - {waker.value} else asleep
  }

  function Step(t: Trace, op: Op): Trace {
    match op
    case WriteOp(bytes) =>
      if t.pipe.closed then t
      else t.(pipe := WriteTo(t.pipe, bytes), written := t.written + bytes, asleep := Wake(t.asleep, t.pipe.waker))
    case CloseOp => t.(pipe := CloseOf(t.pipe), asleep := Wake(t.asleep, t.pipe.waker))
    case ReadOp(r, n) =>
      var (pipe, poll) := ReadFrom(t.pipe, r, n);
      if poll.PendingRead? then t.(pipe := pipe, asleep := t.asleep + {r})
      else t.(pipe := pipe, got := t.got + poll.bytes, asleep := t.asleep - {r})
    case ReadyOp(r) =>
      var (pipe, ready) := ReadyOf(t.pipe, r);
      t.(pipe := pipe, asleep := if ready.None? then t.asleep + {r} else t.asleep - {r})
  }

  function Run(ops: seq<Op>): Trace {
    if ops == [] then START else Step(Run(ops[..|ops| - 1]), ops[|ops| - 1])
  }

  /** The readers that take part. */
  function ReaderOf(op: Op): set<Reader> {
    match op
    case ReadOp(r, _) => {r}
    case ReadyOp(r) => {r}
    case _ => {}
  }

  ghost predicate OnlyReader(ops: seq<Op>, r: Reader) {
    forall i :: 0 <= i < |ops| ==> ReaderOf(ops[i]) <= {r}
  }

  /** Bytes come out in the order they went in, each once, and none is lost: any number of readers. */
  lemma {:induction false} LosslessFifo(ops: seq<Op>)
    ensures Run(ops).got + Run(ops).pipe.data == Run(ops).written
  {
    if ops != [] {
      var n := |ops| - 1;
      LosslessFifo(ops[..n]);
      var t := Run(ops[..n]);
      match ops[n]
      case ReadOp(r, k) =>
        var m := Min(k, |t.pipe.data|);
        assert t.pipe.data == t.pipe.data[..m] + t.pipe.data[m..];
        assert t.got + t.pipe.data == t.got + t.pipe.data[..m] + t.pipe.data[m..];
        assert t.got + [] == t.got;
      case WriteOp(b) => assert t.got + (t.pipe.data + b) == (t.got + t.pipe.data) + b;
      case _ =>
    }
  }

  /** A read with room to read returns no bytes iff everything was read and the pipe is closed. */
  lemma EndOfFileIff(p: Pipe, reader: Reader, remaining: nat)
    requires remaining > 0
    ensures ReadFrom(p, reader, remaining).1 == ReadyBytes([]) <==> p.data == [] && p.closed
  {
    if p.data != [] { assert |p.data[..Min(remaining, |p.data|)]| > 0; }
  }

  /** A read is pending iff it has room, the pipe is empty and open; otherwise it hands out the oldest
    * bytes, as many as there are up to its room, and leaves the others. */
  lemma {:induction false} ReadIs(p: Pipe, reader: Reader, remaining: nat)
    ensures var (p', poll) := ReadFrom(p, reader, remaining);
            && (poll.PendingRead? <==> remaining > 0 && p.data == [] && !p.closed)
            && (poll.PendingRead? ==> p'.data == [] && p'.waker == Some(reader))
            && (poll.ReadyBytes? ==>
                  && poll.bytes + p'.data == p.data && |poll.bytes| == Min(remaining, |p.data|) && p'.waker == p.waker)
            && p'.closed == p.closed
  {
    if remaining == 0 { assert Min(0, |p.data|) == 0 && [] + p.data == p.data; }
  }

  /** poll_read_ready tells what a read would do: n bytes if it has room for them, end of file, or
    * pending. */
  lemma {:induction false} ReadyPredictsRead(p: Pipe, reader: Reader, remaining: nat)
    requires remaining > 0
    ensures var ready := ReadyOf(p, reader).1; var poll := ReadFrom(p, reader, remaining).1;
            && (ready.None? <==> poll.PendingRead?)
            && (ready.Some? ==> poll.ReadyBytes? && |poll.bytes| == Min(remaining, ready.value))
            && (ready == Some(0) <==> poll == ReadyBytes([]))
            && ReadyOf(p, reader).0 == (if ready.None? then p.(waker := Some(reader)) else p)
  {
    ReadIs(p, reader, remaining);
  }

  /** The bytes of the writes made before the first close, read off the steps alone. */
  function WrittenWhileOpen(ops: seq<Op>): seq<byte> {
    if ops == [] then [] else
      var n := |ops| - 1;
      WrittenWhileOpen(ops[..n]) + if ops[n].WriteOp? && CloseOp !in ops[..n] then ops[n].bytes else []
  }

  /** In every run exactly the writes before the first close succeed. */
  lemma {:induction false} WritesSucceedUntilClose(ops: seq<Op>)
    ensures Run(ops).written == WrittenWhileOpen(ops) && (Run(ops).pipe.closed <==> CloseOp in ops)
  {
    if ops != [] {
      var n := |ops| - 1;
      WritesSucceedUntilClose(ops[..n]);
      assert ops == ops[..n] + [ops[n]];
      assert Run(ops[..n]).written + [] == Run(ops[..n]).written;
    }
  }

  /** A single reader never misses a wake-up: asleep means there is nothing to read, the pipe is
    * open, and the next write or close holds its waker. */
  lemma {:induction false} NoLostWakeup(ops: seq<Op>, r: Reader)
    requires OnlyReader(ops, r)
    ensures var t := Run(ops);
            && t.asleep <= {r}
            && (t.asleep != {} ==> t.pipe.data == [] && !t.pipe.closed && t.pipe.waker == Some(r))
  {
    if ops != [] {
      var n := |ops| - 1;
      NoLostWakeup(ops[..n], r);
      assert ReaderOf(ops[n]) <= {r};
      match ops[n]
      case ReadOp(x, _) => assert x in {r};
      case ReadyOp(x) => assert x in {r};
      case _ =>
    }
  }

  // ---------------------------------------------------------------- several readers

  /** With two readers the single waker slot is not enough: the first stays asleep over its data. */
  lemma SecondReaderStealsWaker(r: Reader, r': Reader, bytes: seq<byte>)
    requires r != r' && bytes != []
    ensures var t := Step(Step(Step(START, ReadOp(r, 1)), ReadOp(r', 1)), WriteOp(bytes));
            r in t.asleep && r' !in t.asleep && t.pipe.data != []
  {
  }

  /** Step k is a poll that finds nothing and stores its waker. */
  predicate Pends(ops: seq<Op>, k: nat)
    requires k < |ops|
  {
    var p := Run(ops[..k]).pipe;
    p.data == [] && !p.closed && (ops[k].ReadyOp? || (ops[k].ReadOp? && ops[k].remaining > 0))
  }

  /** Step k takes the stored waker: a close, or a write that succeeds. */
  predicate Wakes(ops: seq<Op>, k: nat)
    requires k < |ops|
  {
    ops[k].CloseOp? || (ops[k].WriteOp? && !Run(ops[..k]).pipe.closed)
  }

  /** Between steps k and w nothing stores or takes a waker. */
  ghost predicate Undisturbed(ops: seq<Op>, k: nat, w: nat)
    requires w <= |ops|
  {
    forall j :: k < j < w ==> !Pends(ops, j) && !Wakes(ops, j)
  }

  /** The waker stored at step k is the one that the next waking step finds. */
  ghost predicate WokenAfter(ops: seq<Op>, k: nat) {
    exists w :: k < w < |ops| && Wakes(ops, w) && Undisturbed(ops, k, w)
  }

  ghost predicate LastPoll(ops: seq<Op>, k: nat, r: Reader) {
    && k < |ops| && ReaderOf(ops[k]) == {r}
    && forall j :: k < j < |ops| ==> ReaderOf(ops[j]) != {r}
  }

  lemma {:induction false} PrefixFacts(ops: seq<Op>, n: nat)
    requires n <= |ops|
    ensures forall j :: 0 <= j < n ==> Pends(ops[..n], j) == Pends(ops, j) && Wakes(ops[..n], j) == Wakes(ops, j)
  {
    forall j | 0 <= j < n ensures Pends(ops[..n], j) == Pends(ops, j) && Wakes(ops[..n], j) == Wakes(ops, j) {
      assert ops[..n][..j] == ops[..j];
    }
  }

  /** What one step does to a reader that does not take part in it. */
  lemma {:induction false} OthersStep(ops: seq<Op>, r: Reader)
    requires ops != [] && ReaderOf(ops[|ops| - 1]) != {r}
    ensures var n := |ops| - 1; var t, t' := Run(ops[..n]), Run(ops);
            && (r in t'.asleep <==> r in t.asleep && !(Wakes(ops, n) && t.pipe.waker == Some(r)))
            && (t'.pipe.waker == Some(r) <==> t.pipe.waker == Some(r) && !Wakes(ops, n) && !Pends(ops, n))
  {
  }

  lemma {:induction false} UndisturbedSnoc(ops: seq<Op>, k: nat)
    requires k < |ops| - 1
    ensures var n := |ops| - 1;
            && (Undisturbed(ops, k, n) <==> Undisturbed(ops[..n], k, n))
            && (Undisturbed(ops, k, |ops|) <==> Undisturbed(ops[..n], k, n) && !Pends(ops, n) && !Wakes(ops, n))
            && (WokenAfter(ops, k) <==> WokenAfter(ops[..n], k) || (Wakes(ops, n) && Undisturbed(ops[..n], k, n)))
  {
    hide Pends, Wakes;
    var n := |ops| - 1;
    var init := ops[..n];
    PrefixFacts(ops, n);
    forall w | 0 <= w <= n ensures Undisturbed(ops, k, w) <==> Undisturbed(init, k, w) {
      if Undisturbed(ops, k, w) {
        forall j | k < j < w ensures !Pends(init, j) && !Wakes(init, j) { assert !Pends(ops, j); }
      }
      if Undisturbed(init, k, w) {
        forall j | k < j < w ensures !Pends(ops, j) && !Wakes(ops, j) { assert !Pends(init, j); }
      }
    }
  }

  lemma {:induction false} FateOfPoll(ops: seq<Op>, k: nat, r: Reader)
    requires LastPoll(ops, k, r)
    ensures r in Run(ops).asleep <==> Pends(ops, k) && !WokenAfter(ops, k)
    ensures Pends(ops, k) ==> (Run(ops).pipe.waker == Some(r) <==> Undisturbed(ops, k, |ops|))
    decreases |ops|
  {
    var n := |ops| - 1;
    if k < n {
      hide Run, Undisturbed, WokenAfter, Pends, Wakes;
      FateOfPoll(ops[..n], k, r);
      PrefixFacts(ops, n);
      OthersStep(ops, r);
      UndisturbedSnoc(ops, k);
    } else {
      assert r in ReaderOf(ops[k]);
    }
  }

  lemma {:induction false} NeverPolled(ops: seq<Op>, r: Reader)
    requires forall j :: 0 <= j < |ops| ==> ReaderOf(ops[j]) != {r}
    ensures r !in Run(ops).asleep
  {
    if ops != [] {
      hide Run;
      NeverPolled(ops[..|ops| - 1], r);
      OthersStep(ops, r);
    } else {
      assert Run(ops) == START;
    }
  }

  lemma {:induction false} LastPollExists(ops: seq<Op>, r: Reader)
    ensures (exists k: nat :: LastPoll(ops, k, r)) || forall j :: 0 <= j < |ops| ==> ReaderOf(ops[j]) != {r}
  {
    if ops != [] {
      var n := |ops| - 1;
      LastPollExists(ops[..n], r);
      if ReaderOf(ops[n]) == {r} {
        assert LastPoll(ops, n, r);
      } else if k: nat :| LastPoll(ops[..n], k, r) {
        assert ops[..n][k] == ops[k];
        forall j | k < j < |ops| ensures ReaderOf(ops[j]) != {r} { if j < n { assert ops[..n][j] == ops[j]; } }
        assert LastPoll(ops, k, r);
      } else {
        forall j | 0 <= j < n ensures ReaderOf(ops[j]) != {r} { assert ops[..n][j] == ops[j]; }
      }
    }
  }

  /** Any number of readers, any run: a reader is asleep iff its last poll was pending and either no
    * write or close came since, or another reader's pending poll took the slot before the first one. */
  lemma {:induction false} AsleepIff(ops: seq<Op>, r: Reader)
    ensures r in Run(ops).asleep <==> exists k: nat :: LastPoll(ops, k, r) && Pends(ops, k) && !WokenAfter(ops, k)
  {
    hide Run, Pends, WokenAfter;
    LastPollExists(ops, r);
    if k: nat :| LastPoll(ops, k, r) {
      FateOfPoll(ops, k, r);
      forall l: nat | LastPoll(ops, l, r) ensures l == k {}
    } else {
      NeverPolled(ops, r);
    }
  }
}
