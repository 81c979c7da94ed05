/** Bounded capture of process output with a sticky overflow flag. */
module Capture {
  import opened Prelude
  import opened Wire

  datatype Buffer = Buffer(data: seq<byte>, limit: nat, exceeded: bool)

  datatype WriteResult = Wrote(n: nat) | LimitError

  // ---------------------------------------------------------------- the operations, as functions

  function Write(b: Buffer, buf: seq<byte>): (Buffer, WriteResult)
    requires |b.data| <= b.limit
  {
    if buf == [] then (b, Wrote(0))
    else if b.exceeded then (b, LimitError)
    else if |b.data| == b.limit then (b.(exceeded := true), LimitError)
    else
      var n := Min(b.limit - |b.data|, |buf|);
      (b.(data := b.data + buf[..n], exceeded := n < |buf|), Wrote(n))
  }

  /** Asking whether a full buffer can take more counts as exceeding it. */
  function PollWriteReady(b: Buffer): Buffer
    requires |b.data| <= b.limit
  {
    if |b.data| == b.limit then b.(exceeded := true) else b
  }

  function Zeros(n: nat): seq<byte> { seq(n, _ => 0) }

  function SetLen(b: Buffer, size: nat): Buffer {
    if size > b.limit then b.(exceeded := true)
    else if size <= |b.data| then b.(data := b.data[..size])
    else b.(data := b.data + Zeros(size - |b.data|))
  }

  // ---------------------------------------------------------------- the object

  datatype Captured = Output(bytes: seq<byte>) | OutputExceeded

  class LimitedCaptureFile {
    var data: seq<byte>
    var exceeded: bool
    var cursor: nat
    const limit: nat

    ghost predicate Valid()
      reads this
    {
      |data| <= limit
    }

    ghost function State(): Buffer
      reads this
    {
      Buffer(data, limit, exceeded)
    }

    constructor (limit: nat)
      ensures Valid() && State() == Buffer([], limit, false) && cursor == 0
    {
      this.limit := limit;
      data, exceeded, cursor := [], false, 0;
    }

    method WriteLimited(buf: seq<byte>) returns (r: WriteResult)
      requires Valid()
      modifies this
      ensures Valid() && (State(), r) == Write(old(State()), buf)
      ensures cursor == if r.Wrote? && buf != [] then |data| else old(cursor)
    {
      if buf == [] { return Wrote(0); }
      if exceeded { return LimitError; }
      var available := limit - |data|;
      if available == 0 {
        exceeded := true;
        return LimitError;
      }
      var n := Min(available, |buf|);
      data := data + buf[..n];
      cursor := |data|;
      if n < |buf| { exceeded := true; }
      r := Wrote(n);
    }

    /** How many bytes a writer may offer next, or the limit error. */
    method WriteReady() returns (r: WriteResult)
      requires Valid()
      modifies this`exceeded
      ensures Valid() && State() == PollWriteReady(old(State()))
      ensures r == if exceeded then LimitError else Wrote(Min(limit - |data|, 8192))
    {
      if exceeded { return LimitError; }
      var remaining := limit - |data|;
      if remaining == 0 {
        exceeded := true;
        return LimitError;
      }
      r := Wrote(Min(remaining, 8192));
    }

    method Resize(size: nat) returns (ok: bool)
      requires Valid()
      modifies this
      ensures Valid() && State() == SetLen(old(State()), size) && ok == (size <= limit)
      ensures ok ==> cursor == Min(old(cursor), size)
    {
      if size > limit {
        exceeded := true;
        return false;
      }
      data := if size <= |data| then data[..size] else data + Zeros(size - |data|);
      cursor := Min(cursor, size);
      ok := true;
    }

    method CaptureOutput() returns (c: Captured)
      ensures c == if exceeded then OutputExceeded else Output(data)
    {
      c := if exceeded then OutputExceeded else Output(data);
    }
  }

  // ---------------------------------------------------------------- runs

  datatype Op = WriteOp(buf: seq<byte>) | ReadyOp | ResizeOp(size: nat)

  function Step(b: Buffer, op: Op): (b': Buffer)
    requires |b.data| <= b.limit
    ensures |b'.data| <= b'.limit == b.limit
    ensures b.exceeded ==> b'.exceeded
  {
    match op
    case WriteOp(buf) => Write(b, buf).0
    case ReadyOp => PollWriteReady(b)
    case ResizeOp(n) => SetLen(b, n)
  }

  /** Whatever is mixed into a run, the size stays within the limit. */
  function Run(limit: nat, ops: seq<Op>): (b: Buffer)
    ensures |b.data| <= b.limit == limit
  {
    if ops == [] then Buffer([], limit, false) else Step(Run(limit, ops[..|ops| - 1]), ops[|ops| - 1])
  }

  /** Once set, the flag stays set through any continuation of a run. */
  lemma {:induction false} ExceededIsSticky(limit: nat, ops: seq<Op>, more: seq<Op>)
    requires Run(limit, ops).exceeded
    ensures Run(limit, ops + more).exceeded
  {
    if more == [] {
      assert ops + more == ops;
    } else {
      var n := |more| - 1;
      assert (ops + more)[..|ops| + n] == ops + more[..n];
      ExceededIsSticky(limit, ops, more[..n]);
    }
  }

  /** A write reports exactly the bytes it stored, and reports an error iff it had bytes to store and
    * the buffer was full or had overflowed before. */
  lemma {:induction false} WriteReportsItsBytes(b: Buffer, buf: seq<byte>)
    requires |b.data| <= b.limit
    ensures var (b', r) := Write(b, buf);
            && (r.LimitError? <==> buf != [] && (b.exceeded || |b.data| == b.limit))
            && (r.Wrote? ==> r.n <= |buf| && b'.data == b.data + buf[..r.n] && (r.n < |buf| ==> |b'.data| == b.limit))
            && (r.LimitError? ==> b'.data == b.data)
            && (b'.exceeded <==> b.exceeded || |b.data| + |buf| > b.limit)
  {
    if buf == [] { assert b.data + buf[..0] == b.data; }
  }

  /** A resize within the limit keeps the bytes up to the new size and fills up with zeros. */
  lemma {:induction false} ResizeIs(b: Buffer, size: nat)
    ensures var b' := SetLen(b, size);
            && (size > b.limit ==> b' == b.(exceeded := true))
            && (size <= b.limit ==>
                  && |b'.data| == size && b'.exceeded == b.exceeded
                  && forall i :: 0 <= i < size ==> b'.data[i] == if i < |b.data| then b.data[i] else 0)
  {
  }

  /** The operation asks for more than fits. */
  predicate Overflows(b: Buffer, op: Op) {
    match op
    case WriteOp(buf) => |b.data| + |buf| > b.limit
    case ReadyOp => |b.data| == b.limit
    case ResizeOp(size) => size > b.limit
  }

  lemma FlagStep(b: Buffer, op: Op)
    requires |b.data| <= b.limit
    ensures Step(b, op).exceeded <==> b.exceeded || Overflows(b, op)
  {
  }

  predicate OverflowsAt(limit: nat, ops: seq<Op>, k: nat)
    requires k < |ops|
  {
    Overflows(Run(limit, ops[..k]), ops[k])
  }

  /** In every mixed run the flag is set iff some operation asked for more than fitted at the time. */
  lemma {:induction false} ExceededIff(limit: nat, ops: seq<Op>)
    ensures Run(limit, ops).exceeded <==> exists k :: 0 <= k < |ops| && OverflowsAt(limit, ops, k)
  {
    if ops != [] {
      var n := |ops| - 1;
      var init := ops[..n];
      ExceededIff(limit, init);
      FlagStep(Run(limit, init), ops[n]);
      hide Step, Overflows;
      forall k | 0 <= k < n ensures OverflowsAt(limit, ops, k) <==> OverflowsAt(limit, init, k) {
        assert init[..k] == ops[..k];
      }
      assert OverflowsAt(limit, ops, n) <==> Overflows(Run(limit, init), ops[n]);
    }
  }

  /** Everything the process attempted to write, in order, written or not. */
  function Attempts(ops: seq<Op>): seq<byte> {
    if ops == [] then [] else
      var last := ops[|ops| - 1];
      Attempts(ops[..|ops| - 1]) + if last.WriteOp? then last.buf else []
  }

  /** A readiness poll was made when the attempts so far already filled the buffer. */
  ghost predicate PolledWhenFull(limit: nat, ops: seq<Op>) {
    exists i :: 0 <= i < |ops| && ops[i].ReadyOp? && |Attempts(ops[..i])| >= limit
  }

  predicate NoResize(ops: seq<Op>) { forall i :: 0 <= i < |ops| ==> !ops[i].ResizeOp? }

  function Cut(s: seq<byte>, limit: nat): seq<byte> { s[..Min(limit, |s|)] }

  lemma {:induction false} CutAppend(s: seq<byte>, t: seq<byte>, limit: nat)
    ensures Cut(s + t, limit) == Cut(s, limit) + t[..Min(limit - |Cut(s, limit)|, |t|)]
  {
  }

  lemma {:induction false} PolledSnoc(limit: nat, ops: seq<Op>)
    requires ops != []
    ensures var n := |ops| - 1;
            PolledWhenFull(limit, ops) <==>
              PolledWhenFull(limit, ops[..n]) || (ops[n].ReadyOp? && |Attempts(ops[..n])| >= limit)
  {
    var n := |ops| - 1;
    forall i | 0 <= i < n ensures ops[..n][i] == ops[i] && ops[..n][..i] == ops[..i] {}
  }

  lemma {:induction false} PolledMeansFull(limit: nat, ops: seq<Op>)
    ensures PolledWhenFull(limit, ops) ==> |Attempts(ops)| >= limit
  {
    if ops != [] {
      PolledSnoc(limit, ops);
      PolledMeansFull(limit, ops[..|ops| - 1]);
    }
  }

  /** Writes and polls: the data is the first `limit` bytes of the attempts, and the flag is set iff
    * something was lost or a poll found the buffer full. */
  lemma {:induction false} CaptureIsPrefix(limit: nat, ops: seq<Op>)
    requires NoResize(ops)
    ensures var b := Run(limit, ops);
            && b.data == Cut(Attempts(ops), limit)
            && (b.exceeded <==> |Attempts(ops)| > limit || PolledWhenFull(limit, ops))
  {
    if ops != [] {
      var n := |ops| - 1;
      CaptureIsPrefix(limit, ops[..n]);
      PolledSnoc(limit, ops);
      PolledMeansFull(limit, ops[..n]);
      var before := Attempts(ops[..n]);
      match ops[n]
      case WriteOp(buf) => CutAppend(before, buf, limit);
      case ReadyOp => assert before + [] == before;
    }
  }

  /** Writes only: the capture succeeds iff nothing was lost, and then it is complete. */
  lemma {:induction false} CaptureSucceedsIff(limit: nat, ops: seq<Op>)
    requires forall i :: 0 <= i < |ops| ==> ops[i].WriteOp?
    ensures !Run(limit, ops).exceeded <==> |Attempts(ops)| <= limit
    ensures !Run(limit, ops).exceeded ==> Run(limit, ops).data == Attempts(ops)
  {
    CaptureIsPrefix(limit, ops);
  }
}
