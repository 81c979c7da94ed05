/** The reply of a virtual executable: two encoders, the host's decoder, the launcher's view. */
module Response {
  import opened Wire

  const RESPONSE_MAGIC: seq<byte> := [0x55, 0x58, 0x52, 0x31] // "UXR1"
  const I32_MIN: int := -0x8000_0000
  const I32_MAX: int := 0x7FFF_FFFF

  /** A handler's result; Python integers and stream lengths are unbounded. */
  datatype Reply = Reply(returncode: int, stdout: seq<byte>, stderr: seq<byte>)

  predicate IsI32(n: int) { I32_MIN <= n <= I32_MAX }

  /** Two's complement, both ways. */
  function FromI32(n: int): (w: int)
    requires IsI32(n)
    ensures 0 <= w < U32
  {
    if n < 0 then n + U32 else n
  }

  function ToI32(w: int): (n: int)
    requires 0 <= w < U32
    ensures IsI32(n)
    ensures FromI32(n) == w
  {
    if w > I32_MAX then w - U32 else w
  }

  function Frame(code: int, outLen: int, errLen: int, streams: seq<byte>): seq<byte>
    requires 0 <= code < U32 && 0 <= outLen < U32 && 0 <= errLen < U32
  {
    RESPONSE_MAGIC + Le32(code) + Le32(outLen) + Le32(errLen) + streams
  }

  /** Rust: the return code is an i32 and `as u32` drops the high bits of a stream length. */
  function EncodeRust(r: Reply): seq<byte>
    requires IsI32(r.returncode)
  {
    Frame(FromI32(r.returncode), |r.stdout| % U32, |r.stderr| % U32, r.stdout + r.stderr)
  }

  /** Python: struct.pack raises when any of the three fields is out of range. */
  predicate Packs(r: Reply) {
    IsI32(r.returncode) && |r.stdout| < U32 && |r.stderr| < U32
  }

  datatype Packed = Bytes(data: seq<byte>) | StructError

  function EncodePython(r: Reply): Packed {
    if Packs(r) then Bytes(Frame(FromI32(r.returncode), |r.stdout|, |r.stderr|, r.stdout + r.stderr))
    else StructError
  }

  /** The host's decoder; `next` is the end of the bytes it looked at. */
  function Decode(data: seq<byte>): (d: Read<Reply>)
    ensures d.Got? ==> 16 <= d.next <= |data| && IsI32(d.value.returncode)
    ensures d.Got? ==> d.next == 16 + |d.value.stdout| + |d.value.stderr|
  {
    if |data| < 16 || data[..4] != RESPONSE_MAGIC then Fail(BadMagic) else
      var outLen, errLen := U32At(data, 8), U32At(data, 12);
      var end := 16 + outLen + errLen;
      if |data| < end then Fail(Truncated)
      else Got(Reply(ToI32(U32At(data, 4)), data[16..16 + outLen], data[16 + outLen..end]), end)
  }

  lemma {:induction false} FrameFields(code: int, outLen: int, errLen: int, streams: seq<byte>, suffix: seq<byte>)
    requires 0 <= code < U32 && 0 <= outLen < U32 && 0 <= errLen < U32
    ensures var data := Frame(code, outLen, errLen, streams) + suffix;
            && |data| == 16 + |streams| + |suffix| && data[..4] == RESPONSE_MAGIC
            && U32At(data, 4) == code && U32At(data, 8) == outLen && U32At(data, 12) == errLen
            && data[16..] == streams + suffix
  {
    var data := Frame(code, outLen, errLen, streams) + suffix;
    assert data[4..8] == Le32(code) && data[8..12] == Le32(outLen) && data[12..16] == Le32(errLen);
    U32AtOfLe32(code, data, 4);
    U32AtOfLe32(outLen, data, 8);
    U32AtOfLe32(errLen, data, 12);
  }

  /** The two encoders agree exactly on the replies that Python can pack. */
  lemma {:induction false} EncodersAgreeIff(r: Reply)
    requires IsI32(r.returncode)
    ensures EncodePython(r) == Bytes(EncodeRust(r)) <==> Packs(r)
  {
    hide Frame;
  }

  lemma {:induction false} DecodePacked(r: Reply, suffix: seq<byte>)
    requires Packs(r)
    ensures Decode(EncodeRust(r) + suffix) == Got(r, |EncodeRust(r)|)
  {
    hide Frame, U32At;
    var code, streams := FromI32(r.returncode), r.stdout + r.stderr;
    FrameFields(code, |r.stdout|, |r.stderr|, streams, suffix);
    FrameFields(code, |r.stdout|, |r.stderr|, streams, []);
    var data := Frame(code, |r.stdout|, |r.stderr|, streams) + suffix;
    var tail, mid := data[16..], 16 + |r.stdout|;
    assert tail[..|r.stdout|] == r.stdout && tail[|r.stdout|..|streams|] == r.stderr;
    assert data[16..mid] == tail[..|r.stdout|] && data[mid..16 + |streams|] == tail[|r.stdout|..|streams|];
  }

  lemma {:induction false} DecodeCut(r: Reply, suffix: seq<byte>)
    requires IsI32(r.returncode) && !Packs(r)
    ensures Decode(EncodeRust(r) + suffix) != Got(r, |EncodeRust(r)|)
  {
    hide Frame, U32At;
    FrameFields(FromI32(r.returncode), |r.stdout| % U32, |r.stderr| % U32, r.stdout + r.stderr, suffix);
  }

  /** The decoder inverts the Rust encoder, whatever follows, exactly when no length was cut. */
  lemma {:induction false} DecodeInvertsIff(r: Reply, suffix: seq<byte>)
    requires IsI32(r.returncode)
    ensures Packs(r) <==> Decode(EncodeRust(r) + suffix) == Got(r, |EncodeRust(r)|)
  {
    hide EncodeRust, Decode;
    if Packs(r) { DecodePacked(r, suffix); } else { DecodeCut(r, suffix); }
  }

  lemma {:induction false} CutInFive(data: seq<byte>, mid: nat, end: nat)
    requires 16 <= mid <= end <= |data|
    ensures data[..end] == data[..4] + data[4..8] + data[8..12] + data[12..16] + (data[16..mid] + data[mid..end])
  {
  }

  /** The decoder accepts only encodings of packed replies. */
  lemma {:induction false} DecodesOnlyEncodings(data: seq<byte>)
    requires Decode(data).Got?
    ensures var d := Decode(data); Packs(d.value) && EncodeRust(d.value) == data[..d.next]
  {
    hide Le32, U32At;
    var d := Decode(data);
    Le32OfU32At(data, 4);
    Le32OfU32At(data, 8);
    Le32OfU32At(data, 12);
    CutInFive(data, 16 + |d.value.stdout|, d.next);
  }

  /** The bytes of a packed reply, position by position: magic, code in two's complement, lengths, streams. */
  lemma {:induction false} ReplyLayout(r: Reply)
    requires Packs(r)
    ensures var d, n := EncodeRust(r), |r.stdout|;
            && |d| == 16 + n + |r.stderr|
            && d[..4] == [0x55, 0x58, 0x52, 0x31]
            && U32At(d, 4) == (if r.returncode < 0 then r.returncode + 0x1_0000_0000 else r.returncode)
            && U32At(d, 8) == n && U32At(d, 12) == |r.stderr|
            && d[16..16 + n] == r.stdout && d[16 + n..] == r.stderr
  {
    hide U32At, Frame;
    var d, n, streams := EncodeRust(r), |r.stdout|, r.stdout + r.stderr;
    FrameFields(FromI32(r.returncode), n, |r.stderr|, streams, []);
    assert d + [] == d && streams + [] == streams;
    assert d[16..16 + n] == d[16..][..n] && d[16 + n..] == d[16..][n..];
  }

  lemma {:induction false} DecodeExtends(data: seq<byte>, suffix: seq<byte>)
    ensures Decode(data).Got? ==> Decode(data + suffix) == Decode(data)
  {
    if Decode(data).Got? {
      var d, end := data + suffix, Decode(data).next;
      assert U32At(d, 4) == U32At(data, 4) && U32At(d, 8) == U32At(data, 8) && U32At(d, 12) == U32At(data, 12);
      hide U32At, ToI32;
      assert d[..4] == data[..4];
      assert d[..end] == data[..end];
      var mid := 16 + U32At(data, 8);
      assert d[16..mid] == data[16..mid] && d[mid..end] == data[mid..end];
    }
  }

  /** Every strict prefix of a packed reply is rejected. */
  lemma {:induction false} ReplyPrefixRejected(r: Reply, k: nat)
    requires Packs(r) && k < |EncodeRust(r)|
    ensures Decode(EncodeRust(r)[..k]).Fail?
  {
    hide EncodeRust, Decode;
    var enc := EncodeRust(r);
    DecodeInvertsIff(r, []);
    assert enc + [] == enc;
    forall d: seq<byte>, suffix: seq<byte>
      ensures Decode(d).Got? ==> Decode(d + suffix) == Decode(d)
    {
      DecodeExtends(d, suffix);
    }
    assert Extends(Decode);
    CutShortRejected(Decode, enc, k);
  }
}
