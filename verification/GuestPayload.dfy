/** The request that a launcher sends to the host: its encoding and the host's parser. */
module GuestPayload {
  import opened Wire

  const REQUEST_MAGIC: seq<byte> := [0x55, 0x58, 0x56, 0x31] // "UXV1"
  const EQUALS: byte := 0x3D
  const PWD: seq<byte> := [0x50, 0x57, 0x44]
  const ROOT: seq<byte> := [0x2F]

  /** Strings are byte sequences; stdin stands for its injective base64 text. */
  datatype Payload = Payload(
    path: seq<byte>,
    argv: seq<seq<byte>>,
    cwd: seq<byte>,
    env: map<seq<byte>, seq<byte>>,
    stdin: seq<byte>)

  // ---------------------------------------------------------------- encoding

  predicate Short(s: seq<byte>) { |s| < U32 }

  predicate AllShort(xs: seq<seq<byte>>) {
    |xs| < U32 && forall i :: 0 <= i < |xs| ==> Short(xs[i])
  }

  function EncodeString(s: seq<byte>): seq<byte>
    requires Short(s)
  {
    Le32(|s|) + s
  }

  function EncodeStrings(xs: seq<seq<byte>>): seq<byte>
    requires forall i :: 0 <= i < |xs| ==> Short(xs[i])
  {
    if xs == [] then [] else EncodeString(xs[0]) + EncodeStrings(xs[1..])
  }

  function EncodeHeader(path: seq<byte>, argc: nat, envc: nat, stdinLen: nat): seq<byte>
    requires Short(path) && argc < U32 && envc < U32 && stdinLen < U32
  {
    REQUEST_MAGIC + EncodeString(path) + Le32(argc) + Le32(envc) + Le32(stdinLen)
  }

  function EncodeGuest(path: seq<byte>, argv: seq<seq<byte>>, env: seq<seq<byte>>, stdin: seq<byte>): seq<byte>
    requires Short(path) && AllShort(argv) && AllShort(env) && Short(stdin)
  {
    EncodeHeader(path, |argv|, |env|, |stdin|) + EncodeStrings(argv) + EncodeStrings(env) + stdin
  }

  lemma {:induction false} EncodeStringsAppend(xs: seq<seq<byte>>, x: seq<byte>)
    requires forall i :: 0 <= i < |xs| ==> Short(xs[i])
    requires Short(x)
    ensures forall i :: 0 <= i < |xs + [x]| ==> Short((xs + [x])[i])
    ensures EncodeStrings(xs + [x]) == EncodeStrings(xs) + EncodeString(x)
  {
    hide EncodeString;
    if xs == [] {
      assert (xs + [x])[1..] == [];
      assert EncodeString(x) + [] == EncodeString(x) && [] + EncodeString(x) == EncodeString(x);
    } else {
      assert (xs + [x])[1..] == xs[1..] + [x];
      EncodeStringsAppend(xs[1..], x);
      var a, b, c := EncodeString(xs[0]), EncodeStrings(xs[1..]), EncodeString(x);
      assert a + (b + c) == (a + b) + c;
    }
  }

  // ---------------------------------------------------------------- the environment map

  function FindByte(s: seq<byte>, b: byte): (i: nat)
    ensures i <= |s|
    ensures forall k :: 0 <= k < i ==> s[k] != b
    ensures i < |s| ==> s[i] == b
  {
    if s == [] || s[0] == b then 0 else 1 + FindByte(s[1..], b)
  }

  predicate HasEquals(item: seq<byte>) { FindByte(item, EQUALS) < |item| }

  function KeyOf(item: seq<byte>): seq<byte>
    requires HasEquals(item)
  {
    item[..FindByte(item, EQUALS)]
  }

  function ValueOf(item: seq<byte>): seq<byte>
    requires HasEquals(item)
  {
    item[FindByte(item, EQUALS) + 1..]
  }

  function Insert(env: map<seq<byte>, seq<byte>>, item: seq<byte>): map<seq<byte>, seq<byte>> {
    if HasEquals(item) then env[KeyOf(item) := ValueOf(item)] else env
  }

  function EnvMap(items: seq<seq<byte>>): map<seq<byte>, seq<byte>> {
    if items == [] then map[] else Insert(EnvMap(items[..|items| - 1]), items[|items| - 1])
  }

  lemma {:induction false} EnvMapAppend(items: seq<seq<byte>>, item: seq<byte>)
    ensures EnvMap(items + [item]) == Insert(EnvMap(items), item)
  {
    assert (items + [item])[..|items|] == items;
  }

  function CwdOf(env: map<seq<byte>, seq<byte>>): seq<byte> {
    if PWD in env then env[PWD] else ROOT
  }

  /** An item defines a key iff it starts with the key and the first '=' in it; the rest is the value. */
  lemma {:induction false} DefinesIff(item: seq<byte>, k: seq<byte>)
    ensures HasEquals(item) && KeyOf(item) == k <==> 0x3D !in k && k + [0x3D] <= item
    ensures HasEquals(item) && KeyOf(item) == k ==> item == k + [0x3D] + ValueOf(item)
  {
    var i := FindByte(item, EQUALS);
    if HasEquals(item) && KeyOf(item) == k {
      assert item == item[..i] + [item[i]] + item[i + 1..];
      assert k + [0x3D] == item[..i + 1];
    }
    if 0x3D !in k && k + [0x3D] <= item {
      assert item[|k|] == (k + [0x3D])[|k|];
      assert forall j :: 0 <= j < |k| ==> item[j] == (k + [0x3D])[j] == k[j] && k[j] in k;
      assert i == |k|;
      assert item[..|k|] == (k + [0x3D])[..|k|] == k;
    }
  }

  /** Item i is `k=v`, k holds no '=', and no later item starts with `k=`. */
  ghost predicate LastDefinition(items: seq<seq<byte>>, i: nat, k: seq<byte>, v: seq<byte>) {
    && i < |items| && items[i] == k + [0x3D] + v && 0x3D !in k
    && forall j :: i < j < |items| ==> !(k + [0x3D] <= items[j])
  }

  lemma {:induction false} LastDefinitionKept(items: seq<seq<byte>>, init: seq<seq<byte>>, k: seq<byte>, v: seq<byte>)
    requires items != [] && init == items[..|items| - 1] && !(0x3D !in k && k + [0x3D] <= items[|items| - 1])
    ensures (exists i: nat :: LastDefinition(items, i, k, v)) <==> (exists i: nat :: LastDefinition(init, i, k, v))
  {
    var n := |items| - 1;
    forall i: nat ensures LastDefinition(items, i, k, v) <==> LastDefinition(init, i, k, v) {
      assert forall j :: 0 <= j < n ==> init[j] == items[j];
      if LastDefinition(items, i, k, v) && i < n {
        forall j | i < j < n ensures !(k + [0x3D] <= init[j]) { assert !(k + [0x3D] <= items[j]); }
      }
      if LastDefinition(init, i, k, v) {
        forall j | i < j < |items| ensures !(k + [0x3D] <= items[j]) {
          if j < n { assert !(k + [0x3D] <= init[j]); }
        }
      }
    }
  }

  /** The environment map on the bytes themselves: k has value v iff the last item that starts with `k=`
    * (k without '=') goes on with v; items without '=' leave no trace. */
  lemma {:induction false} EnvMapIs(items: seq<seq<byte>>, k: seq<byte>, v: seq<byte>)
    ensures k in EnvMap(items) && EnvMap(items)[k] == v <==> exists i: nat :: LastDefinition(items, i, k, v)
  {
    if items != [] {
      hide HasEquals, KeyOf, ValueOf;
      var n := |items| - 1;
      var last := items[n];
      DefinesIff(last, k);
      EnvMapIs(items[..n], k, v);
      if 0x3D !in k && k + [0x3D] <= last {
        var d := k + [0x3D];
        assert last == d + v <==> ValueOf(last) == v by {
          assert (d + v)[|d|..] == v && (d + ValueOf(last))[|d|..] == ValueOf(last);
        }
        assert ValueOf(last) == v ==> LastDefinition(items, n, k, v);
        forall i: nat | LastDefinition(items, i, k, v) ensures i == n {}
      } else {
        LastDefinitionKept(items, items[..n], k, v);
      }
    }
  }

  function PayloadOf(path: seq<byte>, argv: seq<seq<byte>>, env: seq<seq<byte>>, stdin: seq<byte>): Payload {
    Payload(path, argv, CwdOf(EnvMap(env)), EnvMap(env), stdin)
  }

  /** The working directory on the bytes themselves: the value of the last item that starts with `PWD=`,
    * or `/` if there is none. */
  lemma {:induction false} CwdIs(path: seq<byte>, argv: seq<seq<byte>>, env: seq<seq<byte>>, stdin: seq<byte>, v: seq<byte>)
    ensures PayloadOf(path, argv, env, stdin).cwd == v
       <==> (exists i: nat :: LastDefinition(env, i, [0x50, 0x57, 0x44], v))
            || (v == [0x2F] && forall j :: 0 <= j < |env| ==> !([0x50, 0x57, 0x44, 0x3D] <= env[j]))
  {
    hide EnvMap, LastDefinition;
    var k: seq<byte> := [0x50, 0x57, 0x44];
    EnvMapIs(env, k, v);
    if k in EnvMap(env) {
      var u := EnvMap(env)[k];
      EnvMapIs(env, k, u);
      var i: nat :| LastDefinition(env, i, k, u);
      DefinedAt(env, i, k, u);
    } else if j :| 0 <= j < |env| && [0x50, 0x57, 0x44, 0x3D] <= env[j] {
      LastAmong(env, k, j);
      var i: nat, u :| LastDefinition(env, i, k, u);
      EnvMapIs(env, k, u);
    }
  }

  lemma DefinedAt(items: seq<seq<byte>>, i: nat, k: seq<byte>, v: seq<byte>)
    requires LastDefinition(items, i, k, v)
    ensures i < |items| && k + [0x3D] <= items[i]
  {
  }

  lemma {:induction false} LastAmong(items: seq<seq<byte>>, k: seq<byte>, j: nat)
    requires j < |items| && 0x3D !in k && k + [0x3D] <= items[j]
    ensures exists i: nat, v :: LastDefinition(items, i, k, v)
    decreases |items| - j
  {
    if l :| j < l < |items| && k + [0x3D] <= items[l] {
      LastAmong(items, k, l);
    } else {
      var v := items[j][|k| + 1..];
      assert items[j] == k + [0x3D] + v;
      assert LastDefinition(items, j, k, v);
    }
  }

  // ---------------------------------------------------------------- reading, as functions

  function ReadBytes(data: seq<byte>, pos: nat, len: nat): (r: Read<seq<byte>>)
    requires pos <= |data|
    ensures r.Got? ==> r.next == pos + len <= |data|
  {
    // No slice is longer than USIZE_MAX, so an overflowing end is also past the end.
    if pos + len <= |data| then Got(data[pos..pos + len], pos + len)
    else if pos + len > USIZE_MAX then Fail(TooLarge)
    else Fail(Truncated)
  }

  function ReadMagic(data: seq<byte>, pos: nat, magic: seq<byte>): (r: Read<()>)
    requires pos <= |data|
    ensures r.Got? ==> pos <= r.next <= |data|
  {
    match ReadBytes(data, pos, |magic|)
    case Fail(e) => Fail(e)
    case Got(b, next) => if b == magic then Got((), next) else Fail(BadMagic)
  }

  function ReadU32(data: seq<byte>, pos: nat): (r: Read<int>)
    requires pos <= |data|
    ensures r.Got? ==> pos <= r.next <= |data| && 0 <= r.value < U32
  {
    match ReadBytes(data, pos, 4)
    case Fail(e) => Fail(e)
    case Got(b, next) => Got(U32At(b, 0), next)
  }

  function ReadString(utf8: seq<byte> -> bool, data: seq<byte>, pos: nat): (r: Read<seq<byte>>)
    requires pos <= |data|
    ensures r.Got? ==> pos <= r.next <= |data|
  {
    match ReadU32(data, pos)
    case Fail(e) => Fail(e)
    case Got(len, body) =>
      match ReadBytes(data, body, len)
      case Fail(e) => Fail(e)
      case Got(b, next) => if utf8(b) then Got(b, next) else Fail(NotUtf8)
  }

  function ReadStrings(utf8: seq<byte> -> bool, data: seq<byte>, pos: nat, n: nat): (r: Read<seq<seq<byte>>>)
    requires pos <= |data|
    ensures r.Got? ==> pos <= r.next <= |data| && |r.value| == n
    decreases n
  {
    if n == 0 then Got([], pos) else
      match ReadStrings(utf8, data, pos, n - 1)
      case Fail(e) => Fail(e)
      case Got(xs, mid) =>
        match ReadString(utf8, data, mid)
        case Fail(e) => Fail(e)
        case Got(x, next) => Got(xs + [x], next)
  }

  datatype Header = Header(path: seq<byte>, argc: nat, envc: nat, stdinLen: nat)

  function ReadHeader(utf8: seq<byte> -> bool, data: seq<byte>): (r: Read<Header>)
    ensures r.Got? ==> r.next <= |data|
  {
    match ReadMagic(data, 0, REQUEST_MAGIC)
    case Fail(e) => Fail(e)
    case Got(_, p0) =>
      match ReadString(utf8, data, p0)
      case Fail(e) => Fail(e)
      case Got(path, p1) =>
        match ReadU32(data, p1)
        case Fail(e) => Fail(e)
        case Got(argc, p2) =>
          match ReadU32(data, p2)
          case Fail(e) => Fail(e)
          case Got(envc, p3) =>
            match ReadU32(data, p3)
            case Fail(e) => Fail(e)
            case Got(stdinLen, p4) => Got(Header(path, argc, envc, stdinLen), p4)
  }

  function ReadBody(utf8: seq<byte> -> bool, data: seq<byte>, pos: nat, h: Header): (r: Read<Payload>)
    requires pos <= |data|
    ensures r.Got? ==> r.next <= |data|
  {
    match ReadStrings(utf8, data, pos, h.argc)
    case Fail(e) => Fail(e)
    case Got(argv, p1) =>
      match ReadStrings(utf8, data, p1, h.envc)
      case Fail(e) => Fail(e)
      case Got(env, p2) =>
        match ReadBytes(data, p2, h.stdinLen)
        case Fail(e) => Fail(e)
        case Got(stdin, p3) => Got(PayloadOf(h.path, argv, env, stdin), p3)
  }

  /** The whole parse, with the position where it stops. */
  function ReadPayload(utf8: seq<byte> -> bool, data: seq<byte>): (r: Read<Payload>)
    ensures r.Got? ==> r.next <= |data|
  {
    match ReadHeader(utf8, data)
    case Fail(e) => Fail(e)
    case Got(h, pos) => ReadBody(utf8, data, pos, h)
  }

  // ---------------------------------------------------------------- decoding inverts encoding

  /** `enc` sits in `data` at `pos`. */
  predicate At(data: seq<byte>, pos: nat, enc: seq<byte>) {
    pos + |enc| <= |data| && data[pos..pos + |enc|] == enc
  }

  lemma {:induction false} AtSplit(data: seq<byte>, pos: nat, a: seq<byte>, b: seq<byte>)
    requires At(data, pos, a + b)
    ensures At(data, pos, a) && At(data, pos + |a|, b)
  {
    var w := data[pos..pos + |a + b|];
    assert data[pos..pos + |a|] == w[..|a|];
    assert data[pos + |a|..pos + |a| + |b|] == w[|a|..];
  }

  lemma {:induction false} FourParts(a: seq<byte>, b: seq<byte>, c: seq<byte>, d: seq<byte>, suffix: seq<byte>)
    ensures At(a + b + c + d + suffix, 0, a)
    ensures At(a + b + c + d + suffix, |a|, b)
    ensures At(a + b + c + d + suffix, |a| + |b|, c)
    ensures At(a + b + c + d + suffix, |a| + |b| + |c|, d)
  {
  }

  lemma {:induction false} ReadU32At(data: seq<byte>, pos: nat, n: int)
    requires 0 <= n < U32 && At(data, pos, Le32(n))
    ensures ReadU32(data, pos) == Got(n, pos + 4)
  {
    U32AtOfLe32(n, data[pos..pos + 4], 0);
  }

  lemma {:induction false} ReadStringAt(utf8: seq<byte> -> bool, data: seq<byte>, pos: nat, s: seq<byte>)
    requires Short(s) && utf8(s) && At(data, pos, EncodeString(s))
    ensures ReadString(utf8, data, pos) == Got(s, pos + 4 + |s|)
  {
    AtSplit(data, pos, Le32(|s|), s);
    ReadU32At(data, pos, |s|);
  }

  lemma EncodedLength(s: seq<byte>)
    requires Short(s)
    ensures |EncodeString(s)| == 4 + |s|
  {
  }

  lemma ReadNoStrings(utf8: seq<byte> -> bool, data: seq<byte>, pos: nat)
    requires pos <= |data|
    ensures EncodeStrings([]) == [] && ReadStrings(utf8, data, pos, 0) == Got([], pos)
  {
  }

  lemma {:induction false} ReadStringsSnoc(
      utf8: seq<byte> -> bool, data: seq<byte>, pos: nat, xs: seq<seq<byte>>, mid: nat, x: seq<byte>, next: nat)
    requires pos <= |data| && mid <= |data|
    requires ReadStrings(utf8, data, pos, |xs|) == Got(xs, mid) && ReadString(utf8, data, mid) == Got(x, next)
    ensures ReadStrings(utf8, data, pos, |xs| + 1) == Got(xs + [x], next)
  {
    hide ReadString;
  }

  lemma {:induction false} ReadStringsAt(utf8: seq<byte> -> bool, data: seq<byte>, pos: nat, xs: seq<seq<byte>>)
    requires forall i :: 0 <= i < |xs| ==> Short(xs[i]) && utf8(xs[i])
    requires At(data, pos, EncodeStrings(xs))
    ensures ReadStrings(utf8, data, pos, |xs|) == Got(xs, pos + |EncodeStrings(xs)|)
  {
    hide EncodeStrings, EncodeString, ReadString, ReadStrings;
    if xs == [] {
      ReadNoStrings(utf8, data, pos);
    } else {
      var init, last := xs[..|xs| - 1], xs[|xs| - 1];
      assert xs == init + [last];
      EncodeStringsAppend(init, last);
      EncodedLength(last);
      var mid := pos + |EncodeStrings(init)|;
      AtSplit(data, pos, EncodeStrings(init), EncodeString(last));
      ReadStringsAt(utf8, data, pos, init);
      ReadStringAt(utf8, data, mid, last);
      ReadStringsSnoc(utf8, data, pos, init, mid, last, mid + 4 + |last|);
    }
  }

  lemma {:induction false} ReadHeaderAt(utf8: seq<byte> -> bool, data: seq<byte>, path: seq<byte>, argc: nat, envc: nat, stdinLen: nat)
    requires Short(path) && utf8(path) && argc < U32 && envc < U32 && stdinLen < U32
    requires At(data, 0, EncodeHeader(path, argc, envc, stdinLen))
    ensures ReadHeader(utf8, data)
         == Got(Header(path, argc, envc, stdinLen), |EncodeHeader(path, argc, envc, stdinLen)|)
  {
    var a := REQUEST_MAGIC;
    var b := a + EncodeString(path);
    var c := b + Le32(argc);
    var d := c + Le32(envc);
    AtSplit(data, 0, d, Le32(stdinLen));
    AtSplit(data, 0, c, Le32(envc));
    AtSplit(data, 0, b, Le32(argc));
    AtSplit(data, 0, a, EncodeString(path));
    ReadStringAt(utf8, data, |a|, path);
    ReadU32At(data, |b|, argc);
    ReadU32At(data, |c|, envc);
    ReadU32At(data, |d|, stdinLen);
  }

  /** What a sender may put in a request: lengths that fit a word, valid UTF-8. */
  ghost predicate Sendable(utf8: seq<byte> -> bool, path: seq<byte>, argv: seq<seq<byte>>,
                           env: seq<seq<byte>>, stdin: seq<byte>) {
    && Short(path) && utf8(path) && AllShort(argv) && AllShort(env) && Short(stdin)
    && (forall i :: 0 <= i < |argv| ==> utf8(argv[i]))
    && (forall i :: 0 <= i < |env| ==> utf8(env[i]))
  }

  lemma {:induction false} ReadBodyAt(utf8: seq<byte> -> bool, data: seq<byte>, h: Header,
                   argv: seq<seq<byte>>, env: seq<seq<byte>>, stdin: seq<byte>, p0: nat, p1: nat, p2: nat, p3: nat)
    requires p0 <= |data| && h.argc == |argv| && h.envc == |env| && h.stdinLen == |stdin|
    requires ReadStrings(utf8, data, p0, |argv|) == Got(argv, p1)
    requires ReadStrings(utf8, data, p1, |env|) == Got(env, p2)
    requires ReadBytes(data, p2, |stdin|) == Got(stdin, p3)
    ensures ReadBody(utf8, data, p0, h) == Got(PayloadOf(h.path, argv, env, stdin), p3)
  {
  }

  /** Parsing an encoding followed by any suffix returns the value and stops at its end. */
  lemma {:induction false} ParseInvertsEncode(utf8: seq<byte> -> bool, path: seq<byte>, argv: seq<seq<byte>>,
                           env: seq<seq<byte>>, stdin: seq<byte>, suffix: seq<byte>)
    requires Sendable(utf8, path, argv, env, stdin)
    ensures ReadPayload(utf8, EncodeGuest(path, argv, env, stdin) + suffix)
         == Got(PayloadOf(path, argv, env, stdin), |EncodeGuest(path, argv, env, stdin)|)
  {
    hide EncodeHeader, ReadHeader, ReadBody, ReadStrings, EncodeStrings, EnvMap;
    var header := Header(path, |argv|, |env|, |stdin|);
    var h, a, e := EncodeHeader(path, |argv|, |env|, |stdin|), EncodeStrings(argv), EncodeStrings(env);
    var data := h + a + e + stdin + suffix;
    FourParts(h, a, e, stdin, suffix);
    var p0, p1 := |h|, |h| + |a|;
    var p2 := p1 + |e|;
    ReadHeaderAt(utf8, data, path, |argv|, |env|, |stdin|);
    ReadStringsAt(utf8, data, p0, argv);
    ReadStringsAt(utf8, data, p1, env);
    ReadBodyAt(utf8, data, header, argv, env, stdin, p0, p1, p2, p2 + |stdin|);
    ReadPayloadInTwo(utf8, data, header, p0, PayloadOf(path, argv, env, stdin), p2 + |stdin|);
  }

  lemma {:induction false} ReadPayloadInTwo(utf8: seq<byte> -> bool, data: seq<byte>, h: Header, mid: nat, p: Payload, end: nat)
    requires ReadHeader(utf8, data) == Got(h, mid)
    requires ReadBody(utf8, data, mid, h) == Got(p, end)
    ensures ReadPayload(utf8, data) == Got(p, end)
  {
  }

  // ---------------------------------------------------------------- only encodings are accepted

  lemma {:induction false} GotU32(data: seq<byte>, pos: nat)
    requires pos <= |data| && ReadU32(data, pos).Got?
    ensures ReadU32(data, pos).next == pos + 4 && At(data, pos, Le32(ReadU32(data, pos).value))
  {
    var w := data[pos..pos + 4];
    Le32OfU32At(w, 0);
    assert w[0..4] == w;
  }

  lemma {:induction false} AtJoin(data: seq<byte>, pos: nat, a: seq<byte>, b: seq<byte>)
    requires At(data, pos, a) && At(data, pos + |a|, b)
    ensures At(data, pos, a + b)
  {
    assert data[pos..pos + |a + b|] == data[pos..pos + |a|] + data[pos + |a|..pos + |a| + |b|];
  }

  lemma {:induction false} GotString(utf8: seq<byte> -> bool, data: seq<byte>, pos: nat)
    requires pos <= |data| && ReadString(utf8, data, pos).Got?
    ensures var r := ReadString(utf8, data, pos);
            Short(r.value) && utf8(r.value) && At(data, pos, EncodeString(r.value)) && r.next == pos + |EncodeString(r.value)|
  {
    hide U32At;
    GotU32(data, pos);
    var s := ReadString(utf8, data, pos).value;
    AtJoin(data, pos, Le32(|s|), s);
  }

  lemma {:induction false} GotStrings(utf8: seq<byte> -> bool, data: seq<byte>, pos: nat, n: nat)
    requires pos <= |data| && ReadStrings(utf8, data, pos, n).Got?
    ensures var r := ReadStrings(utf8, data, pos, n);
            && |r.value| == n && (forall i :: 0 <= i < n ==> Short(r.value[i]) && utf8(r.value[i]))
            && At(data, pos, EncodeStrings(r.value)) && r.next == pos + |EncodeStrings(r.value)|
    decreases n
  {
    if n != 0 {
      hide EncodeStrings, EncodeString, ReadString;
      GotStrings(utf8, data, pos, n - 1);
      var init := ReadStrings(utf8, data, pos, n - 1);
      GotString(utf8, data, init.next);
      var last := ReadString(utf8, data, init.next).value;
      EncodeStringsAppend(init.value, last);
      AtJoin(data, pos, EncodeStrings(init.value), EncodeString(last));
    } else {
      ReadNoStrings(utf8, data, pos);
    }
  }

  lemma {:induction false} GotHeader(utf8: seq<byte> -> bool, data: seq<byte>)
    requires ReadHeader(utf8, data).Got?
    ensures var r := ReadHeader(utf8, data); var h := r.value;
            && Short(h.path) && utf8(h.path) && h.argc < U32 && h.envc < U32 && h.stdinLen < U32
            && At(data, 0, EncodeHeader(h.path, h.argc, h.envc, h.stdinLen))
            && r.next == |EncodeHeader(h.path, h.argc, h.envc, h.stdinLen)|
  {
    hide U32At, Le32, EncodeString;
    var h := ReadHeader(utf8, data).value;
    assert At(data, 0, REQUEST_MAGIC);
    GotString(utf8, data, 4);
    var a := REQUEST_MAGIC + EncodeString(h.path);
    AtJoin(data, 0, REQUEST_MAGIC, EncodeString(h.path));
    GotU32(data, |a|);
    AtJoin(data, 0, a, Le32(h.argc));
    GotU32(data, |a| + 4);
    AtJoin(data, 0, a + Le32(h.argc), Le32(h.envc));
    GotU32(data, |a| + 8);
    AtJoin(data, 0, a + Le32(h.argc) + Le32(h.envc), Le32(h.stdinLen));
  }

  /** The parser accepts only encodings: if it succeeds, the bytes it consumed are the encoding of a
    * sendable request and the result is that request's payload. */
  lemma {:induction false} ParsesOnlyEncodings(utf8: seq<byte> -> bool, data: seq<byte>)
    returns (path: seq<byte>, argv: seq<seq<byte>>, env: seq<seq<byte>>, stdin: seq<byte>)
    requires ReadPayload(utf8, data).Got?
    ensures Sendable(utf8, path, argv, env, stdin)
    ensures ReadPayload(utf8, data) == Got(PayloadOf(path, argv, env, stdin), |EncodeGuest(path, argv, env, stdin)|)
    ensures EncodeGuest(path, argv, env, stdin) <= data
  {
    hide EncodeHeader, EncodeStrings, ReadHeader, ReadStrings, EnvMap;
    GotHeader(utf8, data);
    var r := ReadHeader(utf8, data);
    var h := r.value;
    GotStrings(utf8, data, r.next, h.argc);
    var a := ReadStrings(utf8, data, r.next, h.argc);
    GotStrings(utf8, data, a.next, h.envc);
    var e := ReadStrings(utf8, data, a.next, h.envc);
    path, argv, env, stdin := h.path, a.value, e.value, ReadBytes(data, e.next, h.stdinLen).value;
    var head := EncodeHeader(path, |argv|, |env|, |stdin|);
    AtJoin(data, 0, head, EncodeStrings(argv));
    AtJoin(data, 0, head + EncodeStrings(argv), EncodeStrings(env));
    AtJoin(data, 0, head + EncodeStrings(argv) + EncodeStrings(env), stdin);
  }

  /** The bytes of a request, position by position. */
  lemma {:induction false} RequestLayout(path: seq<byte>, argv: seq<seq<byte>>, env: seq<seq<byte>>, stdin: seq<byte>)
    requires Short(path) && AllShort(argv) && AllShort(env) && Short(stdin)
    ensures var d, n, rest := EncodeGuest(path, argv, env, stdin), |path|, EncodeStrings(argv) + EncodeStrings(env);
            && |d| == 20 + n + |rest| + |stdin|
            && d[..4] == [0x55, 0x58, 0x56, 0x31]
            && U32At(d, 4) == n && d[8..8 + n] == path
            && U32At(d, 8 + n) == |argv| && U32At(d, 12 + n) == |env| && U32At(d, 16 + n) == |stdin|
            && d[20 + n..20 + n + |rest|] == rest && d[20 + n + |rest|..] == stdin
  {
    hide Le32, EncodeStrings, U32At;
    var d, n, rest := EncodeGuest(path, argv, env, stdin), |path|, EncodeStrings(argv) + EncodeStrings(env);
    HeaderLayout(path, |argv|, |env|, |stdin|, rest + stdin);
    var h := EncodeHeader(path, |argv|, |env|, |stdin|);
    assert d == h + (rest + stdin);
    assert d[20 + n..] == rest + stdin;
    assert d[20 + n..20 + n + |rest|] == d[20 + n..][..|rest|] && d[20 + n + |rest|..] == d[20 + n..][|rest|..];
  }

  lemma {:induction false} HeaderLayout(path: seq<byte>, argc: nat, envc: nat, stdinLen: nat, tail: seq<byte>)
    requires Short(path) && argc < U32 && envc < U32 && stdinLen < U32
    ensures var d, n := EncodeHeader(path, argc, envc, stdinLen) + tail, |path|;
            && |d| == 20 + n + |tail| && d[20 + n..] == tail
            && d[..4] == [0x55, 0x58, 0x56, 0x31] && U32At(d, 4) == n && d[8..8 + n] == path
            && U32At(d, 8 + n) == argc && U32At(d, 12 + n) == envc && U32At(d, 16 + n) == stdinLen
  {
    hide Le32, U32At;
    var d, n := EncodeHeader(path, argc, envc, stdinLen) + tail, |path|;
    assert d[4..8] == Le32(n) && d[8 + n..12 + n] == Le32(argc);
    assert d[12 + n..16 + n] == Le32(envc) && d[16 + n..20 + n] == Le32(stdinLen);
    U32AtOfLe32(n, d, 4);
    U32AtOfLe32(argc, d, 8 + n);
    U32AtOfLe32(envc, d, 12 + n);
    U32AtOfLe32(stdinLen, d, 16 + n);
  }

  /** A string list is the records one after the other: length word, then bytes. */
  lemma {:induction false} RecordsLayout(xs: seq<seq<byte>>, i: nat)
    requires i < |xs| && forall k :: 0 <= k < |xs| ==> Short(xs[k])
    ensures var d, at := EncodeStrings(xs), |EncodeStrings(xs[..i])|;
            at + 4 + |xs[i]| <= |d| && U32At(d, at) == |xs[i]| && d[at + 4..at + 4 + |xs[i]|] == xs[i]
            && at + 4 + |xs[i]| == |EncodeStrings(xs[..i + 1])|
  {
    hide Le32, U32At;
    var a, e, b := EncodeStrings(xs[..i]), EncodeString(xs[i]), EncodeStrings(xs[i + 1..]);
    assert xs[..i + 1] == xs[..i] + [xs[i]] && xs[..i + 1] + xs[i + 1..] == xs;
    EncodeStringsAppend(xs[..i], xs[i]);
    EncodeStringsConcat(xs[..i + 1], xs[i + 1..]);
    hide EncodeStrings;
    var d := EncodeStrings(xs);
    assert d == a + e + b;
    assert d[|a|..|a| + 4] == Le32(|xs[i]|);
    U32AtOfLe32(|xs[i]|, d, |a|);
  }

  lemma {:induction false} EncodeStringsConcat(xs: seq<seq<byte>>, ys: seq<seq<byte>>)
    requires forall k :: 0 <= k < |xs| ==> Short(xs[k])
    requires forall k :: 0 <= k < |ys| ==> Short(ys[k])
    ensures EncodeStrings(xs + ys) == EncodeStrings(xs) + EncodeStrings(ys)
  {
    hide EncodeString;
    if xs == [] {
      assert xs + ys == ys;
    } else {
      assert (xs + ys)[1..] == xs[1..] + ys;
      EncodeStringsConcat(xs[1..], ys);
      var a, b, c := EncodeString(xs[0]), EncodeStrings(xs[1..]), EncodeStrings(ys);
      assert a + (b + c) == (a + b) + c;
    }
  }

  // ---------------------------------------------------------------- reads never look past their end

  lemma {:induction false} ReadBytesExtends(data: seq<byte>, pos: nat, len: nat, suffix: seq<byte>)
    requires pos <= |data| && ReadBytes(data, pos, len).Got?
    ensures ReadBytes(data + suffix, pos, len) == ReadBytes(data, pos, len)
  {
    assert (data + suffix)[pos..pos + len] == data[pos..pos + len];
  }

  lemma {:induction false} ReadU32Extends(data: seq<byte>, pos: nat, suffix: seq<byte>)
    requires pos <= |data| && ReadU32(data, pos).Got?
    ensures ReadU32(data + suffix, pos) == ReadU32(data, pos)
  {
    ReadBytesExtends(data, pos, 4, suffix);
  }

  lemma {:induction false} ReadStringExtends(utf8: seq<byte> -> bool, data: seq<byte>, pos: nat, suffix: seq<byte>)
    requires pos <= |data| && ReadString(utf8, data, pos).Got?
    ensures ReadString(utf8, data + suffix, pos) == ReadString(utf8, data, pos)
  {
    ReadU32Extends(data, pos, suffix);
    var len := ReadU32(data, pos);
    ReadBytesExtends(data, len.next, len.value, suffix);
  }

  lemma {:induction false} ReadStringsExtends(utf8: seq<byte> -> bool, data: seq<byte>, pos: nat, n: nat, suffix: seq<byte>)
    requires pos <= |data| && ReadStrings(utf8, data, pos, n).Got?
    ensures ReadStrings(utf8, data + suffix, pos, n) == ReadStrings(utf8, data, pos, n)
    decreases n
  {
    if n != 0 {
      ReadStringsExtends(utf8, data, pos, n - 1, suffix);
      ReadStringExtends(utf8, data, ReadStrings(utf8, data, pos, n - 1).next, suffix);
    }
  }

  lemma {:induction false} ReadHeaderExtends(utf8: seq<byte> -> bool, data: seq<byte>, suffix: seq<byte>)
    requires ReadHeader(utf8, data).Got?
    ensures ReadHeader(utf8, data + suffix) == ReadHeader(utf8, data)
  {
    ReadBytesExtends(data, 0, 4, suffix);
    ReadStringExtends(utf8, data, 4, suffix);
    var p1 := ReadString(utf8, data, 4).next;
    ReadU32Extends(data, p1, suffix);
    ReadU32Extends(data, p1 + 4, suffix);
    ReadU32Extends(data, p1 + 8, suffix);
  }

  lemma {:induction false} ReadPayloadExtends(utf8: seq<byte> -> bool, data: seq<byte>, suffix: seq<byte>)
    ensures ReadPayload(utf8, data).Got? ==> ReadPayload(utf8, data + suffix) == ReadPayload(utf8, data)
  {
    if ReadPayload(utf8, data).Got? {
      ReadHeaderExtends(utf8, data, suffix);
      var h := ReadHeader(utf8, data);
      ReadStringsExtends(utf8, data, h.next, h.value.argc, suffix);
      var a := ReadStrings(utf8, data, h.next, h.value.argc);
      ReadStringsExtends(utf8, data, a.next, h.value.envc, suffix);
      var e := ReadStrings(utf8, data, a.next, h.value.envc);
      ReadBytesExtends(data, e.next, h.value.stdinLen, suffix);
    }
  }

  lemma {:induction false} ReadPayloadExtendsAlways(utf8: seq<byte> -> bool)
    ensures Extends(d => ReadPayload(utf8, d))
  {
    var parse := (d: seq<byte>) => ReadPayload(utf8, d);
    forall d: seq<byte>, suffix: seq<byte> | parse(d).Got?
      ensures parse(d + suffix) == parse(d)
    {
      ReadPayloadExtends(utf8, d, suffix);
    }
  }

  /** Cutting any number of bytes off an encoding makes the parser reject it. */
  lemma {:induction false} StrictPrefixRejected(utf8: seq<byte> -> bool, path: seq<byte>, argv: seq<seq<byte>>,
                             env: seq<seq<byte>>, stdin: seq<byte>, k: nat)
    requires Sendable(utf8, path, argv, env, stdin)
    requires k < |EncodeGuest(path, argv, env, stdin)|
    ensures ReadPayload(utf8, EncodeGuest(path, argv, env, stdin)[..k]).Fail?
  {
    hide EncodeGuest, ReadPayload;
    var enc := EncodeGuest(path, argv, env, stdin);
    ParseInvertsEncode(utf8, path, argv, env, stdin, []);
    assert enc + [] == enc;
    ReadPayloadExtendsAlways(utf8);
    CutShortRejected(d => ReadPayload(utf8, d), enc, k);
  }

  // ---------------------------------------------------------------- the cursor object and the parser

  class BinaryCursor {
    const data: seq<byte>
    var cursor: nat

    ghost predicate Valid()
      reads this
    {
      cursor <= |data|
    }

    constructor (data: seq<byte>)
      ensures Valid() && this.data == data && cursor == 0
    {
      this.data := data;
      cursor := 0;
    }

    method TakeBytes(len: nat) returns (r: Result<seq<byte>>)
      requires Valid()
      modifies this
      ensures Valid()
      ensures match ReadBytes(data, old(cursor), len)
              case Got(b, next) => r == Ok(b) && cursor == next
              case Fail(e) => r == Err(e) && cursor == old(cursor)
    {
      var end := cursor + len;
      if end > |data| {
        return Err(if end > USIZE_MAX then TooLarge else Truncated);
      }
      r := Ok(data[cursor..end]);
      cursor := end;
    }

    method ExpectMagic(magic: seq<byte>) returns (r: Result<()>)
      requires Valid()
      modifies this
      ensures Valid()
      ensures match ReadMagic(data, old(cursor), magic)
              case Got(_, next) => r == Ok(()) && cursor == next
              case Fail(e) => r == Err(e)
    {
      var actual := TakeBytes(|magic|);
      if actual.Err? { return Err(actual.error); }
      r := if actual.value == magic then Ok(()) else Err(BadMagic);
    }

    method TakeU32() returns (r: Result<int>)
      requires Valid()
      modifies this
      ensures Valid()
      ensures match ReadU32(data, old(cursor))
              case Got(n, next) => r == Ok(n) && cursor == next
              case Fail(e) => r == Err(e)
    {
      var bytes := TakeBytes(4);
      if bytes.Err? { return Err(bytes.error); }
      r := Ok(U32At(bytes.value, 0));
    }

    method TakeString(utf8: seq<byte> -> bool) returns (r: Result<seq<byte>>)
      requires Valid()
      modifies this
      ensures Valid()
      ensures match ReadString(utf8, data, old(cursor))
              case Got(s, next) => r == Ok(s) && cursor == next
              case Fail(e) => r == Err(e)
    {
      var len := TakeU32();
      if len.Err? { return Err(len.error); }
      var bytes := TakeBytes(len.value);
      if bytes.Err? { return bytes; }
      r := if utf8(bytes.value) then bytes else Err(NotUtf8);
    }

    /** The argv loop: `n` strings in a row. */
    method TakeStrings(utf8: seq<byte> -> bool, n: nat) returns (r: Result<seq<seq<byte>>>)
      requires Valid()
      modifies this
      ensures Valid()
      ensures match ReadStrings(utf8, data, old(cursor), n)
              case Got(xs, next) => r == Ok(xs) && cursor == next
              case Fail(e) => r == Err(e)
    {
      var xs := [];
      for i := 0 to n
        invariant Valid()
        invariant ReadStrings(utf8, data, old(cursor), i) == Got(xs, cursor)
      {
        var x := TakeString(utf8);
        if x.Err? {
          ReadStringsFailsLater(utf8, data, old(cursor), i + 1, n);
          return Err(x.error);
        }
        xs := xs + [x.value];
      }
      r := Ok(xs);
    }

    /** The env loop: each item is split and inserted as soon as it is read. */
    method TakeEnv(utf8: seq<byte> -> bool, n: nat) returns (r: Result<map<seq<byte>, seq<byte>>>)
      requires Valid()
      modifies this
      ensures Valid()
      ensures match ReadStrings(utf8, data, old(cursor), n)
              case Got(xs, next) => r == Ok(EnvMap(xs)) && cursor == next
              case Fail(e) => r == Err(e)
    {
      var env := map[];
      ghost var xs := [];
      for i := 0 to n
        invariant Valid()
        invariant ReadStrings(utf8, data, old(cursor), i) == Got(xs, cursor)
        invariant env == EnvMap(xs)
      {
        var item := TakeString(utf8);
        if item.Err? {
          ReadStringsFailsLater(utf8, data, old(cursor), i + 1, n);
          return Err(item.error);
        }
        EnvMapAppend(xs, item.value);
        xs := xs + [item.value];
        env := Insert(env, item.value);
      }
      r := Ok(env);
    }
  }

  lemma {:induction false} ReadStringsFailsLater(utf8: seq<byte> -> bool, data: seq<byte>, pos: nat, i: nat, n: nat)
    requires pos <= |data| && i <= n && ReadStrings(utf8, data, pos, i).Fail?
    ensures ReadStrings(utf8, data, pos, n) == ReadStrings(utf8, data, pos, i)
    decreases n
  {
    if i < n { ReadStringsFailsLater(utf8, data, pos, i, n - 1); }
  }

  /** The host's parser; `next` is where its cursor stands at the end, never past the data. */
  method ParseGuestPayload(utf8: seq<byte> -> bool, data: seq<byte>) returns (r: Result<Payload>, next: nat)
    ensures next <= |data|
    ensures match ReadPayload(utf8, data)
            case Got(p, end) => r == Ok(p) && next == end
            case Fail(e) => r == Err(e)
  {
    var c := new BinaryCursor(data);
    next := 0;
    var magic := c.ExpectMagic(REQUEST_MAGIC);
    if magic.Err? { return Err(magic.error), c.cursor; }
    var path := c.TakeString(utf8);
    if path.Err? { return Err(path.error), c.cursor; }
    var argc := c.TakeU32();
    if argc.Err? { return Err(argc.error), c.cursor; }
    var envc := c.TakeU32();
    if envc.Err? { return Err(envc.error), c.cursor; }
    var stdinLen := c.TakeU32();
    if stdinLen.Err? { return Err(stdinLen.error), c.cursor; }
    var argv := c.TakeStrings(utf8, argc.value);
    if argv.Err? { return Err(argv.error), c.cursor; }
    var env := c.TakeEnv(utf8, envc.value);
    if env.Err? { return Err(env.error), c.cursor; }
    var stdin := c.TakeBytes(stdinLen.value);
    if stdin.Err? { return Err(stdin.error), c.cursor; }
    r := Ok(Payload(path.value, argv.value, CwdOf(env.value), env.value, stdin.value));
    next := c.cursor;
  }
}
