/** The WebAssembly launcher as a program over its linear memory.
  * Loads, stores and memory.copy follow section 4.4.7 of the WebAssembly Core Specification 2.0. */
module Launcher {
  import opened Prelude
  import opened Wire
  import opened GuestPayload
  import opened Response

  const MEMORY: int := 0x100_0000 // 256 pages
  const ARGC_PTR: int := 0
  const ENVC_PTR: int := 20
  const EXEC_PATH: int := 128
  const IOVEC: int := 512
  const ARGV_PTRS: int := 1024
  const ARGV_BUF: int := 65536
  const ENV_PTRS: int := 262144
  const ENV_BUF: int := 524288
  const REQUEST_BUF: int := 2097152
  const RESPONSE_BUF: int := 4194304
  const RESPONSE_CAP: int := 8388608

  /** Longest executable path that ends before the argv pointer table. */
  const PATH_ROOM: int := ARGV_PTRS - EXEC_PATH

  /** Most that a request can hold besides its path, with lists that fit their regions. */
  const REQUEST_REST: int := 20 + (196608 + 3 * 16128) + (524288 + 3 * 65536)

  function I32Add(a: int, b: int): int { (a + b) % U32 }

  lemma NoWrap(a: nat, b: nat)
    requires a + b < U32
    ensures I32Add(a, b) == a + b
  {
  }

  predicate NulFree(s: seq<byte>) { forall i :: 0 <= i < |s| ==> s[i] != 0 }

  // ---------------------------------------------------------------- memory

  ghost predicate SameOutside(a: seq<byte>, b: seq<byte>, lo: int, hi: int) {
    |a| == |b| && forall i :: 0 <= i < |a| && !(lo <= i < hi) ==> a[i] == b[i]
  }

  ghost predicate SameOutsideBoth(a: seq<byte>, b: seq<byte>, lo: int, hi: int, lo': int, hi': int) {
    |a| == |b| && forall i :: 0 <= i < |a| && !(lo <= i < hi) && !(lo' <= i < hi') ==> a[i] == b[i]
  }

  method Store32(mem: array<byte>, at: nat, v: int)
    requires 0 <= v < U32 && at + 4 <= mem.Length
    modifies mem
    ensures mem[at..at + 4] == Le32(v)
    ensures SameOutside(old(mem[..]), mem[..], at, at + 4)
  {
    var w := Le32(v);
    mem[at], mem[at + 1], mem[at + 2], mem[at + 3] := w[0], w[1], w[2], w[3];
  }

  method Load32(mem: array<byte>, at: nat) returns (v: int)
    requires at + 4 <= mem.Length
    ensures v == U32At(mem[..], at)
  {
    v := U32At(mem[at..at + 4], 0);
  }

  /** memory.copy: as if through a temporary, so overlapping ranges are allowed. */
  method Copy(mem: array<byte>, dst: nat, src: nat, len: nat)
    requires dst + len <= mem.Length && src + len <= mem.Length
    modifies mem
    ensures mem[dst..dst + len] == old(mem[src..src + len])
    ensures SameOutside(old(mem[..]), mem[..], dst, dst + len)
  {
    forall k | 0 <= k < len {
      mem[dst + k] := mem[src + k];
    }
  }

  /** A host call writing a buffer into guest memory. */
  method Put(mem: array<byte>, dst: nat, data: seq<byte>)
    requires dst + |data| <= mem.Length
    modifies mem
    ensures mem[dst..dst + |data|] == data
    ensures SameOutside(old(mem[..]), mem[..], dst, dst + |data|)
  {
    forall k | 0 <= k < |data| {
      mem[dst + k] := data[k];
    }
  }

  /** A window grows by what a later write put right behind it. */
  lemma Grow(m: seq<byte>, m': seq<byte>, b: nat, c: nat, n: nat, x: seq<byte>, y: seq<byte>)
    requires b <= c <= n <= |m| && SameOutside(m, m', c, n)
    requires m[b..c] == x && m'[c..n] == y
    ensures m'[b..n] == x + y
  {
    assert m'[b..c] == m[b..c];
    assert m'[b..n] == m'[b..c] + m'[c..n];
  }

  // ---------------------------------------------------------------- the WASI string tables

  function Offset(items: seq<seq<byte>>, n: nat): nat
    requires n <= |items|
  {
    if n == 0 then 0 else Offset(items, n - 1) + |items[n - 1]| + 1
  }

  /** Bytes of the string buffer: every item with its terminating NUL. */
  function Size(items: seq<seq<byte>>): nat { Offset(items, |items|) }

  lemma {:induction false} OffsetBefore(items: seq<seq<byte>>, j: nat, n: nat)
    requires j < n <= |items|
    ensures Offset(items, j) + |items[j]| + 1 <= Offset(items, n)
    decreases n
  {
    if j < n - 1 { OffsetBefore(items, j, n - 1); }
  }

  ghost predicate Entry(m: seq<byte>, ptrs: nat, buf: nat, items: seq<seq<byte>>, j: nat)
    requires j < |items|
  {
    var p := buf + Offset(items, j);
    && ptrs + 4 * j + 4 <= |m| && U32At(m, ptrs + 4 * j) == p
    && p + |items[j]| < |m| && m[p..p + |items[j]|] == items[j] && m[p + |items[j]|] == 0
  }

  ghost predicate Table(m: seq<byte>, ptrs: nat, buf: nat, items: seq<seq<byte>>, n: nat)
    requires n <= |items|
  {
    forall j :: 0 <= j < n ==> Entry(m, ptrs, buf, items, j)
  }

  lemma {:induction false} EntryKept(m: seq<byte>, m': seq<byte>, ptrs: nat, buf: nat, items: seq<seq<byte>>, j: nat)
    requires j < |items| && |m| == |m'| && Entry(m, ptrs, buf, items, j)
    requires forall i :: ptrs + 4 * j <= i < ptrs + 4 * j + 4 ==> m'[i] == m[i]
    requires var p := buf + Offset(items, j); forall i :: p <= i <= p + |items[j]| ==> m'[i] == m[i]
    ensures Entry(m', ptrs, buf, items, j)
  {
    var p := buf + Offset(items, j);
    assert m'[p..p + |items[j]|] == m[p..p + |items[j]|];
  }

  lemma {:induction false} TableKept(m: seq<byte>, m': seq<byte>, ptrs: nat, buf: nat, items: seq<seq<byte>>, lo: nat, hi: nat)
    requires Table(m, ptrs, buf, items, |items|) && SameOutside(m, m', lo, hi)
    requires ptrs + 4 * |items| <= buf
    requires buf + Size(items) <= lo || hi <= ptrs
    ensures Table(m', ptrs, buf, items, |items|)
  {
    forall j | 0 <= j < |items| ensures Entry(m', ptrs, buf, items, j) {
      OffsetBefore(items, j, |items|);
      assert Entry(m, ptrs, buf, items, j);
      EntryKept(m, m', ptrs, buf, items, j);
    }
  }

  /** args_get and environ_get: pointers in one table, NUL-terminated strings in the other. */
  method WriteBufferArray(mem: array<byte>, items: seq<seq<byte>>, ptrs: nat, buf: nat)
    requires ptrs + 4 * |items| <= buf && buf + Size(items) <= mem.Length <= MEMORY
    modifies mem
    ensures Table(mem[..], ptrs, buf, items, |items|)
    ensures SameOutsideBoth(old(mem[..]), mem[..], ptrs, ptrs + 4 * |items|, buf, buf + Size(items))
  {
    var offset := 0;
    for i := 0 to |items|
      invariant offset == Offset(items, i) && offset <= Size(items)
      invariant Table(mem[..], ptrs, buf, items, i)
      invariant SameOutsideBoth(old(mem[..]), mem[..], ptrs, ptrs + 4 * i, buf, buf + offset)
    {
      OffsetBefore(items, i, |items|);
      offset := WriteEntry(mem, items, ptrs, buf, i, offset);
    }
  }

  method WriteEntry(mem: array<byte>, items: seq<seq<byte>>, ptrs: nat, buf: nat, i: nat, offset: nat) returns (next: nat)
    requires ptrs + 4 * |items| <= buf && i < |items| && offset == Offset(items, i)
    requires buf + offset + |items[i]| + 1 <= mem.Length <= MEMORY
    requires Table(mem[..], ptrs, buf, items, i)
    modifies mem
    ensures next == Offset(items, i + 1)
    ensures Table(mem[..], ptrs, buf, items, i + 1)
    ensures SameOutsideBoth(old(mem[..]), mem[..], ptrs + 4 * i, ptrs + 4 * i + 4, buf + offset, buf + next)
  {
    hide Le32, U32At;
    ghost var before := mem[..];
    var p := buf + offset;
    Store32(mem, ptrs + 4 * i, p);
    ghost var m1 := mem[..];
    Put(mem, p, items[i]);
    ghost var m2 := mem[..];
    mem[p + |items[i]|] := 0;
    next := offset + |items[i]| + 1;
    ghost var m3 := mem[..];
    assert m3[p..p + |items[i]|] == m2[p..p + |items[i]|];
    assert m3[ptrs + 4 * i..ptrs + 4 * i + 4] == m1[ptrs + 4 * i..ptrs + 4 * i + 4];
    EntryAdded(before, m3, ptrs, buf, items, i);
  }

  /** Byte k of the string buffer belongs to item i or its NUL. */
  predicate InString(items: seq<seq<byte>>, i: nat, k: int)
    requires i < |items|
  {
    Offset(items, i) <= k <= Offset(items, i) + |items[i]|
  }

  lemma {:induction false} EntryAdded(m: seq<byte>, m': seq<byte>, ptrs: nat, buf: nat, items: seq<seq<byte>>, i: nat)
    requires i < |items| && |m| == |m'| <= MEMORY && ptrs + 4 * |items| <= buf
    requires buf + Offset(items, i) + |items[i]| < |m| && Table(m, ptrs, buf, items, i)
    requires forall k :: 0 <= k < |m| && !(ptrs + 4 * i <= k < ptrs + 4 * i + 4) && !InString(items, i, k - buf)
               ==> m'[k] == m[k]
    requires m'[ptrs + 4 * i..ptrs + 4 * i + 4] == Le32(buf + Offset(items, i))
    requires var p := buf + Offset(items, i); m'[p..p + |items[i]|] == items[i] && m'[p + |items[i]|] == 0
    ensures Table(m', ptrs, buf, items, i + 1)
  {
    hide Le32, U32At;
    U32AtOfLe32(buf + Offset(items, i), m', ptrs + 4 * i);
    forall j | 0 <= j < i ensures Entry(m', ptrs, buf, items, j) {
      OffsetBefore(items, j, i);
      assert Entry(m, ptrs, buf, items, j);
      EntryKept(m, m', ptrs, buf, items, j);
    }
  }

  // ---------------------------------------------------------------- $strlen and $write_record

  method Strlen(mem: array<byte>, ptr: nat) returns (len: nat)
    requires exists e :: ptr <= e < mem.Length && mem[e] == 0
    ensures ptr + len < mem.Length && mem[ptr + len] == 0
    ensures forall k :: ptr <= k < ptr + len ==> mem[k] != 0
  {
    var cursor := ptr;
    while mem[cursor] != 0
      invariant ptr <= cursor < mem.Length
      invariant exists e :: cursor <= e < mem.Length && mem[e] == 0
      invariant forall k :: ptr <= k < cursor ==> mem[k] != 0
      decreases mem.Length - cursor
    {
      cursor := cursor + 1;
    }
    len := cursor - ptr;
  }

  lemma {:induction false} StrlenUnique(m: seq<byte>, source: nat, s: seq<byte>, len: nat)
    requires NulFree(s) && source + |s| < |m| && m[source..source + |s|] == s && m[source + |s|] == 0
    requires source + len < |m| && m[source + len] == 0
    requires forall k :: source <= k < source + len ==> m[k] != 0
    ensures len == |s|
  {
    assert forall k {:trigger s[k]} :: 0 <= k < |s| ==> m[source + k] == s[k];
  }

  method WriteRecord(mem: array<byte>, cursor: nat, source: nat, ghost s: seq<byte>) returns (next: nat)
    requires NulFree(s) && source + |s| < cursor && cursor + 4 + |s| <= mem.Length <= MEMORY
    requires mem[source..source + |s|] == s && mem[source + |s|] == 0
    modifies mem
    ensures next == cursor + 4 + |s|
    ensures mem[cursor..next] == EncodeString(s)
    ensures SameOutside(old(mem[..]), mem[..], cursor, next)
  {
    hide Le32, I32Add;
    var len := Strlen(mem, source);
    ghost var m0 := mem[..];
    assert m0[source..source + |s|] == s;
    StrlenUnique(m0, source, s, len);
    Store32(mem, cursor, len);
    ghost var m1 := mem[..];
    assert m1[source..source + |s|] == m0[source..source + |s|] == s;
    NoWrap(cursor, 4);
    var body := I32Add(cursor, 4);
    Copy(mem, body, source, len);
    Grow(m1, mem[..], cursor, body, body + len, Le32(len), s);
    NoWrap(body, len);
    next := I32Add(body, len);
  }

  /** The record for one entry of a string table. */
  method WriteIndexed(mem: array<byte>, cursor: nat, ptrs: nat, buf: nat, index: nat, ghost items: seq<seq<byte>>)
    returns (next: nat)
    requires index < |items| && NulFree(items[index]) && Entry(mem[..], ptrs, buf, items, index)
    requires buf + Offset(items, index) + |items[index]| < cursor
    requires cursor + 4 + |items[index]| <= mem.Length <= MEMORY
    modifies mem
    ensures next == cursor + 4 + |items[index]|
    ensures mem[cursor..next] == EncodeString(items[index])
    ensures SameOutside(old(mem[..]), mem[..], cursor, next)
  {
    hide Le32, U32At, Offset;
    ghost var p, s := buf + Offset(items, index), items[index];
    var source := Load32(mem, ptrs + 4 * index);
    assert mem[p..p + |s|] == mem[..][p..p + |s|];
    next := WriteRecord(mem, cursor, source, s);
  }

  lemma {:induction false} GrowStrings(m: seq<byte>, m': seq<byte>, start: nat, c: nat, next: nat, items: seq<seq<byte>>, i: nat)
    requires i < |items| && forall k :: 0 <= k < |items| ==> Short(items[k])
    requires start <= c <= next <= |m| && SameOutside(m, m', c, next)
    requires m[start..c] == EncodeStrings(items[..i]) && m'[c..next] == EncodeString(items[i])
    ensures m'[start..next] == EncodeStrings(items[..i + 1])
  {
    assert items[..i + 1] == items[..i] + [items[i]];
    EncodeStringsAppend(items[..i], items[i]);
    Grow(m, m', start, c, next, EncodeStrings(items[..i]), EncodeString(items[i]));
  }

  lemma {:induction false} EntryBelow(m: seq<byte>, m': seq<byte>, ptrs: nat, buf: nat, items: seq<seq<byte>>, i: nat, start: nat, hi: nat)
    requires i < |items| && Table(m, ptrs, buf, items, |items|) && SameOutside(m, m', start, hi)
    requires ptrs + 4 * |items| <= buf && buf + Size(items) <= start
    ensures Entry(m', ptrs, buf, items, i) && buf + Offset(items, i) + |items[i]| < start
  {
    OffsetBefore(items, i, |items|);
    assert Entry(m, ptrs, buf, items, i);
    EntryKept(m, m', ptrs, buf, items, i);
  }

  /** One of the two serialisation loops; the count is read from memory in every round. */
  method WriteRecords(mem: array<byte>, start: nat, countPtr: nat, ptrs: nat, buf: nat, ghost items: seq<seq<byte>>)
    returns (cursor: nat)
    requires AllShort(items) && forall i :: 0 <= i < |items| ==> NulFree(items[i])
    requires countPtr + 4 <= start && ptrs + 4 * |items| <= buf && buf + Size(items) <= start
    requires start + Size(items) + 3 * |items| <= mem.Length <= MEMORY
    requires U32At(mem[..], countPtr) == |items| && Table(mem[..], ptrs, buf, items, |items|)
    modifies mem
    ensures cursor == start + Size(items) + 3 * |items|
    ensures mem[start..cursor] == EncodeStrings(items)
    ensures SameOutside(old(mem[..]), mem[..], start, cursor)
  {
    hide Le32, EncodeStrings, Entry;
    ghost var m0 := mem[..];
    cursor := start;
    var index := 0;
    var count := Load32(mem, countPtr);
    assert mem[start..cursor] == EncodeStrings(items[..0]) by { EncodedSize(items, 0); }
    while index < count
      invariant count == |items| && 0 <= index <= |items|
      invariant cursor == start + Offset(items, index) + 3 * index <= mem.Length
      invariant mem[start..cursor] == EncodeStrings(items[..index])
      invariant SameOutside(m0, mem[..], start, cursor)
    {
      OffsetBefore(items, index, |items|);
      ghost var m1, c := mem[..], cursor;
      EntryBelow(m0, m1, ptrs, buf, items, index, start, cursor);
      cursor := WriteIndexed(mem, cursor, ptrs, buf, index, items);
      GrowStrings(m1, mem[..], start, c, cursor, items, index);
      index := index + 1;
      count := Load32(mem, countPtr);
    }
    assert items[..index] == items;
  }

  /** A record takes three bytes more than its item and NUL in the source buffer. */
  lemma {:induction false} EncodedSize(items: seq<seq<byte>>, n: nat)
    requires n <= |items| && forall i :: 0 <= i < |items| ==> Short(items[i])
    ensures |EncodeStrings(items[..n])| == Offset(items, n) + 3 * n
    decreases n
  {
    if n != 0 {
      assert items[..n] == items[..n - 1] + [items[n - 1]];
      EncodeStringsAppend(items[..n - 1], items[n - 1]);
      EncodedSize(items, n - 1);
    }
  }

  // ---------------------------------------------------------------- $_start up to fd_write

  /** The lists fit the scratch regions between the fixed addresses and hold no NUL. */
  ghost predicate Fits(argv: seq<seq<byte>>, env: seq<seq<byte>>) {
    && |argv| <= 16128 && Size(argv) <= 196608
    && |env| <= 65536 && Size(env) <= 524288
    && (forall i :: 0 <= i < |argv| ==> NulFree(argv[i]))
    && (forall i :: 0 <= i < |env| ==> NulFree(env[i]))
  }

  lemma {:induction false} FitsShort(items: seq<seq<byte>>)
    requires |items| < U32 && Size(items) < U32
    ensures AllShort(items)
  {
    forall i | 0 <= i < |items| ensures Short(items[i]) {
      OffsetBefore(items, i, |items|);
    }
  }

  /** What the four WASI input calls leave behind. */
  ghost predicate Inputs(m: seq<byte>, argv: seq<seq<byte>>, env: seq<seq<byte>>) {
    && |m| == MEMORY
    && U32At(m, ARGC_PTR) == |argv| && U32At(m, ENVC_PTR) == |env|
    && Table(m, ARGV_PTRS, ARGV_BUF, argv, |argv|)
    && Table(m, ENV_PTRS, ENV_BUF, env, |env|)
  }

  method StoreSizes(mem: array<byte>, countPtr: nat, items: seq<seq<byte>>)
    requires mem.Length == MEMORY && countPtr + 8 <= EXEC_PATH && |items| < U32 && Size(items) < U32
    modifies mem
    ensures U32At(mem[..], countPtr) == |items|
    ensures SameOutside(old(mem[..]), mem[..], countPtr, countPtr + 8)
  {
    hide Le32, U32At, Offset;
    Store32(mem, countPtr, |items|);
    ghost var m := mem[..];
    Store32(mem, countPtr + 4, Size(items));
    assert mem[countPtr..countPtr + 4] == m[countPtr..countPtr + 4];
    U32AtOfLe32(|items|, mem[..], countPtr);
  }

  /** Bytes that none of the input calls writes. */
  ghost predicate Untouched(argv: seq<seq<byte>>, env: seq<seq<byte>>, i: int) {
    && (EXEC_PATH <= i < MEMORY)
    && !(ARGV_PTRS <= i < ARGV_PTRS + 4 * |argv|) && !(ARGV_BUF <= i < ARGV_BUF + Size(argv))
    && !(ENV_PTRS <= i < ENV_PTRS + 4 * |env|) && !(ENV_BUF <= i < ENV_BUF + Size(env))
  }

  method LoadInputs(mem: array<byte>, argv: seq<seq<byte>>, env: seq<seq<byte>>)
    requires mem.Length == MEMORY && Fits(argv, env)
    modifies mem
    ensures Inputs(mem[..], argv, env)
    ensures forall i :: Untouched(argv, env, i) ==> mem[i] == old(mem[i])
  {
    hide Le32, Offset;
    StoreSizes(mem, ARGC_PTR, argv);
    WriteBufferArray(mem, argv, ARGV_PTRS, ARGV_BUF);
    ghost var m1 := mem[..];
    StoreSizes(mem, ENVC_PTR, env);
    ghost var m2 := mem[..];
    TableKept(m1, m2, ARGV_PTRS, ARGV_BUF, argv, ENVC_PTR, ENVC_PTR + 8);
    WriteBufferArray(mem, env, ENV_PTRS, ENV_BUF);
    TableKept(m2, mem[..], ARGV_PTRS, ARGV_BUF, argv, ENV_PTRS, ENV_BUF + Size(env));
  }

  /** The fixed part of the request; the path is whatever the path region holds by now. */
  method WriteHeader(mem: array<byte>, pathLen: nat, ghost argc: nat, ghost envc: nat) returns (cursor: nat)
    requires mem.Length == MEMORY && EXEC_PATH + pathLen <= REQUEST_BUF
    requires U32At(mem[..], ARGC_PTR) == argc && U32At(mem[..], ENVC_PTR) == envc
    modifies mem
    ensures cursor == REQUEST_BUF + 20 + pathLen
    ensures mem[REQUEST_BUF..cursor] == EncodeHeader(old(mem[EXEC_PATH..EXEC_PATH + pathLen]), argc, envc, 0)
    ensures SameOutside(old(mem[..]), mem[..], REQUEST_BUF, cursor)
  {
    hide Le32, U32At;
    ghost var path := mem[EXEC_PATH..EXEC_PATH + pathLen];
    ghost var m0 := mem[..];
    Store32(mem, REQUEST_BUF, 0x31565855);
    assert mem[REQUEST_BUF..REQUEST_BUF + 4] == REQUEST_MAGIC by { MagicWord(); }
    ghost var m1 := mem[..];
    Store32(mem, REQUEST_BUF + 4, pathLen);
    ghost var m2 := mem[..];
    Grow(m1, m2, REQUEST_BUF, REQUEST_BUF + 4, REQUEST_BUF + 8, REQUEST_MAGIC, Le32(pathLen));
    assert m2[EXEC_PATH..EXEC_PATH + pathLen] == path;
    cursor := REQUEST_BUF + 8;
    Copy(mem, cursor, EXEC_PATH, pathLen);
    ghost var m3 := mem[..];
    Grow(m2, m3, REQUEST_BUF, cursor, cursor + pathLen, REQUEST_MAGIC + Le32(pathLen), path);
    cursor := cursor + pathLen;
    assert REQUEST_MAGIC + Le32(pathLen) + path == REQUEST_MAGIC + EncodeString(path);
    assert SameOutside(m0, m3, REQUEST_BUF, cursor);
    WordKept(m0, m3, ARGC_PTR, REQUEST_BUF, cursor);
    WordKept(m0, m3, ENVC_PTR, REQUEST_BUF, cursor);
    var count := Load32(mem, ARGC_PTR);
    cursor := AppendWord(mem, cursor, count, REQUEST_MAGIC + EncodeString(path));
    WordKept(m3, mem[..], ENVC_PTR, REQUEST_BUF, cursor);
    count := Load32(mem, ENVC_PTR);
    cursor := AppendWord(mem, cursor, count, REQUEST_MAGIC + EncodeString(path) + Le32(argc));
    cursor := AppendWord(mem, cursor, 0, REQUEST_MAGIC + EncodeString(path) + Le32(argc) + Le32(envc));
  }

  lemma MagicWord()
    ensures Le32(0x31565855) == REQUEST_MAGIC
  {
  }

  method AppendWord(mem: array<byte>, cursor: nat, v: int, ghost sofar: seq<byte>) returns (next: nat)
    requires 0 <= v < U32 && REQUEST_BUF <= cursor <= cursor + 4 <= mem.Length
    requires mem[REQUEST_BUF..cursor] == sofar
    modifies mem
    ensures next == cursor + 4 && mem[REQUEST_BUF..next] == sofar + Le32(v)
    ensures SameOutside(old(mem[..]), mem[..], cursor, next)
  {
    hide Le32;
    ghost var m := mem[..];
    Store32(mem, cursor, v);
    next := cursor + 4;
    assert m[REQUEST_BUF..cursor] == sofar;
    Grow(m, mem[..], REQUEST_BUF, cursor, next, sofar, Le32(v));
  }

  /** The serialisation: memory below the request buffer and from the response buffer on is untouched. */
  method SendRequest(mem: array<byte>, pathLen: nat, ghost argv: seq<seq<byte>>, ghost env: seq<seq<byte>>)
    returns (cursor: nat)
    requires mem.Length == MEMORY && Fits(argv, env) && AllShort(argv) && AllShort(env)
    requires Inputs(mem[..], argv, env) && EXEC_PATH + pathLen <= REQUEST_BUF
    modifies mem
    ensures REQUEST_BUF <= cursor <= REQUEST_BUF + pathLen + REQUEST_REST <= MEMORY
    ensures mem[REQUEST_BUF..cursor] == EncodeGuest(old(mem[EXEC_PATH..EXEC_PATH + pathLen]), argv, env, [])
    ensures SameOutside(old(mem[..]), mem[..], REQUEST_BUF, cursor)
  {
    hide Le32, U32At, Offset, EncodeHeader, EncodeStrings;
    ghost var path := mem[EXEC_PATH..EXEC_PATH + pathLen];
    ghost var m0 := mem[..];
    cursor := WriteHeader(mem, pathLen, |argv|, |env|);
    ghost var m1, c1 := mem[..], cursor;
    ghost var h := EncodeHeader(path, |argv|, |env|, 0);
    TableKept(m0, m1, ARGV_PTRS, ARGV_BUF, argv, REQUEST_BUF, c1);
    TableKept(m0, m1, ENV_PTRS, ENV_BUF, env, REQUEST_BUF, c1);
    WordKept(m0, m1, ARGC_PTR, REQUEST_BUF, c1);
    WordKept(m0, m1, ENVC_PTR, REQUEST_BUF, c1);
    cursor := WriteRecords(mem, cursor, ARGC_PTR, ARGV_PTRS, ARGV_BUF, argv);
    ghost var m2, c2 := mem[..], cursor;
    Grow(m1, m2, REQUEST_BUF, c1, c2, h, EncodeStrings(argv));
    TableKept(m1, m2, ENV_PTRS, ENV_BUF, env, c1, c2);
    WordKept(m1, m2, ENVC_PTR, c1, c2);
    cursor := WriteRecords(mem, cursor, ENVC_PTR, ENV_PTRS, ENV_BUF, env);
    Grow(m2, mem[..], REQUEST_BUF, c2, cursor, h + EncodeStrings(argv), EncodeStrings(env));
    // stdin is always empty: the final memory.copy moves no bytes
    assert h + EncodeStrings(argv) + EncodeStrings(env) + [] == h + EncodeStrings(argv) + EncodeStrings(env);
  }

  lemma WordKept(m: seq<byte>, m': seq<byte>, at: nat, lo: nat, hi: nat)
    requires SameOutside(m, m', lo, hi) && at + 4 <= lo <= |m|
    ensures U32At(m', at) == U32At(m, at)
  {
  }

  /** A fresh instance: the path data segment, and nothing yet in the upper buffers. */
  ghost predicate Fresh(m: seq<byte>, path: seq<byte>) {
    && |m| == MEMORY && EXEC_PATH + |path| <= REQUEST_BUF
    && m[EXEC_PATH..EXEC_PATH + |path|] == path
    && forall i :: REQUEST_BUF <= i < MEMORY ==> m[i] == 0
  }

  /** The low byte of the first pointer of a table is zero, as both string buffers start on a multiple
    * of 256: a path that reaches into the table gets a NUL there. */
  lemma {:induction false} FirstPointerIsNul(m: seq<byte>, ptrs: nat, buf: nat, items: seq<seq<byte>>)
    requires Table(m, ptrs, buf, items, |items|) && items != [] && buf % 256 == 0
    ensures ptrs < |m| && m[ptrs] == 0
  {
    assert Entry(m, ptrs, buf, items, 0);
    var w := Word(m[ptrs], m[ptrs + 1], m[ptrs + 2], m[ptrs + 3]);
    assert w == buf;
    assert w % 256 == m[ptrs];
  }

  /** The path ends before the first table that is not empty. */
  predicate PathSurvives(path: seq<byte>, argv: seq<seq<byte>>, env: seq<seq<byte>>) {
    || |path| <= PATH_ROOM
    || (argv == [] && (EXEC_PATH + |path| <= ENV_PTRS || env == []))
  }

  lemma {:induction false} PathKeptIff(m: seq<byte>, m': seq<byte>, path: seq<byte>, argv: seq<seq<byte>>, env: seq<seq<byte>>)
    requires Fresh(m, path) && NulFree(path) && Inputs(m', argv, env)
    requires forall i :: Untouched(argv, env, i) ==> m'[i] == m[i]
    ensures m'[EXEC_PATH..EXEC_PATH + |path|] == path <==> PathSurvives(path, argv, env)
  {
    var sent := m'[EXEC_PATH..EXEC_PATH + |path|];
    if PathSurvives(path, argv, env) {
      forall i | 0 <= i < |path| ensures sent[i] == path[i] {
        assert Untouched(argv, env, EXEC_PATH + i);
        assert path[i] == m[EXEC_PATH..EXEC_PATH + |path|][i];
      }
    } else if argv != [] {
      FirstPointerIsNul(m', ARGV_PTRS, ARGV_BUF, argv);
      assert sent[PATH_ROOM] == 0;
    } else {
      FirstPointerIsNul(m', ENV_PTRS, ENV_BUF, env);
      assert sent[ENV_PTRS - EXEC_PATH] == 0;
    }
  }

  /** The launcher up to its fd_write. `sent` is the path it puts on the wire. */
  method Start(mem: array<byte>, path: seq<byte>, argv: seq<seq<byte>>, env: seq<seq<byte>>)
    returns (cursor: nat, ghost sent: seq<byte>)
    requires Fresh(mem[..], path) && NulFree(path) && Fits(argv, env)
    modifies mem
    ensures AllShort(argv) && AllShort(env) && |sent| == |path|
    ensures REQUEST_BUF <= cursor <= REQUEST_BUF + |path| + REQUEST_REST <= MEMORY
    ensures mem[REQUEST_BUF..cursor] == EncodeGuest(sent, argv, env, [])
    ensures sent == path <==> PathSurvives(path, argv, env)
    ensures |path| <= PATH_ROOM ==> cursor <= RESPONSE_BUF
    ensures forall i :: cursor <= i < MEMORY ==> mem[i] == 0
  {
    hide EncodeGuest, Inputs, PathSurvives;
    FitsShort(argv);
    FitsShort(env);
    ghost var m0 := mem[..];
    LoadInputs(mem, argv, env);
    sent := mem[EXEC_PATH..EXEC_PATH + |path|];
    PathKeptIff(m0, mem[..], path, argv, env);
    assert forall i :: REQUEST_BUF <= i < MEMORY ==> Untouched(argv, env, i);
    cursor := SendRequest(mem, |path|, argv, env);
  }

  /** Launcher and host together: the parsed request is what the process was started with, exactly
    * when the path ends before the first table that is not empty. */
  method Launch(utf8: seq<byte> -> bool, mem: array<byte>, path: seq<byte>, argv: seq<seq<byte>>, env: seq<seq<byte>>)
    returns (r: Result<Payload>)
    requires Fresh(mem[..], path) && NulFree(path) && Fits(argv, env) && utf8(path)
    requires forall i :: 0 <= i < |argv| ==> utf8(argv[i])
    requires forall i :: 0 <= i < |env| ==> utf8(env[i])
    modifies mem
    ensures r == Ok(PayloadOf(path, argv, env, [])) <==> PathSurvives(path, argv, env)
    ensures forall i :: REQUEST_BUF + |path| + REQUEST_REST <= i < MEMORY ==> mem[i] == 0
  {
    hide EncodeGuest, ReadPayload, EnvMap, PathSurvives;
    var cursor; ghost var sent;
    cursor, sent := Start(mem, path, argv, env);
    var request := mem[REQUEST_BUF..cursor];
    assert request + [] == request;
    var next;
    r, next := ParseGuestPayload(utf8, request);
    if utf8(sent) {
      ParseInvertsEncode(utf8, sent, argv, env, [], []);
    } else {
      NotUtf8Rejected(utf8, sent, argv, env);
    }
  }

  lemma {:induction false} NotUtf8Rejected(utf8: seq<byte> -> bool, path: seq<byte>, argv: seq<seq<byte>>, env: seq<seq<byte>>)
    requires Short(path) && AllShort(argv) && AllShort(env) && !utf8(path)
    ensures ReadPayload(utf8, EncodeGuest(path, argv, env, [])).Fail?
  {
    hide EncodeStrings, Le32;
    var data := EncodeGuest(path, argv, env, []);
    assert At(data, 0, REQUEST_MAGIC) && At(data, 4, Le32(|path|)) && At(data, 8, path);
    ReadU32At(data, 4, |path|);
    assert ReadString(utf8, data, 4) == Fail(NotUtf8);
  }

  // ---------------------------------------------------------------- $_start from fd_read on

  /** How the launcher ends: it falls off $_start (exit code 0, nothing written) or exits with streams. */
  datatype Output = Silent | Exited(returncode: int, stdout: seq<byte>, stderr: seq<byte>)

  /** Bytes an fd_write of one slice emits; a slice outside memory is an error that nobody reads. */
  function Slice(m: seq<byte>, ptr: nat, len: nat): seq<byte> {
    if ptr + len <= |m| then m[ptr..ptr + len] else []
  }

  /** What the launcher makes of n reply bytes in its response buffer. */
  function Seen(m: seq<byte>, n: nat): Output
    requires |m| == MEMORY
  {
    if n < 16 then Silent else
      var outLen, errLen := U32At(m, RESPONSE_BUF + 8), U32At(m, RESPONSE_BUF + 12);
      Exited(ToI32(U32At(m, RESPONSE_BUF + 4)),
             Slice(m, RESPONSE_BUF + 16, outLen),
             Slice(m, I32Add(RESPONSE_BUF + 16, outLen), errLen))
  }

  /** Hands one slice to the host through the iovec and returns the bytes it emits. */
  method FdWrite(mem: array<byte>, ptr: nat, len: nat) returns (out: seq<byte>)
    requires mem.Length == MEMORY && ptr < U32 && len < U32
    modifies mem
    ensures out == Slice(mem[..], ptr, len)
    ensures forall i :: RESPONSE_BUF <= i < MEMORY ==> mem[i] == old(mem[i])
  {
    Store32(mem, IOVEC, ptr);
    Store32(mem, IOVEC + 4, len);
    out := if ptr + len <= mem.Length then mem[ptr..ptr + len] else [];
    assert ptr + len <= mem.Length ==> mem[ptr..ptr + len] == mem[..][ptr..ptr + len];
  }

  /** The single fd_read stored as much of the reply as fits; the rest of memory is still zero. */
  ghost predicate Received(m: seq<byte>, reply: seq<byte>) {
    var n := Min(|reply|, RESPONSE_CAP);
    && |m| == MEMORY && m[RESPONSE_BUF..RESPONSE_BUF + n] == reply[..n]
    && forall i :: RESPONSE_BUF + n <= i < MEMORY ==> m[i] == 0
  }

  ghost predicate SameAbove(m: seq<byte>, m': seq<byte>) {
    |m| == |m'| == MEMORY && forall i :: RESPONSE_BUF <= i < MEMORY ==> m'[i] == m[i]
  }

  lemma {:induction false} SliceKept(m: seq<byte>, m': seq<byte>, ptr: nat, len: nat)
    requires SameAbove(m, m') && RESPONSE_BUF <= ptr
    ensures Slice(m', ptr, len) == Slice(m, ptr, len)
  {
  }

  lemma {:induction false} SeenKept(m: seq<byte>, m': seq<byte>, reply: seq<byte>)
    requires SameAbove(m, m') && Received(m, reply)
    ensures Received(m', reply)
    ensures U32At(m', RESPONSE_BUF + 4) == U32At(m, RESPONSE_BUF + 4)
    ensures U32At(m', RESPONSE_BUF + 8) == U32At(m, RESPONSE_BUF + 8)
    ensures U32At(m', RESPONSE_BUF + 12) == U32At(m, RESPONSE_BUF + 12)
  {
    var n := Min(|reply|, RESPONSE_CAP);
    assert m'[RESPONSE_BUF..RESPONSE_BUF + n] == m[RESPONSE_BUF..RESPONSE_BUF + n];
  }

  /** fd_read of the reply into the response buffer, then the two fd_writes and proc_exit. */
  method Finish(mem: array<byte>, reply: seq<byte>) returns (o: Output)
    requires mem.Length == MEMORY
    requires forall i :: RESPONSE_BUF <= i < MEMORY ==> mem[i] == 0
    modifies mem
    ensures Received(mem[..], reply)
    ensures o == Seen(mem[..], Min(|reply|, RESPONSE_CAP))
  {
    hide Le32, U32At, ToI32, Slice, Received;
    var n := Min(|reply|, RESPONSE_CAP);
    Put(mem, RESPONSE_BUF, reply[..n]);
    ghost var m1 := mem[..];
    ReceivedAfterPut(m1, reply);
    if n < 16 { return Silent; }
    var code := Load32(mem, RESPONSE_BUF + 4);
    var outLen := Load32(mem, RESPONSE_BUF + 8);
    var errLen := Load32(mem, RESPONSE_BUF + 12);
    var stdout := FdWrite(mem, RESPONSE_BUF + 16, outLen);
    ghost var m2 := mem[..];
    SeenKept(m1, m2, reply);
    var stderr := FdWrite(mem, I32Add(RESPONSE_BUF + 16, outLen), errLen);
    SeenKept(m2, mem[..], reply);
    SliceKept(m2, mem[..], RESPONSE_BUF + 16, outLen);
    o := Exited(ToI32(code), stdout, stderr);
  }

  lemma ReceivedAfterPut(m: seq<byte>, reply: seq<byte>)
    requires var n := Min(|reply|, RESPONSE_CAP);
             && |m| == MEMORY && m[RESPONSE_BUF..RESPONSE_BUF + n] == reply[..n]
             && forall i :: RESPONSE_BUF + n <= i < MEMORY ==> m[i] == 0
    ensures Received(m, reply)
  {
  }

  lemma {:induction false} ReplyParts(r: Reply)
    requires Packs(r)
    ensures var reply := EncodeRust(r); var mid := 16 + |r.stdout|;
            && |reply| == mid + |r.stderr|
            && ToI32(U32At(reply, 4)) == r.returncode
            && U32At(reply, 8) == |r.stdout| && U32At(reply, 12) == |r.stderr|
            && reply[16..mid] == r.stdout && reply[mid..] == r.stderr
  {
    hide Frame, U32At;
    var streams := r.stdout + r.stderr;
    FrameFields(FromI32(r.returncode), |r.stdout|, |r.stderr|, streams, []);
    var reply, mid := EncodeRust(r), 16 + |r.stdout|;
    assert reply + [] == reply && streams + [] == streams;
    assert reply[16..mid] == reply[16..][..|r.stdout|] && reply[mid..] == reply[16..][|r.stdout|..];
  }

  lemma {:induction false} HeaderWord(m: seq<byte>, reply: seq<byte>, n: nat, at: nat)
    requires n <= |reply| && RESPONSE_BUF + n <= |m| && at + 4 <= n
    requires m[RESPONSE_BUF..RESPONSE_BUF + n] == reply[..n]
    ensures U32At(m, RESPONSE_BUF + at) == U32At(reply, at)
  {
    var w := m[RESPONSE_BUF..RESPONSE_BUF + n];
    assert U32At(m, RESPONSE_BUF + at) == U32At(w, at);
    assert U32At(w, at) == U32At(reply, at);
  }

  lemma {:induction false} SliceOfWindow(m: seq<byte>, from: nat, to: nat)
    requires |m| == MEMORY && from <= to && RESPONSE_BUF + to <= MEMORY
    ensures Slice(m, RESPONSE_BUF + from, to - from) == m[RESPONSE_BUF..][from..to]
  {
  }

  /** Past the n bytes that were read the window is zero: it matches iff the reply is zero there too. */
  lemma {:induction false} ZeroTailIff(window: seq<byte>, reply: seq<byte>, n: nat, mid: nat)
    requires 16 <= n <= |reply| <= |window| && 16 <= mid <= |reply|
    requires window[..n] == reply[..n] && forall i :: n <= i < |window| ==> window[i] == 0
    ensures (window[16..mid] == reply[16..mid] && window[mid..|reply|] == reply[mid..])
            <==> (forall i :: n <= i < |reply| ==> reply[i] == 0)
  {
    assert forall i :: 0 <= i < n ==> window[i] == window[..n][i] == reply[i];
    if window[16..mid] == reply[16..mid] && window[mid..|reply|] == reply[mid..] {
      forall i | n <= i < |reply| ensures reply[i] == 0 {
        if i < mid {
          assert window[16..mid][i - 16] == window[i] && reply[16..mid][i - 16] == reply[i];
        } else {
          assert window[mid..|reply|][i - mid] == window[i] && reply[mid..][i - mid] == reply[i];
        }
      }
    }
  }

  /** The reply fits the single read, or all that the read left behind is zero and inside memory. */
  ghost predicate Deliverable(reply: seq<byte>) {
    || |reply| <= RESPONSE_CAP
    || (RESPONSE_BUF + |reply| <= MEMORY && forall i :: RESPONSE_CAP <= i < |reply| ==> reply[i] == 0)
  }

  /** The launcher reproduces a packed reply exactly when it is deliverable. */
  lemma {:induction false} PackedDeliveredIff(r: Reply, m: seq<byte>)
    requires Packs(r) && Received(m, EncodeRust(r))
    ensures var reply := EncodeRust(r);
      Seen(m, Min(|reply|, RESPONSE_CAP)) == Exited(r.returncode, r.stdout, r.stderr)
      <==> Deliverable(reply)
  {
    hide U32At, Le32, ToI32, EncodeRust;
    var reply, mid := EncodeRust(r), 16 + |r.stdout|;
    ReplyParts(r);
    var n := Min(|reply|, RESPONSE_CAP);
    HeaderWord(m, reply, n, 4);
    HeaderWord(m, reply, n, 8);
    HeaderWord(m, reply, n, 12);
    if RESPONSE_BUF + |reply| <= MEMORY {
      var window := m[RESPONSE_BUF..];
      NoWrap(RESPONSE_BUF + 16, |r.stdout|);
      assert window[..n] == m[RESPONSE_BUF..RESPONSE_BUF + n];
      SliceOfWindow(m, 16, mid);
      SliceOfWindow(m, mid, |reply|);
      ZeroTailIff(window, reply, n, mid);
    } else if RESPONSE_BUF + mid <= MEMORY {
      NoWrap(RESPONSE_BUF + 16, |r.stdout|);
    }
  }

  /** The launcher reproduces any reply with an i32 code exactly when it is deliverable: one whose
    * stream lengths the encoder had to cut is larger than the memory it would have to be shown from. */
  lemma {:induction false} DeliveredIff(r: Reply, m: seq<byte>)
    requires IsI32(r.returncode) && Received(m, EncodeRust(r))
    ensures var reply := EncodeRust(r);
      Seen(m, Min(|reply|, RESPONSE_CAP)) == Exited(r.returncode, r.stdout, r.stderr) <==> Deliverable(reply)
  {
    hide Seen, EncodeRust;
    if Packs(r) {
      PackedDeliveredIff(r, m);
    } else {
      EncodedSizeOf(r);
      ShownFits(m, Min(|EncodeRust(r)|, RESPONSE_CAP));
    }
  }

  lemma ShownFits(m: seq<byte>, n: nat)
    requires |m| == MEMORY
    ensures var o := Seen(m, n); o.Exited? ==> |o.stdout| <= MEMORY && |o.stderr| <= MEMORY
  {
    hide U32At, ToI32;
  }

  lemma EncodedSizeOf(r: Reply)
    requires IsI32(r.returncode)
    ensures |EncodeRust(r)| == 16 + |r.stdout| + |r.stderr|
  {
  }

  /** A whole virtual process on one memory: the launcher sends its request, the host parses it and
    * answers, the launcher writes the streams and exits. `answer` stands for all that the host does
    * between parsing and encoding. The host sees the request the process was started with iff the path
    * survives, and the process shows the host's answer iff the encoded answer is deliverable. */
  method RunExecutable(
      utf8: seq<byte> -> bool, answer: Result<Payload> -> Reply,
      mem: array<byte>, path: seq<byte>, argv: seq<seq<byte>>, env: seq<seq<byte>>)
    returns (request: Result<Payload>, o: Output)
    requires Fresh(mem[..], path) && NulFree(path) && Fits(argv, env) && utf8(path)
    requires forall i :: 0 <= i < |argv| ==> utf8(argv[i])
    requires forall i :: 0 <= i < |env| ==> utf8(env[i])
    requires forall r :: IsI32(answer(r).returncode)
    requires REQUEST_BUF + |path| + REQUEST_REST <= RESPONSE_BUF
    modifies mem
    ensures request == Ok(PayloadOf(path, argv, env, [])) <==> PathSurvives(path, argv, env)
    ensures var reply := answer(request);
            o == Exited(reply.returncode, reply.stdout, reply.stderr) <==> Deliverable(EncodeRust(reply))
  {
    hide PathSurvives, EncodeRust, Deliverable, Seen, Received;
    request := Launch(utf8, mem, path, argv, env);
    var reply := answer(request);
    o := Finish(mem, EncodeRust(reply));
    DeliveredIff(reply, mem[..]);
  }
}
