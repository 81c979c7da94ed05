/** Bytes, little-endian words, and the outcome types shared by the two binary codecs. */
module Wire {

  type byte = b: int | 0 <= b < 256

  const U32: int := 0x1_0000_0000
  const USIZE_MAX: int := 0xFFFF_FFFF_FFFF_FFFF

  datatype DecodeError = TooLarge | Truncated | BadMagic | NotUtf8

  datatype Result<+T> = Ok(value: T) | Err(error: DecodeError)

  /** Outcome of one cursor read: the value and the new cursor position, or an error. */
  datatype Read<+T> = Got(value: T, next: nat) | Fail(error: DecodeError)

  /** The four bytes of a 32-bit word, least significant first. */
  function Le32(n: int): (s: seq<byte>)
    requires 0 <= n < U32
    ensures |s| == 4
  {
    [n % 256, n / 256 % 256, n / 65536 % 256, n / 16777216]
  }

  function Word(b0: int, b1: int, b2: int, b3: int): int {
    b0 + 256 * b1 + 65536 * b2 + 16777216 * b3
  }

  function U32At(s: seq<byte>, at: nat): (n: int)
    requires at + 4 <= |s|
    ensures 0 <= n < U32
  {
    Word(s[at], s[at + 1], s[at + 2], s[at + 3])
  }

  lemma {:induction false} U32AtOfLe32(n: int, s: seq<byte>, at: nat)
    requires 0 <= n < U32
    requires at + 4 <= |s| && s[at..at + 4] == Le32(n)
    ensures U32At(s, at) == n
  {
    var w := s[at..at + 4];
    assert s[at] == w[0] && s[at + 1] == w[1] && s[at + 2] == w[2] && s[at + 3] == w[3];
    WordOfParts(n);
  }

  /** Reading and writing words agree with the little-endian sum of the bytes, spelled out. */
  lemma {:induction false} LittleEndian(s: seq<byte>, at: nat, n: int)
    requires at + 4 <= |s| && 0 <= n < U32
    ensures U32At(s, at) == n <==>
              n == s[at] as int + 0x100 * (s[at + 1] as int) + 0x1_0000 * (s[at + 2] as int) + 0x100_0000 * (s[at + 3] as int)
    ensures s[at..at + 4] == Le32(n) <==> U32At(s, at) == n
  {
    Le32OfU32At(s, at);
    if s[at..at + 4] == Le32(n) { U32AtOfLe32(n, s, at); }
  }

  lemma {:induction false} Le32OfU32At(s: seq<byte>, at: nat)
    requires at + 4 <= |s|
    ensures Le32(U32At(s, at)) == s[at..at + 4]
  {
    PartsOfWord(s[at], s[at + 1], s[at + 2], s[at + 3]);
  }

  lemma PartsOfWord(b0: byte, b1: byte, b2: byte, b3: byte)
    ensures var n := Word(b0, b1, b2, b3);
            n % 256 == b0 && n / 256 % 256 == b1 && n / 65536 % 256 == b2 && n / 16777216 == b3
  {
    var n := Word(b0, b1, b2, b3);
    var h: int := b1 + 256 * (b2 + 256 * b3);
    assert n == b0 + 256 * h && n / 256 == h;
    var g: int := b2 + 256 * b3;
    assert h == b1 + 256 * g && h / 256 == g;
    DivideTwice(n);
    DivideTwice(h);
    assert n / 16777216 == h / 65536;
  }

  lemma DivideTwice(n: nat)
    ensures n / 65536 == n / 256 / 256
  {
    var h, l := n / 65536, n % 65536;
    assert n == 256 * (256 * h + l / 256) + l % 256;
  }

  lemma {:induction false} WordOfParts(n: int)
    requires 0 <= n < U32
    ensures Word(n % 256, n / 256 % 256, n / 65536 % 256, n / 16777216) == n
  {
    var q := n / 256;
    var r := q / 256;
    DivideTwice(n);
    DivideTwice(q);
    assert n / 16777216 == q / 65536;
    assert q == 256 * r + q % 256 && r == 256 * (r / 256) + r % 256;
  }

  /** A parse that succeeds gives the same answer when more bytes follow. */
  ghost predicate Extends<T(!new)>(parse: seq<byte> -> Read<T>) {
    forall d: seq<byte>, suffix: seq<byte> ::
      parse(d).Got? ==> parse(d + suffix) == parse(d)
  }

  /** Such a parse rejects every input cut short of the position where it stops. */
  lemma {:induction false} CutShortRejected<T(!new)>(parse: seq<byte> -> Read<T>, data: seq<byte>, k: nat)
    requires Extends(parse)
    requires parse(data).Got? && k < parse(data).next <= |data|
    requires parse(data[..k]).Got? ==> parse(data[..k]).next <= k
    ensures parse(data[..k]).Fail?
  {
    assert data[..k] + data[k..] == data;
  }
}
