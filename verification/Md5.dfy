/**
 The MD5 context of CFBasic/md5.c against the padding rules of sections 3.1, 3.2
 and 3.4 of RFC 1321.  The block function MD5Transform is a parameter: the
 results hold for every block function.
 */
module Md5 {

  import opened Bytes

  const WORD: nat := 0x1_0000_0000
  const LONG: nat := 0x1_0000_0000_0000_0000

  type Word = x: int | 0 <= x < WORD witness 0

  /** The four chaining words. */
  datatype Chain = Chain(a: Word, b: Word, c: Word, d: Word)

  type Transform = (Chain, seq<Byte>) -> Chain

  const START: Chain := Chain(0x67452301, 0xefcdab89, 0x98badcfe, 0x10325476)

  // --------------------------------------------------------------- reference

  /** The block function folded over the whole blocks of m. */
  function Fold(f: Transform, c: Chain, m: seq<Byte>): (r: Chain)
    decreases |m|
  {
    if |m| < 64 then c else Fold(f, f(c, m[..64]), m[64..])
  }

  /** The k low-order bytes of n, the lowest first. */
  function LittleEndian(n: nat, k: nat): (r: seq<Byte>)
    ensures |r| == k
  {
    if k == 0 then [] else [n % 256] + LittleEndian(n / 256, k - 1)
  }

  function PadLength(len: nat): (r: nat)
    ensures 1 <= r <= 64 && (len + r) % 64 == 56
  {
    if len % 64 < 56 then 56 - len % 64 else 120 - len % 64
  }

  function Zeros(n: nat): (r: seq<Byte>)
    ensures |r| == n && forall i | 0 <= i < n :: r[i] == 0
  {
    if n == 0 then [] else [0] + Zeros(n - 1)
  }

  /** A one bit, zero bits up to 56 modulo 64 bytes, and the bit length modulo
      2^64, low-order byte first. */
  function Padding(len: nat): (r: seq<Byte>) {
    [0x80] + Zeros(PadLength(len) - 1) + LittleEndian(8 * len % LONG, 8)
  }

  function EncodeWord(w: Word): (r: seq<Byte>) {
    LittleEndian(w, 4)
  }

  function EncodeChain(c: Chain): (r: seq<Byte>) {
    EncodeWord(c.a) + EncodeWord(c.b) + EncodeWord(c.c) + EncodeWord(c.d)
  }

  function Digest(f: Transform, m: seq<Byte>): (r: seq<Byte>) {
    EncodeChain(Fold(f, START, m + Padding(|m|)))
  }

  // ------------------------------------------------------------------ words

  /** Decode: the word of four bytes, the lowest first. */
  function DecodeWord(b: seq<Byte>): (w: Word)
    requires |b| == 4
  {
    b[0] as int + 256 * b[1] as int + 65536 * b[2] as int + 16777216 * b[3] as int
  }

  lemma LittleEndian4(n: nat)
    ensures LittleEndian(n, 4) == [n % 256, n / 256 % 256, n / 65536 % 256, n / 16777216 % 256]
  {
    assert n / 256 / 256 == n / 65536 && n / 65536 / 256 == n / 16777216;
    var a: seq<Byte> := [n / 16777216 % 256];
    assert LittleEndian(n / 16777216, 1) == a;
    assert LittleEndian(n / 65536, 2) == [n / 65536 % 256] + a;
    assert LittleEndian(n / 256, 3) == [n / 256 % 256] + ([n / 65536 % 256] + a);
  }

  /** Decode undoes Encode. */
  lemma WordRoundTrip(w: Word)
    ensures |EncodeWord(w)| == 4 && DecodeWord(EncodeWord(w)) == w
  {
    LittleEndian4(w);
  }

  /** Word a of an encoded chain comes first, then b, c and d. */
  lemma ChainRoundTrip(c: Chain)
    ensures var e := EncodeChain(c);
            && |e| == 16 && DecodeWord(e[..4]) == c.a && DecodeWord(e[4..8]) == c.b
            && DecodeWord(e[8..12]) == c.c && DecodeWord(e[12..]) == c.d
  {
    var e := EncodeChain(c);
    WordRoundTrip(c.a);
    WordRoundTrip(c.b);
    WordRoundTrip(c.c);
    WordRoundTrip(c.d);
    assert e[..4] == EncodeWord(c.a) && e[4..8] == EncodeWord(c.b);
    assert e[8..12] == EncodeWord(c.c) && e[12..] == EncodeWord(c.d);
  }

  const START_BYTES: seq<seq<Byte>> := [[0x01, 0x23, 0x45, 0x67], [0x89, 0xab, 0xcd, 0xef],
                                        [0xfe, 0xdc, 0xba, 0x98], [0x76, 0x54, 0x32, 0x10]]

  /** The initial words are those of section 3.3 of RFC 1321, which writes them low byte
      first. */
  lemma StartBytes()
    ensures DecodeWord(START_BYTES[0]) == START.a && DecodeWord(START_BYTES[1]) == START.b
    ensures DecodeWord(START_BYTES[2]) == START.c && DecodeWord(START_BYTES[3]) == START.d
  {
  }

  /** The two encoded count words are the 64-bit length, low word first. */
  lemma CountBytes(lo: Word, hi: Word)
    ensures EncodeWord(lo) + EncodeWord(hi) == LittleEndian(lo + WORD * hi, 8)
  {
    var a, b, c := Shift(hi, 1), Shift(hi, 2), Shift(hi, 3);
    assert Shift(hi, 0) == hi && Shift(hi, 4) == 256 * c == WORD * hi;
    LowBytes(lo, hi, 4);
  }

  function Shift(n: nat, k: nat): (r: nat) {
    if k == 0 then n else 256 * Shift(n, k - 1)
  }

  function Power(k: nat): (r: nat) {
    if k == 0 then 1 else 256 * Power(k - 1)
  }

  lemma {:induction false} LowBytes(lo: nat, hi: nat, k: nat)
    requires lo < Power(k)
    ensures LittleEndian(lo, k) + LittleEndian(hi, 4) == LittleEndian(lo + Shift(hi, k), k + 4)
  {
    if k > 0 {
      LowByte(lo, Shift(hi, k - 1));
      assert lo / 256 < Power(k - 1);
      LowBytes(lo / 256, hi, k - 1);
    }
  }

  lemma LowByte(lo: nat, s: nat)
    ensures (lo + 256 * s) % 256 == lo % 256 && (lo + 256 * s) / 256 == lo / 256 + s
  {
  }

  // ------------------------------------------------------------------ folding

  lemma {:induction false} FoldAppend(f: Transform, c: Chain, m: seq<Byte>, n: nat, b: seq<Byte>)
    requires |m| == 64 * n
    ensures Fold(f, c, m + b) == Fold(f, Fold(f, c, m), b)
    decreases n
  {
    if n == 0 {
      assert m + b == b;
    } else {
      assert (m + b)[..64] == m[..64] && (m + b)[64..] == m[64..] + b;
      FoldAppend(f, f(c, m[..64]), m[64..], n - 1, b);
    }
  }

  lemma FoldBlock(f: Transform, c: Chain, m: seq<Byte>, n: nat, b: seq<Byte>)
    requires |m| == 64 * n && |b| == 64
    ensures Fold(f, c, m + b) == f(Fold(f, c, m), b)
  {
    FoldAppend(f, c, m, n, b);
    assert b[..64] == b && b[64..] == [];
  }

  // ------------------------------------------------------------------- counts

  /** The number the two count words stand for. */
  function Count(lo: Word, hi: Word): (n: nat) {
    lo + WORD * hi
  }

  function AddLow(lo: Word, len: nat): (r: Word) {
    (lo + len * 8 % WORD) % WORD
  }

  /** The carry test of the code and the shift by 29. */
  function AddHigh(lo: Word, hi: Word, len: nat): (r: Word) {
    var carry := if AddLow(lo, len) < len * 8 % WORD then 1 else 0;
    ((hi + carry) % WORD + len / 0x2000_0000) % WORD
  }

  lemma SplitBits(len: nat)
    ensures 8 * len == len * 8 % WORD + WORD * (len / 0x2000_0000)
  {
  }

  lemma CarryRight(lo: Word, low: Word)
    ensures var carry := if lo + low >= WORD then 1 else 0;
            (lo + low) % WORD == lo + low - WORD * carry && ((lo + low) % WORD < low <==> carry == 1)
  {
  }

  lemma {:induction false} AddModulo(x: nat, y: nat, m: nat)
    requires m > 0
    ensures (x % m + y) % m == (x + y) % m
  {
    var q := x / m;
    assert x + y == (x % m + y) + m * q;
    SameRemainder(x % m + y, m, q);
  }

  lemma {:induction false} SameRemainder(a: nat, m: nat, q: nat)
    requires m > 0
    ensures (a + m * q) % m == a % m
    decreases q
  {
    if q > 0 {
      SameRemainder(a, m, q - 1);
      assert a + m * q == (a + m * (q - 1)) + m;
      StepRemainder(a + m * (q - 1), m);
    }
  }

  lemma {:induction false} StepRemainder(a: nat, m: nat)
    requires m > 0
    ensures (a + m) % m == a % m
  {
    var q, r := a / m, a % m;
    assert a == m * q + r;
    assert a + m == m * (q + 1) + r;
    var q2, r2 := (a + m) / m, (a + m) % m;
    assert a + m == m * q2 + r2;
    assert m * (q + 1 - q2) == r2 - r;
    MultipleSmall(m, q + 1 - q2);
  }

  lemma MultipleSmall(m: int, e: int)
    requires m > 0
    ensures (e >= 1 ==> m * e >= m) && (e <= -1 ==> m * e <= -m)
  {
  }

  /** The two-word count grows by eight bits a byte, modulo 2^64. */
  lemma {:induction false} CountAdds(lo: Word, hi: Word, len: nat, total: nat)
    requires len < WORD && Count(lo, hi) == 8 * total % LONG
    ensures Count(AddLow(lo, len), AddHigh(lo, hi, len)) == 8 * (total + len) % LONG
  {
    var low: Word, high := len * 8 % WORD, len / 0x2000_0000;
    SplitBits(len);
    CarryRight(lo, low);
    var carry := if lo + low >= WORD then 1 else 0;
    AddModulo(hi + carry, high, WORD);
    var h := hi + carry + high;
    WrapHigh(AddLow(lo, len), h);
    AddModulo(8 * total, 8 * len, LONG);
    assert Count(lo, hi) + 8 * len == AddLow(lo, len) + WORD * h;
  }

  lemma WrapHigh(lo: Word, h: nat)
    ensures (lo + WORD * h) % LONG == lo + WORD * (h % WORD)
  {
    var q, r := h / WORD, h % WORD;
    assert lo + WORD * h == LONG * q + (lo + WORD * r);
  }

  /** Bytes in the buffer, as the code reads them off the low count word. */
  lemma {:induction false} FillRight(lo: Word, hi: Word, total: nat)
    requires Count(lo, hi) == 8 * total % LONG
    ensures lo / 8 % 64 == total % 64
  {
    var t := total / 0x2000_0000_0000_0000;
    var u := total - 0x2000_0000_0000_0000 * t;
    EightTimes(total, t, u);
    assert u == lo / 8 + 0x2000_0000 * hi;
    SameFill(total, lo / 8, 0x80_0000 * hi + 0x80_0000_0000_0000 * t);
  }

  lemma EightTimes(total: nat, t: nat, u: nat)
    requires u < 0x2000_0000_0000_0000 && total == u + 0x2000_0000_0000_0000 * t
    ensures 8 * total % LONG == 8 * u
  {
  }

  lemma SameFill(total: nat, x: nat, k: nat)
    requires total == x + 64 * k
    ensures x % 64 == total % 64
  {
  }

  // ------------------------------------------------------------------ context

  lemma RemainderIs(len: nat, n: nat)
    requires 64 * n <= len < 64 * n + 64
    ensures len % 64 == len - 64 * n
  {
  }

  /** The chain and the buffered tail agree with n whole blocks of the message. */
  ghost predicate Absorbed(f: Transform, chain: Chain, tail: seq<Byte>, msg: seq<Byte>, n: nat) {
    && 64 * n <= |msg| < 64 * n + 64
    && chain == Fold(f, START, msg[..64 * n]) && tail == msg[64 * n..]
  }

  /** Input shorter than the free part of the buffer only lengthens the tail. */
  lemma AbsorbShort(f: Transform, chain: Chain, tail: seq<Byte>, msg: seq<Byte>, n: nat,
                    input: seq<Byte>)
    requires Absorbed(f, chain, tail, msg, n) && |tail| + |input| < 64
    ensures Absorbed(f, chain, tail + input, msg + input, n)
  {
    assert (msg + input)[..64 * n] == msg[..64 * n];
    assert (msg + input)[64 * n..] == msg[64 * n..] + input;
  }

  /** A completed block moves into the chain. */
  lemma AbsorbBlock(f: Transform, chain: Chain, tail: seq<Byte>, msg: seq<Byte>, n: nat,
                    input: seq<Byte>)
    requires Absorbed(f, chain, tail, msg, n) && |tail| + |input| == 64
    ensures Absorbed(f, f(chain, tail + input), [], msg + input, n + 1)
  {
    var m := msg + input;
    FoldBlock(f, START, msg[..64 * n], n, tail + input);
    assert m[..64 * (n + 1)] == m;
    assert m == msg[..64 * n] + (tail + input);
    assert m[64 * (n + 1)..] == [];
  }

  class Context {
    const f: Transform
    const buffer: array<Byte>
    var chain: Chain
    var lo: Word
    var hi: Word

    ghost var msg: seq<Byte>       // everything given to Update so far
    ghost var n: nat               // whole blocks of it

    ghost predicate Valid()
      reads this, buffer
    {
      && buffer.Length == 64 && 64 * n <= |msg| < 64 * n + 64
      && Count(lo, hi) == 8 * |msg| % LONG
      && Absorbed(f, chain, buffer[..|msg| - 64 * n], msg, n)
    }

    /** MD5_Init. */
    constructor (f: Transform)
      ensures Valid() && this.f == f && msg == [] && fresh(buffer)
    {
      this.f := f;
      buffer := new Byte[64];
      chain := START;
      lo, hi := 0, 0;
      msg, n := [], 0;
    }

    method Copy(at: nat, input: seq<Byte>)
      requires buffer.Length == 64 && at + |input| <= 64
      modifies buffer
      ensures buffer[..at + |input|] == old(buffer[..at]) + input
    {
      for k := 0 to |input|
        invariant forall j | 0 <= j < k :: buffer[at + j] == input[j]
        invariant forall j | 0 <= j < at :: buffer[j] == old(buffer[j])
      {
        buffer[at + k] := input[k];
      }
      forall j | at <= j < at + |input|
        ensures buffer[j] == input[j - at]
      {
        assert buffer[at + (j - at)] == input[j - at];
      }
    }

    /** The loop of MD5_Update over blocks taken straight from the input. */
    method Blocks(input: seq<Byte>, from: nat, ghost before: seq<Byte>, ghost k: nat) returns (i: nat, ghost m: nat)
      requires from <= |input| && Absorbed(f, chain, [], before + input[..from], k)
      modifies this`chain
      ensures i <= |input| < i + 64 && Absorbed(f, chain, [], before + input[..i], m)
    {
      i, m := from, k;
      while i + 63 < |input|
        invariant i <= |input| && Absorbed(f, chain, [], before + input[..i], m)
      {
        var block := input[i..i + 64];
        AbsorbBlock(f, chain, [], before + input[..i], m, block);
        assert [] + block == block && (before + input[..i]) + block == before + input[..i + 64];
        chain := f(chain, block);
        i, m := i + 64, m + 1;
      }
    }

    /** The number of bytes in the buffer, from the low count word. */
    method Fill() returns (index: nat)
      requires Valid()
      ensures index == |msg| - 64 * n && index == |msg| % 64
    {
      index := lo / 8 % 64;
      FillRight(lo, hi, |msg|);
      RemainderIs(|msg|, n);
    }

    method Bump(len: nat)
      requires len < WORD && Count(lo, hi) == 8 * |msg| % LONG
      modifies this`lo, this`hi
      ensures Count(lo, hi) == 8 * (|msg| + len) % LONG
    {
      CountAdds(lo, hi, len, |msg|);
      lo, hi := AddLow(lo, len), AddHigh(lo, hi, len);
    }

    /** Completes the buffered block and takes whole blocks from the input. */
    method AbsorbBlocks(input: seq<Byte>, fill: nat) returns (i: nat)
      requires buffer.Length == 64 && fill < 64 && Absorbed(f, chain, buffer[..fill], msg, n) && |input| >= 64 - fill
      modifies this`chain, this`n, buffer
      ensures i <= |input| < i + 64 && Absorbed(f, chain, [], msg + input[..i], n)
    {
      ghost var tail := buffer[..fill];
      Copy(fill, input[..64 - fill]);
      assert buffer[..] == tail + input[..64 - fill];
      AbsorbBlock(f, chain, tail, msg, n, input[..64 - fill]);
      chain := f(chain, buffer[..]);
      i, n := Blocks(input, 64 - fill, msg, n + 1);
    }

    /** Buffers input that does not complete a block. */
    method AbsorbRest(rest: seq<Byte>, fill: nat, ghost before: seq<Byte>)
      requires buffer.Length == 64 && fill + |rest| < 64 && Absorbed(f, chain, buffer[..fill], before, n)
      modifies buffer
      ensures Absorbed(f, chain, buffer[..fill + |rest|], before + rest, n)
    {
      AbsorbShort(f, chain, buffer[..fill], before, n, rest);
      Copy(fill, rest);
    }

    method Absorb(input: seq<Byte>, fill: nat)
      requires buffer.Length == 64 && fill < 64 && Absorbed(f, chain, buffer[..fill], msg, n)
      modifies this`chain, this`n, buffer
      ensures 64 * n <= |msg| + |input| < 64 * n + 64
      ensures Absorbed(f, chain, buffer[..|msg| + |input| - 64 * n], msg + input, n)
    {
      if |input| >= 64 - fill {
        var i := AbsorbBlocks(input, fill);
        assert buffer[..0] == [] && (msg + input[..i]) + input[i..] == msg + input;
        AbsorbRest(input[i..], 0, msg + input[..i]);
      } else {
        AbsorbRest(input, fill, msg);
      }
    }

    /** MD5_Update: the context now stands for the message so far and the input. */
    method Update(input: seq<Byte>)
      requires Valid() && |input| + 63 < WORD
      modifies this, buffer
      ensures Valid() && msg == old(msg) + input
    {
      var index := Fill();
      Bump(|input|);
      Absorb(input, index);
      msg := msg + input;
    }

    /** What MD5_Final appends. */
    method Trailer() returns (pad: seq<Byte>, bits: seq<Byte>)
      requires Valid()
      ensures |pad| == PadLength(|msg|) && |bits| == 8 && pad + bits == Padding(|msg|)
    {
      bits := EncodeWord(lo) + EncodeWord(hi);
      CountBytes(lo, hi);
      var index := Fill();
      var padLen := if index < 56 then 56 - index else 120 - index;
      pad := [0x80] + Zeros(padLen - 1);
    }

    /** MD5_Final: the digest of the whole message; the context is cleared. */
    method Final() returns (digest: seq<Byte>)
      requires Valid()
      modifies this, buffer
      ensures digest == Digest(f, old(msg))
      ensures lo == 0 && hi == 0 && chain == Chain(0, 0, 0, 0) && forall i | 0 <= i < buffer.Length :: buffer[i] == 0
    {
      ghost var m := msg;
      var pad, bits := Trailer();
      Update(pad);
      Update(bits);
      assert msg == m + (pad + bits);
      PaddedWhole(|m|, |msg|, n);
      assert msg[..64 * n] == msg;
      digest := EncodeChain(chain);
      chain := Chain(0, 0, 0, 0);
      lo, hi := 0, 0;
      forall i | 0 <= i < buffer.Length {
        buffer[i] := 0;
      }
    }
  }

  lemma PaddedWhole(len: nat, padded: nat, n: nat)
    requires padded == len + PadLength(len) + 8 && 64 * n <= padded < 64 * n + 64
    ensures padded == 64 * n
  {
  }

  /** MD5_Init, one MD5_Update per part, MD5_Final: any way of cutting a message
      gives its digest. */
  method DigestParts(f: Transform, parts: seq<seq<Byte>>) returns (digest: seq<Byte>)
    requires forall i | 0 <= i < |parts| :: |parts[i]| + 63 < WORD
    ensures digest == Digest(f, Joined(parts))
  {
    var context := new Context(f);
    for i := 0 to |parts|
      invariant context.Valid() && context.f == f && fresh(context) && fresh(context.buffer)
      invariant context.msg == Joined(parts[..i])
    {
      JoinedStep(parts, i);
      context.Update(parts[i]);
    }
    assert parts[..|parts|] == parts;
    digest := context.Final();
  }

  function Joined(parts: seq<seq<Byte>>): (r: seq<Byte>) {
    if parts == [] then [] else Joined(parts[..|parts| - 1]) + parts[|parts| - 1]
  }

  lemma JoinedStep(parts: seq<seq<Byte>>, i: nat)
    requires i < |parts|
    ensures Joined(parts[..i + 1]) == Joined(parts[..i]) + parts[i]
  {
    assert parts[..i + 1][..i] == parts[..i];
  }
}
