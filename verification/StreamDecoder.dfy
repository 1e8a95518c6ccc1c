/**
 Incremental base64 decoding of an incoming stream: DecodeIncomingData in
 CFHttp/HTTPRequestStream.cpp, which carries at most three undecoded bytes from
 one socket read to the next.
 */
module StreamDecoder {

  import opened Bytes
  import opened Sequences
  import opened Base64

  // ----------------------------------------------------- groups of four bytes

  /** A group can be decoded: it starts with at least two alphabet characters. */
  predicate GoodGroup(g: seq<Byte>)
    requires |g| == 4
  {
    |Digits(g)| >= 2
  }

  /** The number of leading groups that can be decoded. */
  function GoodGroups(s: seq<Byte>): (n: nat)
    ensures 4 * n <= |s|
  {
    if |s| < 4 || !GoodGroup(s[..4]) then 0 else 1 + GoodGroups(s[4..])
  }

  /** The reference: every group decoded by itself. */
  function GroupsPlain(s: seq<Byte>): (r: seq<Byte>) {
    if |s| < 4 then [] else Plain(Digits(s[..4])) + GroupsPlain(s[4..])
  }

  lemma {:induction false} SplitGood(s: seq<Byte>, m: nat)
    requires m <= GoodGroups(s)
    ensures GoodGroups(s) == m + GoodGroups(s[4 * m..])
  {
    if m == 0 {
      assert s[0..] == s;
    } else {
      SplitGood(s[4..], m - 1);
      assert s[4..][4 * (m - 1)..] == s[4 * m..];
    }
  }

  lemma {:induction false} SplitPlain(s: seq<Byte>, m: nat)
    requires 4 * m <= |s|
    ensures GroupsPlain(s) == GroupsPlain(s[..4 * m]) + GroupsPlain(s[4 * m..])
  {
    if m == 0 {
      assert s[0..] == s;
    } else {
      SplitPlain(s[4..], m - 1);
      assert s[4..][..4 * (m - 1)] == s[..4 * m][4..];
      assert s[4..][4 * (m - 1)..] == s[4 * m..];
      assert s[..4 * m][..4] == s[..4];
      Append(Plain(Digits(s[..4])), GroupsPlain(s[..4 * m][4..]), GroupsPlain(s[4 * m..]));
    }
  }

  // ---------------------------------------------- one call of the block decoder

  /** Groups the code takes as consumed when k bytes came out. */
  function Consumed(k: nat): (m: nat) {
    if k == 0 then 0 else if k <= 3 then 1 else 1 + Consumed(k - 3)
  }

  /** The arithmetic of the code: four bytes for each three that came out,
      rounded up. */
  lemma {:induction false} ConsumedBytes(k: nat)
    ensures k / 3 * 4 + (if k % 3 > 0 then 4 else 0) == 4 * Consumed(k)
    ensures k <= 3 * Consumed(k) && (Consumed(k) == 0 <==> k == 0)
  {
    if k > 3 {
      ConsumedBytes(k - 3);
    }
  }

  /** The digits of s are its longest prefix of alphabet characters. */
  lemma DigitsUnique(s: seq<Byte>, d: seq<Sextet>)
    requires |d| <= |s| && (forall i | 0 <= i < |d| :: d[i] == Six(s[i])) && (|d| < |s| ==> Six(s[|d|]) == 64)
    ensures d == Digits(s)
  {
    var e := Digits(s);
    assert forall i | 0 <= i < |d| :: Six(s[i]) == d[i] < 64;
    assert forall i | 0 <= i < |e| :: Six(s[i]) == e[i] < 64;
    assert |d| == |e|;
  }

  lemma DigitsFull(g: seq<Byte>, rest: seq<Byte>)
    requires |Digits(g)| == |g|
    ensures Digits(g + rest) == Digits(g) + Digits(rest)
  {
    DigitsUnique(g + rest, Digits(g) + Digits(rest));
  }

  lemma DigitsStop(g: seq<Byte>, rest: seq<Byte>)
    requires |Digits(g)| < |g|
    ensures Digits(g + rest) == Digits(g)
  {
    DigitsUnique(g + rest, Digits(g));
  }

  lemma PlainFull(d: seq<Sextet>, e: seq<Sextet>)
    requires |d| == 4
    ensures Plain(d + e) == Plain(d) + Plain(e) && |Plain(d)| == 3
  {
    assert (d + e)[4..] == e;
    assert d[4..] == [];
  }

  /** p is what the leading good groups of w decode to, up to the first padded
      one, and its length tells how many groups that was. */
  ghost predicate Decodes(p: seq<Byte>, w: seq<Byte>) {
    var m := Consumed(|p|);
    m <= GoodGroups(w) && p == GroupsPlain(w[..4 * m]) && (m == 0 ==> GoodGroups(w) == 0)
  }

  lemma FullFirst(g: seq<Byte>, v: seq<Byte>, tail: seq<Byte>)
    requires |g| == 4 && |Digits(g)| == 4 && Decodes(Plain(Digits(v + tail)), v)
    ensures Decodes(Plain(Digits((g + v) + tail)), g + v)
  {
    assert (g + v) + tail == g + (v + tail);
    DigitsFull(g, v + tail);
    PlainFull(Digits(g), Digits(v + tail));
    PrependGroup(g, v, Plain(Digits(v + tail)));
  }

  lemma ConsumedStep(k: nat)
    ensures Consumed(k + 3) == Consumed(k) + 1
  {
  }

  lemma {:induction false} GroupFirst(g: seq<Byte>, v: seq<Byte>, m: nat)
    requires |g| == 4 && GoodGroup(g) && 4 * m <= |v|
    ensures GoodGroups(g + v) == 1 + GoodGroups(v)
    ensures GroupsPlain((g + v)[..4 * (m + 1)]) == Plain(Digits(g)) + GroupsPlain(v[..4 * m])
  {
    var w := g + v;
    assert w[..4] == g && w[4..] == v;
    var x := w[..4 * (m + 1)];
    assert x[..4] == g && x[4..] == v[..4 * m];
  }

  lemma PrependGroup(g: seq<Byte>, v: seq<Byte>, p: seq<Byte>)
    requires |g| == 4 && GoodGroup(g) && |Plain(Digits(g))| == 3 && Decodes(p, v)
    ensures Decodes(Plain(Digits(g)) + p, g + v)
  {
    GroupFirst(g, v, Consumed(|p|));
    ConsumedStep(|p|);
  }

  lemma PaddedFirst(g: seq<Byte>, v: seq<Byte>, tail: seq<Byte>)
    requires |g| == 4 && |Digits(g)| < 4
    ensures Decodes(Plain(Digits((g + v) + tail)), g + v)
  {
    var w := g + v;
    assert w + tail == g + (v + tail);
    DigitsStop(g, v + tail);
    PlainLengthRight(Digits(g));
    assert w[..4] == g && w[4..] == v && g[..4] == g && g[4..] == [];
  }

  /** A call of the block decoder on n whole groups and a terminator. */
  lemma {:induction false} OneCall(w: seq<Byte>, n: nat, tail: seq<Byte>)
    requires |w| == 4 * n && tail != [] && tail[0] == NUL
    ensures Decodes(Plain(Digits(w + tail)), w)
  {
    if n == 0 {
      assert w + tail == tail;
    } else {
      var g, v := w[..4], w[4..];
      assert w == g + v;
      if |Digits(g)| == 4 {
        OneCall(v, n - 1, tail);
        FullFirst(g, v, tail);
      } else {
        PaddedFirst(g, v, tail);
      }
    }
  }

  /** out is head followed by what the first c bytes of w decode to, all in good
      groups. */
  ghost predicate Written(out: seq<Byte>, head: seq<Byte>, w: seq<Byte>, c: nat) {
    c <= 4 * GoodGroups(w) && out == head + GroupsPlain(w[..c])
  }

  lemma {:induction false} WrittenExtends(out: seq<Byte>, head: seq<Byte>, w: seq<Byte>, c: nat, v: seq<Byte>,
                                          p: seq<Byte>, m: nat, d: nat)
    requires c == 4 * m && c <= |w| && v == w[c..] && Written(out, head, w, c)
    requires d <= 4 * GoodGroups(v) && p == GroupsPlain(v[..d])
    ensures Written(out + p, head, w, c + d) && 4 * GoodGroups(w) == c + 4 * GoodGroups(v)
  {
    GoodFrom(w, c, m, v);
    OutFrom(out, head, w, c, m, v, d, p);
  }

  lemma GoodFrom(w: seq<Byte>, c: nat, m: nat, v: seq<Byte>)
    requires c == 4 * m && c <= 4 * GoodGroups(w) && v == w[c..]
    ensures 4 * GoodGroups(w) == c + 4 * GoodGroups(v)
  {
    SplitGood(w, m);
  }

  lemma {:induction false} OutFrom(out: seq<Byte>, head: seq<Byte>, w: seq<Byte>, c: nat, m: nat, v: seq<Byte>, d: nat,
                                   p: seq<Byte>)
    requires c == 4 * m && c + d <= |w| && v == w[c..] && out == head + GroupsPlain(w[..c]) && p == GroupsPlain(v[..d])
    ensures out + p == head + GroupsPlain(w[..c + d])
  {
    PlainFrom(w, c, m, v, d);
    Append(head, GroupsPlain(w[..c]), p);
  }

  lemma PlainFrom(w: seq<Byte>, c: nat, m: nat, v: seq<Byte>, d: nat)
    requires c == 4 * m && c + d <= |w| && v == w[c..]
    ensures GroupsPlain(w[..c + d]) == GroupsPlain(w[..c]) + GroupsPlain(v[..d])
  {
    var x := w[..c + d];
    SplitPlain(x, m);
    assert x[..c] == w[..c] && x[c..] == v[..d];
  }

  lemma PlainUpTo(w: seq<Byte>, m: nat, k: nat)
    requires 4 * (m + k) <= |w|
    ensures GroupsPlain(w[..4 * (m + k)]) == GroupsPlain(w[..4 * m]) + GroupsPlain(w[4 * m..][..4 * k])
  {
    var x := w[..4 * (m + k)];
    SplitPlain(x, m);
    assert x[..4 * m] == w[..4 * m] && x[4 * m..] == w[4 * m..][..4 * k];
  }

  lemma DigitsBeforeNul(v: seq<Byte>, n: nat, tail: seq<Byte>)
    requires |v| == 4 * n && tail != [] && tail[0] == NUL
    ensures var c := v + tail;
            |Digits(c)| <= |v| && |Digits(c)| < |c| && DecodeLen(|Digits(c)|) <= 3 * n + 1
  {
    var c := v + tail;
    assert c[|v|] == NUL;
  }

  lemma Remaining(len: nat, c: nat, k: nat) returns (m: nat)
    requires len == c + 4 * k && len % 4 == 0
    ensures c == 4 * m
  {
    m := c / 4;
  }

  lemma {:induction false} OneCallGives(v: seq<Byte>, k: nat, tail: seq<Byte>, p: seq<Byte>) returns (d: nat)
    requires |v| == 4 * k && tail != [] && tail[0] == NUL && p == Plain(Digits(v + tail))
    ensures d == 4 * Consumed(|p|) && d <= 4 * GoodGroups(v) && p == GroupsPlain(v[..d])
    ensures p == [] ==> d == 0 && GoodGroups(v) == 0
  {
    OneCall(v, k, tail);
    d := 4 * Consumed(|p|);
  }

  lemma {:induction false} BlockStep(w: seq<Byte>, c: nat, v: seq<Byte>, k: nat, tail: seq<Byte>, was: seq<Byte>,
                                     head: seq<Byte>, p: seq<Byte>)
    requires |w| == c + 4 * k && |w| % 4 == 0 && v == w[c..] && tail != [] && tail[0] == NUL && Written(was, head, w, c)
    requires p == Plain(Digits(v + tail))
    ensures Written(was + p, head, w, c + 4 * Consumed(|p|)) && (p == [] ==> 4 * GoodGroups(w) == c)
  {
    var m := Remaining(|w|, c, k);
    var d := OneCallGives(v, k, tail, p);
    WrittenExtends(was, head, w, c, v, p, m, d);
  }

  lemma SuffixOf(a: seq<Byte>, start: nat, w: seq<Byte>, k: nat)
    requires start + |w| <= |a| && k <= |w| && a[start..start + |w|] == w
    ensures a[start + k..] == w[k..] + a[start + |w|..]
  {
    assert a[start + k..start + |w|] == w[k..];
  }

  /** outs gives head and what the first c bytes of w decode to; the leading good
      groups of w fill good bytes. */
  ghost predicate Foresees(outs: nat -> seq<Byte>, good: nat, head: seq<Byte>, w: seq<Byte>) {
    && (forall c: nat {:trigger GroupsPlain(w[..c])} | c <= |w| :: outs(c) == head + GroupsPlain(w[..c]))
    && (forall s: seq<Byte> {:trigger GoodGroups(s)} | s == w :: good == 4 * GoodGroups(s))
  }

  /** The terminator stands at n. */
  predicate Ends(d: seq<Byte>, n: nat) {
    n < |d| && d[n] == NUL
  }

  /** One call of Base64decode in the loop, with k groups of w left. */
  method DecodeBlock(src: array<Byte>, start: nat, consumed: nat, dst: array<Byte>, newLen: nat,
                     ghost w: seq<Byte>, ghost k: nat, ghost head: seq<Byte>, ghost outs: nat -> seq<Byte>,
                     ghost good: nat)
    returns (decoded: nat)
    requires src != dst && |w| == consumed + 4 * k && |w| % 4 == 0 && start + |w| < src.Length
    requires src[..][start..start + |w|] == w && src[start + |w|] == NUL && newLen + 3 * k + 1 <= dst.Length
    requires Foresees(outs, good, head, w) && dst[..newLen] == outs(consumed) && consumed <= good
    modifies dst
    ensures newLen + decoded <= dst.Length && dst[..newLen + decoded] == outs(consumed + 4 * Consumed(decoded))
    ensures consumed + 4 * Consumed(decoded) <= good && (decoded == 0 ==> consumed == good)
    ensures Ends(dst[..], newLen + decoded)
  {
    ghost var coded, p := BlockPlan(src[..], start, w, consumed, k, head, outs, good);
    decoded := CallDecode(src, start + consumed, dst, newLen, coded, p);
  }

  /** What the next call reads and gives. */
  lemma {:induction false} BlockPlan(src: seq<Byte>, start: nat, w: seq<Byte>, c: nat, k: nat, head: seq<Byte>,
                                     outs: nat -> seq<Byte>, good: nat)
    returns (coded: seq<Byte>, p: seq<Byte>)
    requires |w| == c + 4 * k && |w| % 4 == 0 && start + |w| < |src| && src[start..start + |w|] == w
    requires src[start + |w|] == NUL
    requires Foresees(outs, good, head, w) && c <= good
    ensures coded == src[start + c..] && |Digits(coded)| < |coded| && DecodeLen(|Digits(coded)|) <= 3 * k + 1
    ensures p == Plain(Digits(coded)) && outs(c) + p == outs(c + 4 * Consumed(|p|))
    ensures c + 4 * Consumed(|p|) <= good && (p == [] ==> c == good)
  {
    var tail, v := src[start + |w|..], w[c..];
    SuffixOf(src, start, w, c);
    coded := v + tail;
    DigitsBeforeNul(v, k, tail);
    p := NextCall(w, c, v, k, tail, head, outs, good);
  }

  lemma {:induction false} NextCall(w: seq<Byte>, c: nat, v: seq<Byte>, k: nat, tail: seq<Byte>, head: seq<Byte>,
                                    outs: nat -> seq<Byte>, good: nat)
    returns (p: seq<Byte>)
    requires |w| == c + 4 * k && |w| % 4 == 0 && v == w[c..] && tail != [] && tail[0] == NUL
    requires Foresees(outs, good, head, w) && c <= good
    ensures p == Plain(Digits(v + tail)) && outs(c) + p == outs(c + 4 * Consumed(|p|))
    ensures c + 4 * Consumed(|p|) <= good && (p == [] ==> c == good)
  {
    p := Plain(Digits(v + tail));
    Foreseen(outs, good, head, w, c);
    BlockStep(w, c, v, k, tail, outs(c), head, p);
    AsForeseen(outs, good, head, w, c + 4 * Consumed(|p|), outs(c) + p);
  }

  lemma Foreseen(outs: nat -> seq<Byte>, good: nat, head: seq<Byte>, w: seq<Byte>, c: nat)
    requires Foresees(outs, good, head, w) && c <= |w| && c <= good
    ensures Written(outs(c), head, w, c) && good == 4 * GoodGroups(w)
  {
    assert outs(c) == head + GroupsPlain(w[..c]) && good == 4 * GoodGroups(w);
  }

  lemma AsForeseen(outs: nat -> seq<Byte>, good: nat, head: seq<Byte>, w: seq<Byte>, d: nat,
                   out: seq<Byte>)
    requires Foresees(outs, good, head, w) && Written(out, head, w, d)
    ensures out == outs(d) && d <= good
  {
    assert outs(d) == head + GroupsPlain(w[..d]) && good == 4 * GoodGroups(w);
  }

  method CallDecode(src: array<Byte>, from: nat, dst: array<Byte>, at: nat, ghost coded: seq<Byte>,
                    ghost p: seq<Byte>) returns (n: nat)
    requires src != dst && from <= src.Length && src[..][from..] == coded && p == Plain(Digits(coded))
    requires |Digits(coded)| < |coded| && dst.Length >= at + DecodeLen(|Digits(coded)|)
    modifies dst
    ensures n == |p| && at + n <= dst.Length && dst[..at + n] == old(dst[..at]) + p && Ends(dst[..], at + n)
  {
    assert src[from..] == src[..][from..];
    n := Base64decode(dst, at, src[from..]);
  }

  /** The encoded bytes behind k decoded ones, as the code computes them. */
  method GroupBytes(k: nat) returns (step: nat)
    requires k > 0
    ensures step == 4 * Consumed(k) && k <= 3 * Consumed(k) && Consumed(k) > 0
  {
    ConsumedBytes(k);
    step := k / 3 * 4;
    if k % 3 > 0 {
      step := step + 4;
    }
  }

  /** The loop of DecodeIncomingData over the n terminated groups w. */
  method DecodeLoop(src: array<Byte>, start: nat, bytesToDecode: nat, dst: array<Byte>, dstLen: nat,
                    ghost w: seq<Byte>, ghost n: nat, ghost head: seq<Byte>, ghost outs: nat -> seq<Byte>,
                    ghost good: nat)
    returns (ok: bool, newLen: nat)
    requires src != dst && bytesToDecode == |w| == 4 * n && start + |w| < src.Length && dstLen + 3 * n + 1 <= dst.Length
    requires src[..][start..start + |w|] == w && src[start + |w|] == NUL
    requires Foresees(outs, good, head, w) && good <= |w| && dst[..dstLen] == outs(0)
    modifies dst
    ensures newLen <= dst.Length && (ok <==> good == |w|) && dst[..newLen] == outs(good)
    ensures if n > 0 then Ends(dst[..], newLen) else dst[..] == old(dst[..])
  {
    newLen := dstLen;
    var consumed := 0;
    ghost var m := 0;
    while consumed < bytesToDecode
      invariant consumed == 4 * m && newLen <= dstLen + 3 * m && m <= n
      invariant consumed <= good && dst[..newLen] == outs(consumed)
      invariant if m > 0 then Ends(dst[..], newLen) else dst[..] == old(dst[..])
    {
      var decoded := DecodeBlock(src, start, consumed, dst, newLen, w, n - m, head, outs, good);
      if decoded == 0 {
        return false, newLen;
      }
      newLen := newLen + decoded;
      var step := GroupBytes(decoded);
      consumed := consumed + step;
      m := m + Consumed(decoded);
    }
    ok := true;
  }

  /** The body of DecodeIncomingData for n whole groups w: a terminator is put
      behind them, and taken away again on success. */
  method DecodeWhole(src: array<Byte>, start: nat, end: nat, dst: array<Byte>, dstLen: nat, ghost w: seq<Byte>,
                     ghost n: nat)
    returns (ok: bool, newLen: nat)
    requires src != dst && start <= end < src.Length && dstLen + 3 * n + 1 <= dst.Length
    requires |w| == 4 * n && end == start + |w| && src[start..end] == w
    modifies src, dst
    ensures newLen <= dst.Length && (ok <==> GoodGroups(w) == n)
    ensures Written(dst[..newLen], old(dst[..dstLen]), w, 4 * GoodGroups(w))
    ensures if n > 0 then Ends(dst[..], newLen) else dst[..] == old(dst[..])
    ensures src[end] == if ok then old(src[end]) else NUL
    ensures forall k | 0 <= k < src.Length && k != end :: src[k] == old(src[k])
  {
    var endChar := src[end];
    src[end] := NUL;
    assert src[..][start..start + |w|] == w;
    ghost var head, good := dst[..dstLen], 4 * GoodGroups(w);
    ghost var outs := (c: nat) => head + GroupsPlain(if c <= |w| then w[..c] else w);
    assert w[..0] == [];
    ok, newLen := DecodeLoop(src, start, end - start, dst, dstLen, w, n, head, outs, good);
    if ok {
      src[end] := endChar;
    }
  }

  /** The output of the leading good groups. */
  function GoodPlain(s: seq<Byte>): (r: seq<Byte>) {
    GroupsPlain(s[..4 * GoodGroups(s)])
  }

  // ------------------------------------------------------- whole streams

  /** What the stream keeps between two reads: decoded output and the encoded
      bytes that do not fill a group yet. */
  datatype Decoder = Decoder(out: seq<Byte>, carry: seq<Byte>)

  function WholeGroups(s: seq<Byte>): (r: seq<Byte>) {
    s[..4 * (|s| / 4)]
  }

  function PartialGroup(s: seq<Byte>): (r: seq<Byte>)
    ensures |r| <= 3
  {
    s[4 * (|s| / 4)..]
  }

  /** Every whole group of the stream can be decoded. */
  predicate Clean(s: seq<Byte>) {
    GoodGroups(s) == |s| / 4
  }

  /** DecodeIncomingData applied to the carried bytes and a new fragment; after
      an error the first carried byte is the terminator. */
  function Feed(d: Decoder, fragment: seq<Byte>): (r: Decoder) {
    var chunk := d.carry + fragment;
    Decoder(d.out + GoodPlain(chunk), Rest(chunk))
  }

  /** What is carried on from chunk. */
  function Rest(chunk: seq<Byte>): (r: seq<Byte>) {
    var p := PartialGroup(chunk);
    if Clean(chunk) || p == [] then p else [NUL] + p[1..]
  }

  lemma {:induction false} GoodInWhole(chunk: seq<Byte>)
    ensures GoodGroups(WholeGroups(chunk)) == GoodGroups(chunk)
  {
    if |chunk| >= 4 {
      var w := WholeGroups(chunk);
      assert |chunk[4..]| / 4 == |chunk| / 4 - 1;
      assert w[..4] == chunk[..4] && w[4..] == WholeGroups(chunk[4..]);
      GoodInWhole(chunk[4..]);
    }
  }

  lemma {:induction false} PlainIsShorter(s: seq<Byte>, n: nat)
    requires |s| == 4 * n
    ensures |GroupsPlain(s)| <= 3 * n
  {
    if n > 0 {
      PlainLengthRight(Digits(s[..4]));
      PlainIsShorter(s[4..], n - 1);
    }
  }

  /** What is written for the whole groups of chunk. */
  lemma WrittenIs(out: seq<Byte>, head: seq<Byte>, chunk: seq<Byte>, w: seq<Byte>, n: nat)
    requires n == |chunk| / 4 && w == chunk[..4 * n] && Written(out, head, w, 4 * GoodGroups(w))
    ensures out == head + GoodPlain(chunk) && |head| <= |out| <= |head| + 3 * n
    ensures GoodGroups(w) == n <==> Clean(chunk)
  {
    GoodInWhole(chunk);
    var g := GoodGroups(chunk);
    assert w[..4 * g] == chunk[..4 * g];
    PlainIsShorter(chunk[..4 * g], g);
  }

  lemma RestSlices(before: seq<Byte>, now: seq<Byte>, end: nat, rest: nat, ok: bool)
    requires |now| == |before| && end + rest < |now| && now[end] == (if ok then before[end] else NUL)
    requires forall k | 0 <= k < |now| && k != end :: now[k] == before[k]
    ensures var p, c := before[end..end + rest], now[end..end + rest];
            (forall k | 1 <= k < rest :: c[k] == p[k]) && (rest > 0 ==> c[0] == if ok then p[0] else NUL)
  {
  }

  lemma RestIs(chunk: seq<Byte>, p: seq<Byte>, c: seq<Byte>, ok: bool)
    requires p == PartialGroup(chunk) && |c| == |p| && (ok <==> Clean(chunk))
    requires forall k | 1 <= k < |p| :: c[k] == p[k]
    requires |p| > 0 ==> c[0] == if ok then p[0] else NUL
    ensures c == Rest(chunk)
  {
  }

  /** What the decoder makes of chunk: more comes out, left is carried on, and clean
      tells whether all whole groups are good. */
  ghost predicate DecodesTo(chunk: seq<Byte>, more: seq<Byte>, left: seq<Byte>, clean: bool) {
    forall s {:trigger GoodPlain(s)} | s == chunk :: more == GoodPlain(s) && left == Rest(s) && clean == Clean(s)
  }

  /** DecodeIncomingData: the leading good groups of the bytes it is called on are
      decoded behind what is there; success if and only if all whole groups are
      good; the rest stays in place, after an error with a terminator in front. */
  method DecodeIncomingData(src: array<Byte>, start: nat, len: nat, dst: array<Byte>, dstLen: nat, ghost end: nat,
                            ghost chunk: seq<Byte>, ghost more: seq<Byte>, ghost left: seq<Byte>, ghost clean: bool)
    returns (ok: bool, newLen: nat, remaining: nat)
    requires src != dst && end == start + len < src.Length && dstLen + len < dst.Length && chunk == src[start..end]
    requires DecodesTo(chunk, more, left, clean)
    modifies src, dst
    ensures remaining <= 3 && remaining <= len && dstLen <= newLen <= dst.Length && newLen + remaining <= dstLen + len
    ensures ok == clean && dst[..newLen] == old(dst[..dstLen]) + more && src[end - remaining..end] == left
    ensures if len >= 4 then Ends(dst[..], newLen) else dst[..] == old(dst[..])
    ensures forall k | 0 <= k < src.Length && k != end - remaining :: src[k] == old(src[k])
  {
    remaining := len % 4;
    var bytesToDecode := len - remaining;
    QuarterOf(len);
    ok, newLen := DecodeParts(src, start, bytesToDecode, remaining, dst, dstLen, chunk, len / 4, more, left, clean);
    assert start + bytesToDecode == end - remaining;
  }

  lemma QuarterOf(len: nat)
    ensures len - len % 4 == 4 * (len / 4)
  {
  }

  /** The same for q whole groups and a rest. */
  method DecodeParts(src: array<Byte>, start: nat, whole: nat, rest: nat, dst: array<Byte>, dstLen: nat,
                     ghost chunk: seq<Byte>,
                     ghost q: nat, ghost more: seq<Byte>, ghost left: seq<Byte>, ghost clean: bool)
    returns (ok: bool, newLen: nat)
    requires src != dst && start + whole + rest < src.Length && dstLen + whole + rest < dst.Length
    requires chunk == src[start..start + whole + rest] && whole == 4 * q && q == |chunk| / 4
    requires DecodesTo(chunk, more, left, clean)
    modifies src, dst
    ensures dstLen <= newLen <= dst.Length && newLen <= dstLen + whole
    ensures ok == clean && dst[..newLen] == old(dst[..dstLen]) + more
    ensures src[start + whole..start + whole + rest] == left
    ensures if q > 0 then Ends(dst[..], newLen) else dst[..] == old(dst[..])
    ensures forall k | 0 <= k < src.Length && k != start + whole :: src[k] == old(src[k])
  {
    ghost var w, head, before := chunk[..whole], dst[..dstLen], src[..];
    assert src[start..start + whole] == w;
    ok, newLen := DecodeWhole(src, start, start + whole, dst, dstLen, w, q);
    PartsDone(before, src[..], start, whole, rest, chunk, q, head, dst[..newLen], ok, more, left, clean);
  }

  /** What the parts add up to. */
  lemma PartsDone(before: seq<Byte>, now: seq<Byte>, start: nat, whole: nat, rest: nat,
                  chunk: seq<Byte>, q: nat,
                  head: seq<Byte>, out: seq<Byte>, ok: bool, more: seq<Byte>, left: seq<Byte>,
                  clean: bool)
    requires |now| == |before| && start + whole + rest < |now| && chunk == before[start..start + whole + rest]
    requires whole == 4 * q && q == |chunk| / 4
    requires var w := chunk[..whole]; Written(out, head, w, 4 * GoodGroups(w)) && (ok <==> GoodGroups(w) == q)
    requires now[start + whole] == if ok then before[start + whole] else NUL
    requires forall k | 0 <= k < |now| && k != start + whole :: now[k] == before[k]
    requires DecodesTo(chunk, more, left, clean)
    ensures out == head + more && |head| <= |out| <= |head| + 3 * q && ok == clean
    ensures now[start + whole..start + whole + rest] == left
  {
    assert more == GoodPlain(chunk);
    WrittenIs(out, head, chunk, chunk[..whole], q);
    RestSlices(before, now, start + whole, rest, ok);
    assert chunk[whole..] == before[start + whole..start + whole + rest];
    RestIs(chunk, chunk[whole..], now[start + whole..start + whole + rest], ok);
  }

  function FeedAll(d: Decoder, fragments: seq<seq<Byte>>): (r: Decoder)
    decreases |fragments|
  {
    if fragments == [] then d else FeedAll(Feed(d, fragments[0]), fragments[1..])
  }

  function Concat(parts: seq<seq<Byte>>): (r: seq<Byte>) {
    if parts == [] then [] else parts[0] + Concat(parts[1..])
  }

  lemma {:induction false} CleanPrefix(s: seq<Byte>, t: seq<Byte>)
    requires Clean(s + t)
    ensures Clean(s)
  {
    if |s| >= 4 {
      assert (s + t)[..4] == s[..4] && (s + t)[4..] == s[4..] + t;
      CleanPrefix(s[4..], t);
    }
  }

  lemma CleanSuffix(s: seq<Byte>, m: nat)
    requires Clean(s) && 4 * m <= |s|
    ensures Clean(s[4 * m..])
  {
    SplitGood(s, m);
  }

  lemma PlainOfWhole(s: seq<Byte>)
    ensures GroupsPlain(WholeGroups(s)) == GroupsPlain(s)
  {
    var m := |s| / 4;
    SplitPlain(s, m);
    assert GroupsPlain(s[4 * m..]) == [];
  }

  /** One fragment: with seen decoded so far, the state moves to seen + f. */
  lemma {:induction false} FeedClean(seen: seq<Byte>, f: seq<Byte>)
    requires Clean(seen + f)
    ensures Feed(Decoder(GroupsPlain(seen), PartialGroup(seen)), f) ==
            Decoder(GroupsPlain(seen + f), PartialGroup(seen + f))
  {
    var m := |seen| / 4;
    var s := seen + f;
    var chunk := PartialGroup(seen) + f;
    assert chunk == s[4 * m..];
    CleanSuffix(s, m);
    SplitPlain(s, m);
    assert s[..4 * m] == WholeGroups(seen);
    PlainOfWhole(seen);
    PlainOfWhole(chunk);
    assert |s| / 4 == m + |chunk| / 4;
    assert PartialGroup(chunk) == PartialGroup(s);
  }

  lemma {:induction false} FeedAllClean(seen: seq<Byte>, fragments: seq<seq<Byte>>)
    requires Clean(seen + Concat(fragments))
    ensures FeedAll(Decoder(GroupsPlain(seen), PartialGroup(seen)), fragments) ==
            Decoder(GroupsPlain(seen + Concat(fragments)), PartialGroup(seen + Concat(fragments)))
    decreases |fragments|
  {
    if fragments == [] {
      assert seen + Concat(fragments) == seen;
    } else {
      var f, rest := fragments[0], Concat(fragments[1..]);
      assert seen + (f + rest) == (seen + f) + rest;
      CleanPrefix(seen + f, rest);
      FeedClean(seen, f);
      FeedAllClean(seen + f, fragments[1..]);
    }
  }

  /** However the socket cuts a clean stream, the decoder ends with the same
      output, carrying only the bytes of the unfinished group. */
  lemma FragmentationIrrelevant(fragments: seq<seq<Byte>>)
    requires Clean(Concat(fragments))
    ensures var all := Concat(fragments);
            FeedAll(Decoder([], []), fragments) == Decoder(GroupsPlain(all), PartialGroup(all))
  {
    assert [] + Concat(fragments) == Concat(fragments);
    FeedAllClean([], fragments);
  }

  lemma QuadIsEncoded(s: seq<Byte>)
    requires 1 <= |s| <= 3
    ensures Encoded(s) == Quad(s)
  {
    if |s| == 3 {
      QuadLong(s);
      assert s[..3] == s && s[3..] == [] && Encoded([]) == [];
    } else {
      QuadShort(s);
    }
  }

  /** A terminator behind four characters adds no digit. */
  lemma {:induction false} NulAddsNone(q: seq<Byte>)
    requires |q| == 4
    ensures Digits(q + [NUL]) == Digits(q)
  {
    if |Digits(q)| < 4 {
      DigitsStop(q, [NUL]);
    } else {
      DigitsFull(q, [NUL]);
      assert Digits([NUL]) == [];
    }
  }

  lemma QuadDecodes(s: seq<Byte>)
    requires 1 <= |s| <= 3
    ensures Plain(Digits(Quad(s))) == s && GoodGroup(Quad(s))
  {
    QuadIsEncoded(s);
    RoundTrip(s, []);
    assert Encoded(s) + [NUL] + [] == Quad(s) + [NUL];
    NulAddsNone(Quad(s));
    PlainLengthRight(Digits(Quad(s)));
  }

  lemma GoodFirst(g: seq<Byte>, t: seq<Byte>)
    requires |g| == 4 && GoodGroup(g)
    ensures GroupsPlain(g + t) == Plain(Digits(g)) + GroupsPlain(t) && (Clean(t) ==> Clean(g + t))
  {
    assert (g + t)[..4] == g && (g + t)[4..] == t;
  }

  /** An encoded message followed by anything: all its groups are good and
      decode to the message. */
  lemma {:induction false} EncodedGroups(s: seq<Byte>, t: seq<Byte>)
    ensures GroupsPlain(Encoded(s) + t) == s + GroupsPlain(t)
    ensures Clean(t) ==> Clean(Encoded(s) + t)
  {
    if s == [] {
      assert Encoded(s) + t == t;
    } else if |s| < 3 {
      QuadShort(s);
      QuadDecodes(s);
      GoodFirst(Quad(s), t);
    } else {
      QuadLong(s);
      QuadDecodes(s[..3]);
      EncodedGroups(s[3..], t);
      GoodFirst(Quad(s[..3]), Encoded(s[3..]) + t);
      Append(Quad(s[..3]), Encoded(s[3..]), t);
      Append(s[..3], s[3..], GroupsPlain(t));
      assert s[..3] + s[3..] == s;
    }
  }

  function EncodeEach(messages: seq<seq<Byte>>): (r: seq<Byte>) {
    if messages == [] then [] else Encoded(messages[0]) + EncodeEach(messages[1..])
  }

  lemma {:induction false} EncodeEachGroups(messages: seq<seq<Byte>>)
    ensures GroupsPlain(EncodeEach(messages)) == Concat(messages) && Clean(EncodeEach(messages))
  {
    if messages != [] {
      EncodeEachGroups(messages[1..]);
      EncodedGroups(messages[0], EncodeEach(messages[1..]));
    }
  }

  /** End to end: messages encoded one by one, padding in mid-stream included,
      and cut into arbitrary fragments, come out as the messages themselves. */
  lemma {:induction false} StreamRoundTrip(messages: seq<seq<Byte>>, fragments: seq<seq<Byte>>)
    requires Concat(fragments) == EncodeEach(messages)
    ensures FeedAll(Decoder([], []), fragments).out == Concat(messages)
  {
    EncodeEachGroups(messages);
    FragmentationIrrelevant(fragments);
  }

  // ----------------------------------------- when the cuts make no difference

  /** No whole group of s can be decoded. */
  predicate NoGood(s: seq<Byte>) {
    |s| >= 4 ==> !GoodGroup(s[..4]) && NoGood(s[4..])
  }

  /** No good group follows a bad one. */
  predicate Tidy(s: seq<Byte>) {
    |s| >= 4 ==> if GoodGroup(s[..4]) then Tidy(s[4..]) else NoGood(s[4..])
  }

  lemma GoodPlainStep(s: seq<Byte>)
    requires |s| >= 4 && GoodGroup(s[..4])
    ensures GoodPlain(s) == Plain(Digits(s[..4])) + GoodPlain(s[4..])
  {
    var n := GoodGroups(s[4..]);
    assert s[..4 * (n + 1)][..4] == s[..4] && s[..4 * (n + 1)][4..] == s[4..][..4 * n];
  }

  /** Bad groups give no output, good ones at least a byte. */
  lemma GroupOutput(g: seq<Byte>)
    requires |g| == 4
    ensures Plain(Digits(g)) == [] <==> !GoodGroup(g)
  {
    PlainLengthRight(Digits(g));
  }

  lemma {:induction false} NoGoodMeans(s: seq<Byte>)
    ensures GroupsPlain(s) == [] <==> NoGood(s)
    ensures NoGood(s) ==> GoodGroups(s) == 0
  {
    if |s| >= 4 {
      GroupOutput(s[..4]);
      NoGoodMeans(s[4..]);
    }
  }

  /** The groups decoded one by one give what the good ones at the front do exactly
      if the stream is tidy. */
  lemma {:induction false} TidyMeans(s: seq<Byte>)
    ensures GroupsPlain(s) == GoodPlain(s) <==> Tidy(s)
  {
    if |s| < 4 {
      assert s[..0] == [];
    } else if GoodGroup(s[..4]) {
      TidyMeans(s[4..]);
      GoodPlainStep(s);
      var p := Plain(Digits(s[..4]));
      assert (p + GroupsPlain(s[4..]))[|p|..] == GroupsPlain(s[4..]);
      assert (p + GoodPlain(s[4..]))[|p|..] == GoodPlain(s[4..]);
    } else {
      NoGoodMeans(s);
      NoGoodMeans(s[4..]);
      assert GoodPlain(s) == [];
    }
  }

  /** The stream cut at every group. */
  function Groups(s: seq<Byte>): (fs: seq<seq<Byte>>)
    ensures Concat(fs) == s
  {
    if |s| < 4 then if s == [] then [] else [s] else [s[..4]] + Groups(s[4..])
  }

  lemma {:induction false} GroupAlone(g: seq<Byte>)
    requires |g| == 4
    ensures GoodPlain(g) == Plain(Digits(g)) && PartialGroup(g) == []
  {
    assert g[..4] == g && g[4..] == [];
    GroupOutput(g);
    if GoodGroup(g) {
      GoodPlainStep(g);
      assert GoodPlain([]) == [];
    } else {
      assert g[..0] == [];
    }
  }

  lemma {:induction false} FeedGroup(out: seq<Byte>, g: seq<Byte>)
    requires |g| == 4
    ensures Feed(Decoder(out, []), g) == Decoder(out + Plain(Digits(g)), [])
  {
    assert [] + g == g;
    GroupAlone(g);
  }

  lemma FeedShort(out: seq<Byte>, f: seq<Byte>)
    requires |f| < 4
    ensures Feed(Decoder(out, []), f) == Decoder(out, f)
  {
    assert [] + f == f && f[..0] == [];
  }

  /** Cut at every group, each group is decoded by itself. */
  lemma {:induction false} FeedGroups(out: seq<Byte>, s: seq<Byte>)
    ensures FeedAll(Decoder(out, []), Groups(s)).out == out + GroupsPlain(s)
    decreases |s|
  {
    if |s| < 4 {
      if s != [] {
        FeedShort(out, s);
        assert [s][1..] == [];
      }
    } else {
      var fs := Groups(s);
      assert fs[0] == s[..4] && fs[1..] == Groups(s[4..]);
      FeedGroup(out, s[..4]);
      FeedGroups(out + Plain(Digits(s[..4])), s[4..]);
      Append(out, Plain(Digits(s[..4])), GroupsPlain(s[4..]));
    }
  }

  /** In one piece, only the leading good groups are decoded. */
  lemma FeedWhole(s: seq<Byte>)
    ensures FeedAll(Decoder([], []), [s]).out == GoodPlain(s)
  {
    assert [] + s == s && [s][1..] == [];
    assert FeedAll(Decoder([], []), [s]) == FeedAll(Feed(Decoder([], []), s), []);
  }

  lemma {:induction false} GoodExtends(s: seq<Byte>, f: seq<Byte>)
    ensures GoodGroups(s) <= GoodGroups(s + f)
    ensures GoodGroups(s) < |s| / 4 ==> GoodGroups(s + f) == GoodGroups(s)
  {
    if |s| >= 4 {
      assert (s + f)[..4] == s[..4] && (s + f)[4..] == s[4..] + f;
      GoodExtends(s[4..], f);
    }
  }

  lemma {:induction false} NoGoodTail(s: seq<Byte>, q: nat)
    requires NoGood(s) && 4 * q <= |s|
    ensures NoGood(s[4 * q..])
  {
    if q == 0 {
      assert s[0..] == s;
    } else {
      NoGoodTail(s[4..], q - 1);
      assert s[4..][4 * (q - 1)..] == s[4 * q..];
    }
  }

  lemma {:induction false} TidyTail(s: seq<Byte>, q: nat)
    requires Tidy(s) && GoodGroups(s) < q && 4 * q <= |s|
    ensures NoGood(s[4 * q..])
  {
    assert s[4..][4 * (q - 1)..] == s[4 * q..];
    if GoodGroup(s[..4]) {
      TidyTail(s[4..], q - 1);
    } else {
      NoGoodTail(s[4..], q - 1);
    }
  }

  /** The carried bytes are the unfinished group of seen; after an error the
      terminator may stand in for the first of them. */
  predicate Carries(seen: seq<Byte>, carry: seq<Byte>) {
    var p := PartialGroup(seen);
    carry == p || (!Clean(seen) && p != [] && carry == [NUL] + p[1..])
  }

  /** Where the decoder stands after the bytes of a tidy stream seen so far. */
  predicate StandsAt(seen: seq<Byte>, d: Decoder) {
    d.out == GoodPlain(seen) && Carries(seen, d.carry)
  }

  /** The bytes from the last group boundary of seen on. */
  lemma Rejoin(seen: seq<Byte>, f: seq<Byte>)
    ensures var q := |seen| / 4; var u := PartialGroup(seen) + f;
            && 4 * q <= |seen| && u == (seen + f)[4 * q..] && (seen + f)[..4 * q] == seen[..4 * q]
            && PartialGroup(u) == PartialGroup(seen + f) && |seen + f| / 4 == q + |u| / 4
  {
    var q := |seen| / 4;
    var u := PartialGroup(seen) + f;
    assert u == (seen + f)[4 * q..];
    assert |seen + f| == 4 * q + |u|;
    assert PartialGroup(u) == (seen + f)[4 * q..][4 * (|u| / 4)..];
  }

  /** What comes out of seen and of the bytes u that follow its whole groups. */
  lemma {:induction false} GoodPlainJoins(s: seq<Byte>, seen: seq<Byte>, q: nat, u: seq<Byte>)
    requires 4 * q <= |seen| && 4 * q <= |s| && seen[..4 * q] == s[..4 * q] && u == s[4 * q..] && q <= GoodGroups(s)
    requires GoodGroups(seen) == q
    ensures GoodGroups(s) == q + GoodGroups(u) && GoodPlain(s) == GoodPlain(seen) + GoodPlain(u)
  {
    SplitGood(s, q);
    PlainUpTo(s, q, GoodGroups(u));
  }

  /** No error so far. */
  lemma {:induction false} FeedSound(seen: seq<Byte>, f: seq<Byte>, d: Decoder)
    requires Clean(seen) && StandsAt(seen, d)
    ensures StandsAt(seen + f, Feed(d, f))
  {
    var s, u := seen + f, d.carry + f;
    Rejoin(seen, f);
    GoodExtends(seen, f);
    GoodPlainJoins(s, seen, |seen| / 4, u);
    RestCarries(s, u);
  }

  lemma RestCarries(s: seq<Byte>, u: seq<Byte>)
    requires PartialGroup(u) == PartialGroup(s) && (Clean(u) <==> Clean(s))
    ensures Carries(s, Rest(u))
  {
  }

  /** A group whose first byte is the terminator is bad. */
  lemma NulIsBad(chunk: seq<Byte>)
    requires chunk != [] && chunk[0] == NUL
    ensures GoodGroups(chunk) == 0
  {
    if |chunk| >= 4 {
      assert chunk[..4][0] == NUL;
      assert Digits(chunk[..4]) == [];
    }
  }

  /** After an error: with only bad groups to come, nothing comes out. */
  lemma FeedBad(out: seq<Byte>, u: seq<Byte>, carry: seq<Byte>, f: seq<Byte>)
    requires NoGood(u) && |carry| <= 3
    requires carry + f == u || (u != [] && carry + f == [NUL] + u[1..])
    ensures var d := Feed(Decoder(out, carry), f); var p := PartialGroup(u);
            d.out == out && (d.carry == p || (p != [] && d.carry == [NUL] + p[1..]))
  {
    var chunk := carry + f;
    NoGoodMeans(u);
    if chunk != u {
      NulIsBad(chunk);
    }
    assert chunk[..0] == [];
    if |u| >= 4 {
      assert PartialGroup(chunk) == PartialGroup(u);
    }
  }

  lemma CarryRejoins(p: seq<Byte>, carry: seq<Byte>, f: seq<Byte>)
    requires carry == p || (p != [] && carry == [NUL] + p[1..])
    ensures carry + f == p + f || (p + f != [] && carry + f == [NUL] + (p + f)[1..])
  {
    if carry != p {
      assert (p + f)[1..] == p[1..] + f;
    }
  }

  lemma GoodPlainStays(seen: seq<Byte>, f: seq<Byte>)
    requires !Clean(seen)
    ensures GoodPlain(seen + f) == GoodPlain(seen) && !Clean(seen + f)
  {
    GoodExtends(seen, f);
    var n := GoodGroups(seen);
    assert (seen + f)[..4 * n] == seen[..4 * n];
  }

  lemma {:induction false} FeedAfterError(seen: seq<Byte>, f: seq<Byte>, d: Decoder)
    requires Tidy(seen + f) && !Clean(seen) && StandsAt(seen, d)
    ensures StandsAt(seen + f, Feed(d, f))
  {
    var q, p := |seen| / 4, PartialGroup(seen);
    Rejoin(seen, f);
    GoodPlainStays(seen, f);
    GoodExtends(seen, f);
    TidyTail(seen + f, q);
    CarryRejoins(p, d.carry, f);
    FeedBad(d.out, p + f, d.carry, f);
    assert d == Decoder(d.out, d.carry);
  }

  lemma {:induction false} TidyPrefix(s: seq<Byte>, t: seq<Byte>)
    requires Tidy(s + t)
    ensures Tidy(s)
  {
    if |s| >= 4 {
      assert (s + t)[..4] == s[..4] && (s + t)[4..] == s[4..] + t;
      if GoodGroup(s[..4]) {
        TidyPrefix(s[4..], t);
      } else {
        NoGoodPrefix(s[4..], t);
      }
    }
  }

  lemma {:induction false} NoGoodPrefix(s: seq<Byte>, t: seq<Byte>)
    requires NoGood(s + t)
    ensures NoGood(s)
  {
    if |s| >= 4 {
      assert (s + t)[..4] == s[..4] && (s + t)[4..] == s[4..] + t;
      NoGoodPrefix(s[4..], t);
    }
  }

  lemma {:induction false} FeedAllTidy(seen: seq<Byte>, fragments: seq<seq<Byte>>, d: Decoder)
    requires Tidy(seen + Concat(fragments)) && StandsAt(seen, d)
    ensures StandsAt(seen + Concat(fragments), FeedAll(d, fragments))
    decreases |fragments|
  {
    if fragments == [] {
      assert seen + Concat(fragments) == seen;
    } else {
      var f, rest := fragments[0], Concat(fragments[1..]);
      assert seen + (f + rest) == (seen + f) + rest;
      TidyPrefix(seen + f, rest);
      if Clean(seen) {
        FeedSound(seen, f, d);
      } else {
        FeedAfterError(seen, f, d);
      }
      FeedAllTidy(seen + f, fragments[1..], Feed(d, f));
    }
  }

  lemma TidyOutput(s: seq<Byte>, fragments: seq<seq<Byte>>)
    requires Tidy(s) && Concat(fragments) == s
    ensures FeedAll(Decoder([], []), fragments).out == GoodPlain(s)
  {
    assert [] + s == s;
    FeedAllTidy([], fragments, Decoder([], []));
  }

  lemma UntidyDiffers(s: seq<Byte>)
    requires !Tidy(s)
    ensures FeedAll(Decoder([], []), [s]).out != FeedAll(Decoder([], []), Groups(s)).out
  {
    TidyMeans(s);
    FeedWhole(s);
    FeedGroups([], s);
    assert [] + GroupsPlain(s) == GroupsPlain(s);
  }

  /** All ways to cut a stream give the same output if and only if no good group
      follows a bad one; the output is then that of the leading good groups. */
  lemma FragmentationExactly(s: seq<Byte>)
    ensures (forall fs, gs | Concat(fs) == s && Concat(gs) == s ::
               FeedAll(Decoder([], []), fs).out == FeedAll(Decoder([], []), gs).out) <==> Tidy(s)
    ensures Tidy(s) ==> forall fs | Concat(fs) == s :: FeedAll(Decoder([], []), fs).out == GoodPlain(s)
  {
    if Tidy(s) {
      forall fs | Concat(fs) == s
        ensures FeedAll(Decoder([], []), fs).out == GoodPlain(s)
      {
        TidyOutput(s, fs);
      }
    } else {
      UntidyDiffers(s);
      assert Concat([s]) == s && Concat(Groups(s)) == s;
    }
  }

  const CORRUPT: seq<Byte> := [33, 33, 33, 33]
  const SOUND: seq<Byte> := [81, 85, 74, 68]

  lemma BadFeeds(t: seq<Byte>)
    requires |t| % 4 == 0
    ensures Feed(Decoder([], []), CORRUPT + t) == Decoder([], [])
  {
    var chunk := [] + (CORRUPT + t);
    assert chunk[..4] == CORRUPT && Digits(CORRUPT) == [];
    assert PartialGroup(chunk) == [];
  }

  lemma GoodFeeds()
    ensures Feed(Decoder([], []), SOUND).out == [65, 66, 67]
  {
    var a: seq<Byte>, b: seq<Byte>, c: seq<Byte> := [85, 74, 68], [74, 68], [68];
    assert SOUND[1..] == a && a[1..] == b && b[1..] == c && c[1..] == [];
    assert Digits(c) == [3] && Digits(b) == [9, 3] && Digits(a) == [20, 9, 3] && Digits(SOUND) == [16, 20, 9, 3];
    assert Plain(Digits(SOUND)) == [65, 66, 67];
    GoodFirst(SOUND, []);
    assert SOUND + [] == SOUND && [] + SOUND == SOUND && SOUND[..4] == SOUND;
  }

  /** A corrupt group makes the output depend on the cuts: in one read the good
      group behind it is dropped, in two reads it is decoded. */
  lemma CorruptStreamDependsOnCuts()
    ensures FeedAll(Decoder([], []), [CORRUPT + SOUND]).out == []
    ensures FeedAll(Decoder([], []), [CORRUPT, SOUND]).out == [65, 66, 67]
  {
    BadFeeds(SOUND);
    BadFeeds([]);
    GoodFeeds();
    assert CORRUPT + [] == CORRUPT;
    var d := Decoder([], []);
    assert [CORRUPT, SOUND][1..] == [SOUND] && [SOUND][1..] == [] && [CORRUPT + SOUND][1..] == [];
    assert FeedAll(d, [SOUND]) == FeedAll(Feed(d, SOUND), []);
    assert FeedAll(d, [CORRUPT, SOUND]) == FeedAll(Feed(d, CORRUPT), [SOUND]);
    assert FeedAll(d, [CORRUPT + SOUND]) == FeedAll(Feed(d, CORRUPT + SOUND), []);
  }
}
