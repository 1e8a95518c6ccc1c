/**
 The base64 codec of CFBasic/base64.c, against section 4 of RFC 4648.
 Shifts and masks of the code appear as division and remainder.
 */
module Base64 {

  import opened Bytes
  import opened Sequences

  type Sextet = x: int | 0 <= x < 64 witness 0

  const PAD: Byte := '=' as int

  /** The table pr2six: the value of an alphabet character, 64 for any other. */
  function Six(c: Byte): (v: nat)
    ensures v <= 64
  {
    if 65 <= c <= 90 then c - 65
    else if 97 <= c <= 122 then c - 71
    else if 48 <= c <= 57 then c + 4
    else if c == 43 then 62
    else if c == 47 then 63
    else 64
  }

  /** The table basis_64. */
  function Basis(v: Sextet): (c: Byte)
    ensures Six(c) == v
  {
    if v < 26 then v + 65 else if v < 52 then v + 71 else if v < 62 then v - 4 else if v == 62 then 43 else 47
  }

  const ALPHABET: seq<string> := ["ABCDEFGHIJKLMNOP", "QRSTUVWXYZabcdef", "ghijklmnopqrstuv", "wxyz0123456789+/"]

  lemma Row(v: nat, row: nat)
    requires v < 16 && row < 4
    ensures Basis(16 * row + v) == ALPHABET[row][v] as int
  {
  }

  lemma SixInverts(c: Byte)
    ensures Six(c) < 64 ==> Basis(Six(c)) == c
  {
  }

  /** Table 1 of RFC 4648, both ways. */
  lemma AlphabetExactly(v: Sextet, c: Byte)
    ensures var a := ALPHABET[v / 16][v % 16] as int; Basis(v) == a && (Six(c) == v <==> c == a)
  {
    Row(v % 16, v / 16);
    SixInverts(c);
  }

  // ------------------------------------------------------- reference coding

  function At(s: seq<Byte>, i: nat): (b: nat)
    ensures b < 256
  {
    if i < |s| then s[i] else 0
  }

  /** The 24-bit number of a group of up to three bytes, zero-filled. */
  function Word24(s: seq<Byte>): (n: nat) {
    At(s, 0) * 65536 + At(s, 1) * 256 + At(s, 2)
  }

  function Chars(d: seq<Sextet>): (r: seq<Byte>)
    ensures |r| == |d| && forall i | 0 <= i < |d| :: r[i] == Basis(d[i])
  {
    if d == [] then [] else [Basis(d[0])] + Chars(d[1..])
  }

  function Padding(len: nat): (r: seq<Byte>) {
    if len % 3 == 0 then [] else if len % 3 == 1 then [PAD, PAD] else [PAD]
  }

  /** The values of the leading alphabet characters. */
  function Digits(s: seq<Byte>): (d: seq<Sextet>)
    ensures |d| <= |s| && (forall i | 0 <= i < |d| :: d[i] == Six(s[i]))
    ensures |d| < |s| ==> Six(s[|d|]) == 64
  {
    if s == [] || Six(s[0]) == 64 then [] else [Six(s[0])] + Digits(s[1..])
  }

  // ------------------------------------------------------------- the shifts

  function Byte0(a: Sextet, b: Sextet): (r: Byte) { a as int * 4 + b as int / 16 }
  function Byte1(b: Sextet, c: Sextet): (r: Byte) { b as int % 16 * 16 + c as int / 4 }
  function Byte2(c: Sextet, d: Sextet): (r: Byte) { c as int % 4 * 64 + d as int }

  function Sextet0(a: nat): (r: Sextet) requires a < 256 { a / 4 }
  function Sextet1(a: nat, b: nat): (r: Sextet) requires a < 256 && b < 256 { a % 4 * 16 + b / 16 }
  function Sextet2(b: nat, c: nat): (r: Sextet) requires b < 256 && c < 256 { b % 16 * 4 + c / 64 }
  function Sextet3(c: nat): (r: Sextet) { c % 64 }

  /** The four 6-bit digits of a group of up to three bytes. */
  function Cut(s: seq<Byte>): (r: seq<Sextet>)
    ensures |r| == 4
  {
    [Sextet0(At(s, 0)), Sextet1(At(s, 0), At(s, 1)), Sextet2(At(s, 1), At(s, 2)), Sextet3(At(s, 2))]
  }

  /** Section 4 of RFC 4648: every group is cut into digits, and a final group
      of one or two bytes gives two or three of them. */
  function Sextets(s: seq<Byte>): (r: seq<Sextet>) {
    if s == [] then [] else if |s| < 3 then Cut(s)[..|s| + 1] else Cut(s) + Sextets(s[3..])
  }

  function Encoded(s: seq<Byte>): (r: seq<Byte>) {
    Chars(Sextets(s)) + Padding(|s|)
  }

  /** The bytes of a digit string: three for each four digits, one or two for a
      rest of two or three, none for a single digit left over. */
  function Plain(d: seq<Sextet>): (r: seq<Byte>) {
    if |d| < 2 then []
    else if |d| == 2 then [Byte0(d[0], d[1])]
    else if |d| == 3 then [Byte0(d[0], d[1]), Byte1(d[1], d[2])]
    else [Byte0(d[0], d[1]), Byte1(d[1], d[2]), Byte2(d[2], d[3])] + Plain(d[4..])
  }

  function PlainLength(n: nat): (r: nat) {
    n / 4 * 3 + (if n % 4 < 2 then 0 else n % 4 - 1)
  }

  lemma {:induction false} SextetsLength(s: seq<Byte>)
    ensures |Sextets(s)| == |s| / 3 * 4 + (if |s| % 3 == 0 then 0 else |s| % 3 + 1)
  {
    if |s| >= 3 {
      SextetsLength(s[3..]);
    }
  }

  lemma EncodedLength(s: seq<Byte>)
    ensures |Encoded(s)| + 1 == EncodeLen(|s|)
  {
    SextetsLength(s);
  }

  lemma {:induction false} PlainLengthRight(d: seq<Sextet>)
    ensures |Plain(d)| == PlainLength(|d|)
  {
    if |d| >= 4 {
      PlainLengthRight(d[4..]);
    }
  }

  // ------------------------------------------- the digits are the reference

  lemma Digits24(n: nat, p: int, q: int, r: int, t: int)
    requires 0 <= p && 0 <= q < 64 && 0 <= r < 64 && 0 <= t < 64
    requires n == 262144 * p + 4096 * q + 64 * r + t
    ensures n / 262144 == p && n / 4096 % 64 == q && n / 64 % 64 == r && n % 64 == t
  {
    assert n / 64 == 4096 * p + 64 * q + r;
    assert n / 4096 == 64 * p + q;
  }

  /** The encoder's shifts give the base-64 digits of the 24-bit number. */
  lemma {:induction false} CutIsWord24(s: seq<Byte>)
    ensures var n, d := Word24(s), Cut(s);
            d[0] == n / 262144 && d[1] == n / 4096 % 64 && d[2] == n / 64 % 64 && d[3] == n % 64
  {
    var d := Cut(s);
    Digits24(Word24(s), d[0], d[1], d[2], d[3]);
  }

  // ------------------------------------------------------------- round trip

  lemma Regroup(a: nat, b: nat, c: nat)
    requires a < 256 && b < 256 && c < 256
    ensures Byte0(Sextet0(a), Sextet1(a, b)) == a
    ensures Byte1(Sextet1(a, b), Sextet2(b, c)) == b
    ensures Byte2(Sextet2(b, c), Sextet3(c)) == c
  {
  }

  lemma {:induction false} PlainOfCut(s: seq<Byte>, rest: seq<Sextet>)
    ensures Plain(Cut(s) + rest) == [At(s, 0), At(s, 1), At(s, 2)] + Plain(rest)
  {
    Regroup(At(s, 0), At(s, 1), At(s, 2));
    assert (Cut(s) + rest)[4..] == rest;
  }

  lemma PlainOfShort(s: seq<Byte>)
    requires 1 <= |s| <= 2
    ensures Plain(Cut(s)[..|s| + 1]) == s
  {
    if |s| == 1 {
      PlainOfOne(s[0]);
      assert Cut(s)[..2] == [Sextet0(s[0]), Sextet1(s[0], 0)];
    } else {
      PlainOfTwo(s[0], s[1]);
      assert Cut(s)[..3] == [Sextet0(s[0]), Sextet1(s[0], s[1]), Sextet2(s[1], 0)];
    }
  }

  lemma PlainOfOne(a: Byte)
    ensures Plain([Sextet0(a), Sextet1(a, 0)]) == [a]
  {
  }

  lemma PlainOfTwo(a: Byte, b: Byte)
    ensures Plain([Sextet0(a), Sextet1(a, b), Sextet2(b, 0)]) == [a, b]
  {
    Regroup(a, b, 0);
  }

  lemma {:induction false} PlainOfSextets(s: seq<Byte>)
    ensures Plain(Sextets(s)) == s
  {
    if |s| >= 3 {
      PlainOfSextets(s[3..]);
      PlainOfCut(s, Sextets(s[3..]));
    } else if s != [] {
      PlainOfShort(s);
    }
  }

  lemma {:induction false} DigitsOfChars(d: seq<Sextet>, rest: seq<Byte>)
    requires rest != [] ==> Six(rest[0]) == 64
    ensures Digits(Chars(d) + rest) == d
  {
    if d != [] {
      DigitsOfChars(d[1..], rest);
      assert (Chars(d) + rest)[1..] == Chars(d[1..]) + rest;
    } else {
      assert Chars(d) + rest == rest;
    }
  }

  /** Decoding what was encoded gives the original bytes back, for every byte
      string and whatever follows the terminator. */
  lemma {:induction false} RoundTrip(s: seq<Byte>, beyond: seq<Byte>)
    ensures Plain(Digits(Encoded(s) + [NUL] + beyond)) == s
  {
    var tail := [NUL] + beyond;
    Append(Encoded(s), [NUL], beyond);
    Append(Chars(Sextets(s)), Padding(|s|), tail);
    DigitsOfChars(Sextets(s), Padding(|s|) + tail);
    PlainOfSextets(s);
  }

  // --------------------------------------------------------------- the code

  function EncodeLen(len: nat): (r: nat) {
    (len + 2) / 3 * 4 + 1
  }

  /** The four characters the encoder writes for three bytes, or for the one or
      two that are left. */
  function Quad(s: seq<Byte>): (r: seq<Byte>)
    requires s != []
    ensures |r| == 4
  {
    [Basis(Sextet0(s[0])), Basis(Sextet1(s[0], At(s, 1))),
     if |s| > 1 then Basis(Sextet2(s[1], At(s, 2))) else PAD,
     if |s| > 2 then Basis(Sextet3(s[2])) else PAD]
  }

  lemma CharsConcat(d: seq<Sextet>, e: seq<Sextet>)
    ensures Chars(d + e) == Chars(d) + Chars(e)
  {
  }

  lemma CharsOfCut(s: seq<Byte>)
    requires |s| >= 3
    ensures Chars(Cut(s)) == Quad(s[..3])
  {
  }

  lemma QuadLong(s: seq<Byte>)
    requires |s| >= 3
    ensures Encoded(s) == Quad(s[..3]) + Encoded(s[3..])
  {
    SextetsLong(s);
    CharsConcat(Cut(s), Sextets(s[3..]));
    CharsOfCut(s);
    PaddingPeriodic(|s[3..]|);
    Append(Quad(s[..3]), Chars(Sextets(s[3..])), Padding(|s|));
  }

  lemma SextetsLong(s: seq<Byte>)
    requires |s| >= 3
    ensures Sextets(s) == Cut(s) + Sextets(s[3..])
  {
  }

  lemma PaddingPeriodic(n: nat)
    ensures Padding(n + 3) == Padding(n)
  {
  }

  lemma QuadShort(s: seq<Byte>)
    requires 1 <= |s| <= 2
    ensures Encoded(s) == Quad(s)
  {
  }

  /** The loop of Base64encode over whole groups of three. */
  method EncodeGroups(encoded: array<Byte>, s: seq<Byte>) returns (p: nat, i: nat)
    requires encoded.Length >= |Encoded(s)|
    modifies encoded
    ensures i <= |s| <= i + 2 && p <= encoded.Length && encoded[..p] + Encoded(s[i..]) == Encoded(s)
    ensures forall k | p <= k < encoded.Length :: encoded[k] == old(encoded[k])
  {
    p, i := 0, 0;
    assert s[0..] == s;
    while i + 2 < |s|
      invariant i <= |s| && p <= encoded.Length && encoded[..p] + Encoded(s[i..]) == Encoded(s)
      invariant forall k | p <= k < encoded.Length :: encoded[k] == old(encoded[k])
    {
      QuadLong(s[i..]);
      assert s[i..][..3] == s[i..i + 3] && s[i..][3..] == s[i + 3..];
      ghost var done := encoded[..p];
      Write(encoded, p, Quad(s[i..i + 3]));
      Append(done, Quad(s[i..i + 3]), Encoded(s[i + 3..]));
      p, i := p + 4, i + 3;
    }
  }

  /** Base64encode: writes the encoding and a terminator, and nothing else. */
  method Base64encode(encoded: array<Byte>, s: seq<Byte>) returns (n: nat)
    requires encoded.Length >= EncodeLen(|s|)
    modifies encoded
    ensures n == EncodeLen(|s|) && encoded[..n] == Encoded(s) + [NUL]
    ensures forall k | n <= k < encoded.Length :: encoded[k] == old(encoded[k])
  {
    EncodedLength(s);
    var p, i := EncodeGroups(encoded, s);
    p := EncodeRest(encoded, p, s[i..]);
    Write(encoded, p, [NUL]);
    n := p + 1;
  }

  /** The one or two bytes that are left, if any. */
  method EncodeRest(encoded: array<Byte>, at: nat, rest: seq<Byte>) returns (p: nat)
    requires |rest| <= 2 && at + |Encoded(rest)| <= encoded.Length
    modifies encoded
    ensures p == at + |Encoded(rest)| && encoded[..p] == old(encoded[..at]) + Encoded(rest)
    ensures forall k | p <= k < encoded.Length :: encoded[k] == old(encoded[k])
  {
    p := at;
    if rest != [] {
      QuadShort(rest);
      Write(encoded, p, Quad(rest));
      p := p + 4;
    } else {
      assert Encoded(rest) == [];
    }
  }

  /** Stores q at p, as the run of `*p++ = ...` does. */
  method Write(out: array<Byte>, p: nat, q: seq<Byte>)
    requires p + |q| <= out.Length
    modifies out
    ensures out[..p + |q|] == old(out[..p]) + q
    ensures forall k | p + |q| <= k < out.Length :: out[k] == old(out[k])
  {
    for k := 0 to |q|
      invariant forall j | 0 <= j < k :: out[p + j] == q[j]
      invariant forall j | 0 <= j < p || p + k <= j < out.Length :: out[j] == old(out[j])
    {
      out[p + k] := q[k];
    }
    forall j | p <= j < p + |q|
      ensures out[j] == q[j - p]
    {
      assert out[p + (j - p)] == q[j - p];
    }
  }

  /** The number of digits before the first character outside the alphabet. */
  method CountDigits(coded: seq<Byte>) returns (n: nat)
    requires |Digits(coded)| < |coded|
    ensures n == |Digits(coded)|
  {
    var i := 0;
    while Six(coded[i]) <= 63
      invariant i <= |Digits(coded)|
      decreases |coded| - i
    {
      i := i + 1;
    }
    n := i;
  }

  method Base64decode_len(coded: seq<Byte>) returns (n: nat)
    requires |Digits(coded)| < |coded|
    ensures n == DecodeLen(|Digits(coded)|)
  {
    var digits := CountDigits(coded);
    n := (digits + 3) / 4 * 3 + 1;
  }

  function DecodeLen(digits: nat): (r: nat) {
    (digits + 3) / 4 * 3 + 1
  }

  /** The three bytes of the four digits at i. */
  function Triple(d: seq<Sextet>, i: nat): (r: seq<Byte>)
    requires i + 4 <= |d|
    ensures |r| == 3
  {
    [Byte0(d[i], d[i + 1]), Byte1(d[i + 1], d[i + 2]), Byte2(d[i + 2], d[i + 3])]
  }

  lemma PlainStep(d: seq<Sextet>, i: nat, done: seq<Byte>)
    requires i + 4 <= |d|
    ensures done + Plain(d[i..]) == done + Triple(d, i) + Plain(d[i + 4..])
  {
    assert d[i..][4..] == d[i + 4..];
    Append(done, Triple(d, i), Plain(d[i + 4..]));
  }

  lemma PlainRest(d: seq<Sextet>)
    requires |d| <= 4
    ensures Plain(d) == (if |d| > 1 then [Byte0(d[0], d[1])] else []) + (if |d| > 2 then [Byte1(d[1], d[2])] else [])
                        + (if |d| > 3 then [Byte2(d[2], d[3])] else [])
  {
  }

  /** The decoder's byte count agrees with the number of bytes it writes. */
  lemma CountRight(digits: nat, g: nat, rest: nat)
    requires digits == 4 * g + rest && rest <= 4 && (g > 0 ==> rest > 0)
    ensures (digits + 3) / 4 * 3 - (4 - rest) % 4 == PlainLength(digits) <= (digits + 3) / 4 * 3
  {
    if rest == 0 {
    } else if rest == 4 {
      assert digits / 4 == g + 1 && (digits + 3) / 4 == g + 1;
    } else {
      assert digits / 4 == g && (digits + 3) / 4 == g + 1;
    }
  }

  method DecodeTriple(plain: array<Byte>, coded: seq<Byte>, out: nat, i: nat)
    requires i + 4 <= |Digits(coded)| && out + 3 <= plain.Length
    modifies plain
    ensures plain[..out + 3] == old(plain[..out]) + Triple(Digits(coded), i)
    ensures forall k | out + 3 <= k < plain.Length :: plain[k] == old(plain[k])
  {
    Write(plain, out, [Byte0(Six(coded[i]), Six(coded[i + 1])), Byte1(Six(coded[i + 1]), Six(coded[i + 2])),
                       Byte2(Six(coded[i + 2]), Six(coded[i + 3]))]);
  }

  /** The loop of Base64decode: all digits but the last one to four. */
  method DecodeGroups(plain: array<Byte>, at: nat, coded: seq<Byte>, digits: nat)
    returns (out: nat, i: nat, rest: nat, ghost g: nat)
    requires digits == |Digits(coded)| && plain.Length >= at + |Plain(Digits(coded))|
    modifies plain
    ensures i == 4 * g && i + rest == digits && rest <= 4 && (g > 0 ==> rest > 0) && out <= plain.Length
    ensures plain[..out] + Plain(Digits(coded)[i..]) == old(plain[..at]) + Plain(Digits(coded))
    ensures forall k | out <= k < plain.Length :: plain[k] == old(plain[k])
  {
    ghost var d := Digits(coded);
    ghost var total := plain[..at] + Plain(d);
    out, i, rest, g := at, 0, digits, 0;
    assert d[0..] == d;
    while rest > 4
      invariant i == 4 * g && i + rest == |d| && (g > 0 ==> rest > 0) && out <= plain.Length
      invariant plain[..out] + Plain(d[i..]) == total
      invariant forall k | out <= k < plain.Length :: plain[k] == old(plain[k])
    {
      PlainStep(d, i, plain[..out]);
      assert out + 3 <= |total|;
      DecodeTriple(plain, coded, out, i);
      out, i, rest, g := out + 3, i + 4, rest - 4, g + 1;
    }
  }

  /** The tail of Base64decode: the last one to four digits. */
  method DecodeRest(plain: array<Byte>, coded: seq<Byte>, at: nat, i: nat, rest: nat) returns (out: nat)
    requires i + rest == |Digits(coded)| && rest <= 4 && at + |Plain(Digits(coded)[i..])| <= plain.Length
    modifies plain
    ensures out == at + |Plain(Digits(coded)[i..])| && plain[..out] == old(plain[..at]) + Plain(Digits(coded)[i..])
    ensures forall k | out <= k < plain.Length :: plain[k] == old(plain[k])
  {
    PlainRest(Digits(coded)[i..]);
    out := at;
    if rest > 1 {
      Write(plain, out, [Byte0(Six(coded[i]), Six(coded[i + 1]))]);
      out := out + 1;
    }
    if rest > 2 {
      Write(plain, out, [Byte1(Six(coded[i + 1]), Six(coded[i + 2]))]);
      out := out + 1;
    }
    if rest > 3 {
      Write(plain, out, [Byte2(Six(coded[i + 2]), Six(coded[i + 3]))]);
      out := out + 1;
    }
  }

  /** Base64decode on a terminated input: writes the plain bytes and one
      terminator at the given place, returns their number, and stays within
      Base64decode_len. */
  method Base64decode(plain: array<Byte>, at: nat, coded: seq<Byte>) returns (n: nat)
    requires |Digits(coded)| < |coded| && plain.Length >= at + DecodeLen(|Digits(coded)|)
    modifies plain
    ensures n == |Plain(Digits(coded))| && n + 1 <= DecodeLen(|Digits(coded)|)
    ensures plain[..at + n] == old(plain[..at]) + Plain(Digits(coded)) && plain[at + n] == NUL
    ensures forall k | at + n + 1 <= k < plain.Length :: plain[k] == old(plain[k])
  {
    PlainLengthRight(Digits(coded));
    var digits := CountDigits(coded);
    n := (digits + 3) / 4 * 3;
    DecodeRoom(digits);
    var out, i, rest, g := DecodeGroups(plain, at, coded, digits);
    out := DecodeRest(plain, coded, out, i, rest);
    plain[out] := NUL;
    CountRight(digits, g, rest);
    n := n - (4 - rest) % 4;
  }

  lemma DecodeRoom(digits: nat)
    ensures PlainLength(digits) + 1 <= DecodeLen(digits)
  {
  }
}
