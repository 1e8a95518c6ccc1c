/** Where a message ends in the bytes buffered so far: the examination that
    CFHttp/HTTPRequestStream.cpp makes with CFCore/StringParser.cpp. */
module Framing {
  import opened Bytes

  const DOLLAR: Byte := '$' as int

  predicate IsEol(b: Byte) {
    b == CR || b == LF
  }

  /** ConsumeUntil with the end-of-line mask. */
  function NextEol(s: seq<Byte>, i: nat): (j: nat)
    requires i <= |s|
    ensures i <= j <= |s| && (j < |s| ==> IsEol(s[j])) && forall k | i <= k < j :: !IsEol(s[k])
    decreases |s| - i
  {
    if i == |s| || IsEol(s[i]) then i else NextEol(s, i + 1)
  }

  /** ExpectEOL: past a line end, which is one byte or the pair CR LF. */
  function PastEol(s: seq<Byte>, i: nat): (r: nat)
    requires i < |s| && IsEol(s[i])
    ensures i < r <= |s|
  {
    if s[i] == CR && i + 1 < |s| && s[i + 1] == LF then i + 2 else i + 1
  }

  datatype Scan = Ends(at: nat) | Open

  predicate SplitPair(s: seq<Byte>, m: nat)
    requires m <= |s|
  {
    m > 2 && s[m - 3] == CR && s[m - 2] == LF && s[m - 1] == CR
  }

  datatype Step = Found(at: nat) | NoLine | Next(at: nat)

  /** What one line of the search, from place i on, leads to. */
  function Line(s: seq<Byte>, i: nat, first: bool): (r: Step)
    requires i <= |s|
    ensures !r.NoLine? ==> i < r.at <= |s|
  {
    var j := NextEol(s, i);
    if j == |s| then NoLine
    else
      var n := PastEol(s, j);
      if n < |s| && IsEol(s[n]) then
        var m := PastEol(s, n);
        if SplitPair(s, m) then Next(m) else Found(m)
      else if first && SPACE !in s then Found(n)
      else Next(n)
  }

  /** The search for the end of the header, from place i after some lines. */
  function HeaderEnd(s: seq<Byte>, i: nat, lines: nat): (r: Scan)
    requires i <= |s|
    ensures r.Ends? ==> i < r.at <= |s|
    decreases |s| - i
  {
    match Line(s, i, lines == 0)
    case Found(e) => Ends(e)
    case NoLine => Open
    case Next(n) => HeaderEnd(s, n, lines + 1)
  }

  method ConsumeUntilEol(s: seq<Byte>, i: nat) returns (j: nat)
    requires i <= |s|
    ensures j == NextEol(s, i)
  {
    j := i;
    while j < |s| && !IsEol(s[j])
      invariant i <= j <= |s| && NextEol(s, i) == NextEol(s, j)
    {
      j := j + 1;
    }
  }

  /** The count of blanks that tells a password line from a request. */
  method HasBlank(s: seq<Byte>) returns (r: bool)
    ensures r <==> SPACE in s
  {
    var flag := 0;
    for i := 0 to |s|
      invariant 0 <= flag && (flag > 0 <==> SPACE in s[..i])
    {
      assert s[..i + 1] == s[..i] + [s[i]];
      if s[i] == SPACE {
        flag := flag + 1;
      }
    }
    assert s[..|s|] == s;
    r := flag > 0;
  }

  /** The loop over the lines of the buffered bytes. */
  method FindHeaderEnd(s: seq<Byte>) returns (r: Scan)
    ensures r == HeaderEnd(s, 0, 0)
  {
    var i: nat, lines: nat := 0, 0;
    while true
      invariant i <= |s| && HeaderEnd(s, 0, 0) == HeaderEnd(s, i, lines)
      decreases |s| - i
    {
      var j := ConsumeUntilEol(s, i);
      if j == |s| {
        return Open;
      }
      i := PastEol(s, j);
      lines := lines + 1;
      if i < |s| && IsEol(s[i]) {
        i := PastEol(s, i);
        if !SplitPair(s, i) {
          return Ends(i);
        }
      } else if lines == 1 {
        var blank := HasBlank(s);
        if !blank {
          return Ends(i);
        }
      }
    }
  }

  // --------------------------------------------------- framing of CRLF streams

  predicate DoubleEol(s: seq<Byte>, p: nat) {
    p + 4 <= |s| && s[p] == CR && s[p + 1] == LF && s[p + 2] == CR && s[p + 3] == LF
  }

  /** CR and LF come only as a pair, which may be cut at the end. */
  predicate CrlfOnly(s: seq<Byte>) {
    && (forall i | 0 <= i < |s| && s[i] == LF :: i > 0 && s[i - 1] == CR)
    && (forall i | 0 <= i < |s| - 1 && s[i] == CR :: s[i + 1] == LF)
  }

  /** The first line has a blank, if it is complete. */
  predicate Blanked(s: seq<Byte>) {
    forall i | 0 <= i < |s| && s[i] == CR :: SPACE in s[..i]
  }

  ghost predicate NoneBefore(s: seq<Byte>, i: nat) {
    forall p: nat | p < i :: !DoubleEol(s, p)
  }

  /** What the search finds from the start of a line on. */
  ghost predicate Exact(s: seq<Byte>, r: Scan) {
    match r
    case Ends(e) => e >= 4 && DoubleEol(s, e - 4) && NoneBefore(s, e - 4)
    case Open => NoneBefore(s, |s|)
  }

  lemma EolIsCr(s: seq<Byte>, i: nat)
    requires CrlfOnly(s) && i <= |s| && (i == 0 || i == |s| || s[i - 1] != CR)
    ensures var j := NextEol(s, i); j < |s| ==> s[j] == CR
  {
    var j := NextEol(s, i);
    assert j > i ==> !IsEol(s[j - 1]);
  }

  lemma NoneUpToEol(s: seq<Byte>, i: nat)
    requires i <= |s| && NoneBefore(s, i)
    ensures NoneBefore(s, NextEol(s, i))
  {
  }

  /** Past one line end that does not start a CRLFCRLF. */
  lemma NonePastEol(s: seq<Byte>, j: nat)
    requires CrlfOnly(s) && j < |s| && s[j] == CR && NoneBefore(s, j) && !DoubleEol(s, j)
    ensures NoneBefore(s, PastEol(s, j)) && (PastEol(s, j) < |s| ==> s[PastEol(s, j) - 1] == LF)
  {
  }

  /** A line end, an empty line and what the scan makes of it. */
  lemma EmptyLineAt(s: seq<Byte>, j: nat)
    requires CrlfOnly(s) && j < |s| && s[j] == CR && NoneBefore(s, j)
    requires PastEol(s, j) < |s| && IsEol(s[PastEol(s, j)])
    ensures var n := PastEol(s, j); var m := PastEol(s, n);
            if SplitPair(s, m) then m == |s| && !DoubleEol(s, j) else m == j + 4 && DoubleEol(s, j)
  {
    assert s[j + 1] == LF && s[j + 2] == CR;
  }

  lemma NoneToEnd(s: seq<Byte>, j: nat)
    requires NoneBefore(s, j) && !DoubleEol(s, j) && |s| <= j + 3
    ensures NoneBefore(s, |s|)
  {
  }

  /** A place from which the search goes on: the start of a line, or the end. */
  ghost predicate AtLine(s: seq<Byte>, i: nat) {
    i <= |s| && NoneBefore(s, i) && (i == 0 || i == |s| || s[i - 1] == LF)
  }

  lemma LineIsExact(s: seq<Byte>, i: nat, first: bool)
    requires CrlfOnly(s) && Blanked(s) && AtLine(s, i)
    ensures match Line(s, i, first)
            case Found(e) => Exact(s, Ends(e))
            case NoLine => Exact(s, Open)
            case Next(n) => AtLine(s, n)
  {
    var j := NextEol(s, i);
    EolIsCr(s, i);
    NoneUpToEol(s, i);
    if j < |s| {
      assert SPACE in s[..j];
      var n := PastEol(s, j);
      if n < |s| && IsEol(s[n]) {
        EmptyLineAt(s, j);
        if SplitPair(s, PastEol(s, n)) {
          NoneToEnd(s, j);
        }
      } else {
        NonePastEol(s, j);
      }
    }
  }

  lemma {:induction false} SearchIsExact(s: seq<Byte>, i: nat, lines: nat)
    requires CrlfOnly(s) && Blanked(s) && AtLine(s, i)
    ensures Exact(s, HeaderEnd(s, i, lines))
    decreases |s| - i
  {
    LineIsExact(s, i, lines == 0);
    if Line(s, i, lines == 0).Next? {
      SearchIsExact(s, Line(s, i, lines == 0).at, lines + 1);
    }
  }

  /** In a CRLF stream whose first line has a blank, the header ends exactly at
      the first CRLFCRLF that is buffered; without one it is incomplete. */
  lemma FramingExact(s: seq<Byte>)
    requires CrlfOnly(s) && Blanked(s)
    ensures Exact(s, HeaderEnd(s, 0, 0))
    ensures HeaderEnd(s, 0, 0).Ends? <==> exists p: nat :: DoubleEol(s, p)
  {
    SearchIsExact(s, 0, 0);
    if HeaderEnd(s, 0, 0).Ends? {
      assert DoubleEol(s, HeaderEnd(s, 0, 0).at - 4);
    }
  }

  // ---------------------------------------- framing of streams of one-byte ends

  /** All line ends are the byte e. */
  predicate EndsWithOnly(s: seq<Byte>, e: Byte) {
    forall i | 0 <= i < |s| && IsEol(s[i]) :: s[i] == e
  }

  predicate Twice(s: seq<Byte>, p: nat, e: Byte) {
    p + 2 <= |s| && s[p] == e && s[p + 1] == e
  }

  ghost predicate NoneTwice(s: seq<Byte>, i: nat, e: Byte) {
    forall p: nat | p < i :: !Twice(s, p, e)
  }

  /** The search ended behind the first two line ends in a row, or there are none. */
  ghost predicate ExactTwice(s: seq<Byte>, r: Scan, e: Byte) {
    match r
    case Ends(at) => at >= 2 && Twice(s, at - 2, e) && NoneTwice(s, at - 2, e)
    case Open => NoneTwice(s, |s|, e)
  }

  lemma LineFindsTwice(s: seq<Byte>, i: nat, first: bool, e: Byte)
    requires IsEol(e) && EndsWithOnly(s, e) && i <= |s| && NoneTwice(s, i, e)
    requires first ==> forall k | 0 <= k < |s| && s[k] == e :: SPACE in s[..k]
    ensures match Line(s, i, first)
            case Found(at) => ExactTwice(s, Ends(at), e)
            case NoLine => ExactTwice(s, Open, e)
            case Next(n) => NoneTwice(s, n, e)
  {
    var j := NextEol(s, i);
    if j < |s| {
      assert first ==> SPACE in s[..j];
      assert PastEol(s, j) == j + 1;
      if j + 1 < |s| && IsEol(s[j + 1]) {
        assert PastEol(s, j + 1) == j + 2 && Twice(s, j, e);
      }
    }
  }

  lemma {:induction false} SearchFindsTwice(s: seq<Byte>, i: nat, lines: nat, e: Byte)
    requires IsEol(e) && EndsWithOnly(s, e) && i <= |s| && NoneTwice(s, i, e)
    requires forall k | 0 <= k < |s| && s[k] == e :: SPACE in s[..k]
    ensures ExactTwice(s, HeaderEnd(s, i, lines), e)
    decreases |s| - i
  {
    LineFindsTwice(s, i, lines == 0, e);
    if Line(s, i, lines == 0).Next? {
      SearchFindsTwice(s, Line(s, i, lines == 0).at, lines + 1, e);
    }
  }

  /** If the lines end with LF alone, or all with CR alone, and the first has a blank,
      the header ends at the first two line ends in a row. */
  lemma SingleEolExact(s: seq<Byte>, e: Byte)
    requires IsEol(e) && EndsWithOnly(s, e) && forall k | 0 <= k < |s| && s[k] == e :: SPACE in s[..k]
    ensures ExactTwice(s, HeaderEnd(s, 0, 0), e)
  {
    SearchFindsTwice(s, 0, 0, e);
  }

  // ------------------------------------------- when later bytes move the end

  /** The first line, without a blank and not followed by a line end, is taken for
      a whole request. */
  predicate PasswordLine(s: seq<Byte>) {
    var j := NextEol(s, 0);
    j < |s| && SPACE !in s && (PastEol(s, j) == |s| || !IsEol(s[PastEol(s, j)]))
  }

  /** The header that ends at e cannot be moved: its end is an empty line, and not
      a last CR whose LF may follow. */
  predicate Settled(s: seq<Byte>, e: nat)
    requires 0 < e <= |s|
  {
    !PasswordLine(s) && !(e == |s| && s[e - 1] == CR)
  }

  lemma NextEolPrefix(s: seq<Byte>, more: seq<Byte>, i: nat)
    requires i <= |s| && NextEol(s, i) < |s|
    ensures NextEol(s + more, i) == NextEol(s, i)
  {
    var t, j, k := s + more, NextEol(s, i), NextEol(s + more, i);
    assert t[j] == s[j] && IsEol(t[j]);
    assert k <= j;
    assert t[k] == s[k];
  }

  lemma PastEolPrefix(s: seq<Byte>, more: seq<Byte>, i: nat)
    requires i < |s| && IsEol(s[i]) && !(PastEol(s, i) == |s| && s[|s| - 1] == CR)
    ensures PastEol(s + more, i) == PastEol(s, i)
  {
    assert (s + more)[i] == s[i] && (i + 1 < |s| ==> (s + more)[i + 1] == s[i + 1]);
  }

  lemma SplitPairPrefix(s: seq<Byte>, more: seq<Byte>, m: nat)
    requires m <= |s|
    ensures SplitPair(s + more, m) == SplitPair(s, m)
  {
    assert m > 2 ==> (s + more)[m - 3] == s[m - 3] && (s + more)[m - 2] == s[m - 2] && (s + more)[m - 1] == s[m - 1];
  }

  /** The end of what a line leads to may not be a last CR. */
  ghost predicate Firm(s: seq<Byte>, r: Step) {
    !r.NoLine? && 0 < r.at <= |s| && !(r.at == |s| && s[r.at - 1] == CR)
  }

  /** A line within the bytes before more leads to the same place with them. */
  lemma LineStays(s: seq<Byte>, more: seq<Byte>, i: nat, first: bool)
    requires i <= |s| && Firm(s, Line(s, i, first)) && (first ==> i == 0 && !PasswordLine(s))
    requires Line(s, i, first).Next? ==> Line(s, i, first).at < |s|
    ensures Line(s + more, i, first) == Line(s, i, first)
  {
    var t, j := s + more, NextEol(s, i);
    NextEolPrefix(s, more, i);
    var n := PastEol(s, j);
    PastEolPrefix(s, more, j);
    assert t[n] == s[n];
    if IsEol(s[n]) {
      PastEolPrefix(s, more, n);
      SplitPairPrefix(s, more, PastEol(s, n));
    } else {
      assert SPACE in s ==> SPACE in t;
    }
  }

  lemma OpenAtEnd(s: seq<Byte>, lines: nat)
    ensures HeaderEnd(s, |s|, lines) == Open
  {
  }

  lemma {:induction false} EndStays(s: seq<Byte>, more: seq<Byte>, i: nat, lines: nat)
    requires i <= |s| && HeaderEnd(s, i, lines).Ends? && (lines == 0 ==> i == 0 && !PasswordLine(s))
    requires var e := HeaderEnd(s, i, lines).at; !(e == |s| && s[e - 1] == CR)
    ensures HeaderEnd(s + more, i, lines) == HeaderEnd(s, i, lines)
    decreases |s| - i
  {
    OpenAtEnd(s, lines + 1);
    LineStays(s, more, i, lines == 0);
    if Line(s, i, lines == 0).Next? {
      EndStays(s, more, Line(s, i, lines == 0).at, lines + 1);
    }
  }

  /** A blank behind a password line makes it the first line of a request. */
  lemma PasswordMoves(s: seq<Byte>)
    requires PasswordLine(s)
    ensures HeaderEnd(s, 0, 0).Ends? && HeaderEnd(s + [SPACE], 0, 0) != HeaderEnd(s, 0, 0)
  {
    var t, j := s + [SPACE], NextEol(s, 0);
    NextEolPrefix(s, [SPACE], 0);
    assert t[|s|] == SPACE;
    var n := PastEol(s, j);
    assert PastEol(t, j) == n && !IsEol(t[n]);
  }

  /** An LF behind a last CR belongs to the same line end. */
  lemma LineMoves(s: seq<Byte>, i: nat, first: bool)
    requires i <= |s| && Line(s, i, first) == Found(|s|) && s[|s| - 1] == CR && (first ==> i == 0 && !PasswordLine(s))
    ensures Line(s + [LF], i, first) == Found(|s| + 1)
  {
    var t, j := s + [LF], NextEol(s, i);
    NextEolPrefix(s, [LF], i);
    var n := PastEol(s, j);
    assert PastEol(t, j) == n && t[n] == s[n];
    assert PastEol(t, n) == |s| + 1 && t[|s|] == LF;
  }

  lemma {:induction false} LastCrMoves(s: seq<Byte>, i: nat, lines: nat)
    requires i <= |s| && HeaderEnd(s, i, lines) == Ends(|s|) && s[|s| - 1] == CR
    requires lines == 0 ==> i == 0 && !PasswordLine(s)
    ensures HeaderEnd(s + [LF], i, lines) == Ends(|s| + 1)
    decreases |s| - i
  {
    var r := Line(s, i, lines == 0);
    if r.Next? {
      OpenAtEnd(s, lines + 1);
      LineStays(s, [LF], i, lines == 0);
      LastCrMoves(s, r.at, lines + 1);
    } else {
      LineMoves(s, i, lines == 0);
    }
  }

  /** Bytes that arrive later never move the end of a buffered header if and only
      if it is settled. */
  lemma HeaderEndStableExactly(s: seq<Byte>)
    requires HeaderEnd(s, 0, 0).Ends?
    ensures (forall more: seq<Byte> :: HeaderEnd(s + more, 0, 0) == HeaderEnd(s, 0, 0))
       <==> Settled(s, HeaderEnd(s, 0, 0).at)
  {
    var e := HeaderEnd(s, 0, 0).at;
    if Settled(s, e) {
      forall more: seq<Byte>
        ensures HeaderEnd(s + more, 0, 0) == HeaderEnd(s, 0, 0)
      {
        EndStays(s, more, 0, 0);
      }
    } else if PasswordLine(s) {
      PasswordMoves(s);
    } else {
      LastCrMoves(s, 0, 0);
    }
  }

  /** The headers of CRLF streams whose first line has a blank are settled. */
  lemma CrlfIsSettled(s: seq<Byte>)
    requires CrlfOnly(s) && Blanked(s) && HeaderEnd(s, 0, 0).Ends?
    ensures Settled(s, HeaderEnd(s, 0, 0).at)
  {
    FramingExact(s);
    var e := HeaderEnd(s, 0, 0).at;
    assert DoubleEol(s, e - 4) && s[e - 1] == LF && s[e - 4] == CR;
    assert SPACE in s[..e - 4];
  }

  /** Without a blank in the first line, where the header ends depends on how the
      bytes arrive. */
  lemma PasswordLineMoves()
    ensures HeaderEnd([97, 98, CR], 0, 0) == Ends(3)
    ensures HeaderEnd([97, 98, CR, LF, CR, LF], 0, 0) == Ends(6)
  {
    var s: seq<Byte> := [97, 98, CR];
    assert NextEol(s, 2) == 2 == NextEol(s, 1);
    var t: seq<Byte> := [97, 98, CR, LF, CR, LF];
    assert NextEol(t, 2) == 2 == NextEol(t, 1) && PastEol(t, 2) == 4 && PastEol(t, 4) == 6;
  }

  /** So it does with a lone LF before the empty line. */
  lemma LoneLfMoves()
    ensures HeaderEnd([97, SPACE, LF, CR], 0, 0) == Ends(4)
    ensures HeaderEnd([97, SPACE, LF, CR, LF], 0, 0) == Ends(5)
  {
    var s: seq<Byte> := [97, SPACE, LF, CR];
    assert NextEol(s, 2) == 2 == NextEol(s, 1);
    var t: seq<Byte> := [97, SPACE, LF, CR, LF];
    assert NextEol(t, 2) == 2 == NextEol(t, 1) && PastEol(t, 2) == 3 && PastEol(t, 3) == 5;
  }

  // ------------------------------------------------------------ one examination

  datatype Verdict = Packet(len: nat) | Header(len: nat) | Incomplete

  /** An interleaved packet: a 4-byte head with a length in network order. */
  function PacketLen(high: int, low: int): (n: nat)
    requires 0 <= high && 0 <= low
    ensures n >= 4
  {
    high * 256 + low + 4
  }

  /** What ReadRequest makes of the bytes buffered. */
  function Judge(s: seq<Byte>): (v: Verdict)
    ensures !v.Incomplete? ==> 0 < v.len <= |s|
  {
    if s == [] then Incomplete
    else if s[0] == DOLLAR then
      if |s| < 4 || PacketLen(s[2], s[3]) > |s| then Incomplete else Packet(PacketLen(s[2], s[3]))
    else match HeaderEnd(s, 0, 0)
      case Ends(e) => Header(e)
      case Open => Incomplete
  }

  /** An interleaved packet as section 10.12 of RFC 2326 writes it: a dollar sign, a
      channel, the length of the payload in two bytes, the higher first, and the payload. */
  function PacketOf(channel: Byte, payload: seq<Byte>): (r: seq<Byte>)
    requires |payload| < 0x1_0000
    ensures |r| == |payload| + 4
  {
    [DOLLAR, channel, |payload| / 256, |payload| % 256] + payload
  }

  /** Of bytes that start with a packet, the packet is the message, once it is there. */
  lemma PacketExact(channel: Byte, payload: seq<Byte>, t: seq<Byte>, n: nat)
    requires |payload| < 0x1_0000 && PacketOf(channel, payload) <= t && n <= |t|
    ensures Judge(t[..n]) == if n >= |payload| + 4 then Packet(|payload| + 4) else Incomplete
  {
    var packet, s := PacketOf(channel, payload), t[..n];
    assert forall k | 0 <= k < |packet| :: t[k] == packet[k];
    assert n > 2 ==> s[2] == |payload| / 256;
    assert n > 3 ==> s[3] == |payload| % 256;
  }

  /** A stream of lines ended by CRLF whose first line has a blank and does not
      start an interleaved packet. */
  predicate PlainStream(t: seq<Byte>) {
    CrlfOnly(t) && Blanked(t) && (t != [] ==> t[0] != DOLLAR)
  }

  /** What is buffered of such a stream is a message exactly when it holds a
      CRLFCRLF, and the message is the shortest prefix of the stream that ends
      with one, however many bytes have arrived. */
  lemma JudgeExact(t: seq<Byte>, n: nat)
    requires PlainStream(t) && n <= |t|
    ensures Judge(t[..n]) == Incomplete <==> NoneBefore(t[..n], n)
    ensures Judge(t[..n]) != Incomplete ==> Judge(t[..n]).Header? && Shortest(t, Judge(t[..n]).len)
  {
    var s := t[..n];
    assert forall i | 0 <= i < n :: s[i] == t[i] && s[..i] == t[..i];
    FramingExact(s);
    if Judge(s).Header? {
      var e := Judge(s).len;
      assert DoubleEol(s, e - 4);
      forall p: nat | p < e - 4
        ensures !DoubleEol(t, p)
      {
        assert !DoubleEol(s, p);
      }
    }
  }

  /** The first e bytes of t are its shortest prefix that ends with CRLFCRLF. */
  ghost predicate Shortest(t: seq<Byte>, e: nat) {
    e >= 4 && DoubleEol(t, e - 4) && NoneBefore(t, e - 4)
  }
}
