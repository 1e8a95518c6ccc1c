/**
 URL percent-coding of CFCore/StringTranslator.cpp (section 2.1 of RFC 3986),
 with the one-pass removal of "." and ".." segments.
 */
module Url {

  import opened Bytes

  const SLASH: Byte := '/' as int
  const DOT: Byte := '.' as int
  const PERCENT: Byte := '%' as int
  const QUESTION: Byte := '?' as int

  const BAD_FORMAT := -100
  const NOT_ENOUGH_SPACE := -101

  // ------------------------------------------------------------ path segments

  type Segment = seq<Byte>

  /** The path cut at every slash. */
  function Split(p: seq<Byte>): (r: seq<Segment>)
    ensures |r| > 0
  {
    if p == [] then [[]]
    else
      var s, c := Split(p[..|p| - 1]), p[|p| - 1];
      if c == SLASH then s + [[]] else s[..|s| - 1] + [s[|s| - 1] + [c]]
  }

  function Join(s: seq<Segment>): (r: seq<Byte>) {
    if s == [] then [] else if |s| == 1 then s[0] else Join(s[..|s| - 1]) + [SLASH] + s[|s| - 1]
  }

  predicate IsDots(g: Segment) {
    g == [DOT] || g == [DOT, DOT]
  }

  function DropDots(s: seq<Segment>): (r: seq<Segment>) {
    if s == [] then []
    else if IsDots(s[|s| - 1]) then DropDots(s[..|s| - 1])
    else DropDots(s[..|s| - 1]) + [s[|s| - 1]]
  }

  function Last(p: seq<Byte>): (g: Segment) {
    var s := Split(p);
    s[|s| - 1]
  }

  function Inner(p: seq<Byte>): (r: seq<Segment>) {
    var s := Split(p);
    s[..|s| - 1]
  }

  /** Dot segments dropped from all but the last segment. */
  function InnerClean(p: seq<Byte>): (r: seq<Byte>) {
    Join(DropDots(Inner(p)) + [Last(p)])
  }

  /** The reference: inner dot segments deleted, a trailing one blanked. */
  function CleanPath(p: seq<Byte>): (r: seq<Byte>) {
    Join(DropDots(Inner(p)) + [if IsDots(Last(p)) then [] else Last(p)])
  }

  predicate AllDots(g: Segment) {
    forall i | 0 <= i < |g| :: g[i] == DOT
  }

  /** The run of dots that makes up the whole of a segment. */
  function DotCount(g: Segment): (n: nat) {
    if AllDots(g) then |g| else 0
  }

  lemma DotCountIs(g: Segment)
    ensures IsDots(g) <==> 1 <= DotCount(g) <= 2
    ensures 1 <= DotCount(g) <= 2 ==> |g| == DotCount(g)
  {
    if |g| == 1 {
      assert g == [g[0]];
    } else if |g| == 2 {
      assert g == [g[0], g[1]];
    }
  }

  lemma SplitStep(p: seq<Byte>, c: Byte)
    ensures c == SLASH ==> Inner(p + [c]) == Split(p) && Last(p + [c]) == []
    ensures c != SLASH ==> Inner(p + [c]) == Inner(p) && Last(p + [c]) == Last(p) + [c]
    ensures Split(p) == Inner(p) + [Last(p)]
  {
    assert (p + [c])[..|p|] == p;
  }

  lemma JoinStep(a: seq<Segment>, g: Segment)
    ensures Join(a + [g]) == if a == [] then g else Join(a) + [SLASH] + g
  {
    assert (a + [g])[..|a|] == a;
  }

  lemma DropStep(a: seq<Segment>, g: Segment)
    ensures DropDots(a + [g]) == if IsDots(g) then DropDots(a) else DropDots(a) + [g]
  {
    assert (a + [g])[..|a|] == a;
  }

  /** A path that starts with a slash has an empty first segment. */
  lemma {:induction false} RootedInner(p: seq<Byte>)
    requires p != [] && p[0] == SLASH
    ensures DropDots(Inner(p)) != []
  {
    var q, c := p[..|p| - 1], p[|p| - 1];
    assert p == q + [c];
    SplitStep(q, c);
    if q == [] {
      assert c == SLASH && Inner(p) == Split(q) == [[]];
      DropsNothing();
    } else {
      RootedInner(q);
      DropGrows(Inner(q), Last(q));
    }
  }

  lemma DropsNothing()
    ensures DropDots([[]]) == [[]]
  {
    var none: seq<Segment> := [];
    DropStep(none, []);
    assert none + [[]] == [[]];
  }

  lemma DropGrows(a: seq<Segment>, g: Segment)
    requires DropDots(a) != []
    ensures DropDots(a + [g]) != []
  {
    DropStep(a, g);
  }

  /** One character of the one-pass algorithm, on the reference side. */
  lemma InnerCleanStep(p: seq<Byte>, c: Byte)
    requires p != [] && p[0] == SLASH
    ensures var t, g := InnerClean(p), Last(p);
            |t| > |g| &&
            InnerClean(p + [c]) ==
            if c == SLASH && IsDots(g) then t[..|t| - |g| - 1] + [SLASH] else t + [c]
    ensures InnerClean(p)[|InnerClean(p)| - |Last(p)| - 1] == SLASH
    ensures InnerClean(p)[|InnerClean(p)| - |Last(p)|..] == Last(p)
  {
    var a, g := DropDots(Inner(p)), Last(p);
    RootedInner(p);
    SplitStep(p, c);
    JoinStep(a, g);
    TextParts(Join(a), g);
    assert InnerClean(p) == Join(a) + [SLASH] + g;
    if c == SLASH {
      DropStep(Inner(p), g);
      if IsDots(g) {
        JoinStep(a, []);
      } else {
        JoinStep(a + [g], []);
      }
    } else {
      JoinStep(a, g + [c]);
    }
  }

  lemma TextParts(j: seq<Byte>, g: Segment)
    ensures var t := j + [SLASH] + g;
            |t| > |g| && t[..|t| - |g| - 1] == j && t[|t| - |g| - 1] == SLASH && t[|t| - |g|..] == g
  {
  }

  lemma DotCountStep(g: Segment, c: Byte)
    ensures c == DOT ==> DotCount(g + [c]) == (if g == [] then 1 else if DotCount(g) > 0 then DotCount(g) + 1 else 0)
    ensures c != DOT ==> DotCount(g + [c]) == 0
  {
    assert (g + [c])[|g|] == c;
    if c == DOT {
      assert AllDots(g + [c]) <==> AllDots(g) by {
        if AllDots(g + [c]) {
          assert forall i | 0 <= i < |g| :: g[i] == (g + [c])[i];
        }
      }
    }
  }

  /** Blanking the trailing segment is cutting off its dots. */
  lemma TrimIsClean(p: seq<Byte>)
    requires p != [] && p[0] == SLASH
    ensures var t, d := InnerClean(p), DotCount(Last(p));
            (if d <= 2 then d else 0) <= |t| && CleanPath(p) == t[..|t| - (if d <= 2 then d else 0)]
  {
    var a, g := DropDots(Inner(p)), Last(p);
    RootedInner(p);
    DotCountIs(g);
    JoinStep(a, g);
    JoinStep(a, []);
  }

  // -------------------------------------------------------- percent-decoding

  function HexValue(c: Byte): (v: nat)
    ensures v <= 16
  {
    if 48 <= c <= 57 then c - 48 else if 65 <= c <= 70 then c - 55 else if 97 <= c <= 102 then c - 87 else 16
  }

  const UPPER: string := "0123456789ABCDEF"
  const LOWER: string := "0123456789abcdef"

  /** The digits of section 2.1 of RFC 3986, in either case, and no others. */
  lemma HexValueExactly(c: Byte, v: nat)
    requires v < 16
    ensures HexValue(c) == v <==> c == UPPER[v] as int || c == LOWER[v] as int
  {
  }

  /** A decoded byte, and whether a raw question mark came at or before it. */
  datatype Item = Item(byte: Byte, query: bool)

  /** The items up to the first malformed escape or raw NUL, if any. */
  datatype Parsed = Parsed(items: seq<Item>, bad: bool)

  function Parse(src: seq<Byte>, inQuery: bool): (r: Parsed)
    ensures |r.items| + (if r.bad then 1 else 0) <= |src|
  {
    if src == [] then Parsed([], false)
    else
      var q := inQuery || src[0] == QUESTION;
      if src[0] == PERCENT then
        if |src| < 3 || HexValue(src[1]) == 16 || HexValue(src[2]) == 16 then Parsed([], true)
        else
          var rest := Parse(src[3..], q);
          rest.(items := [Item(HexValue(src[1]) * 16 + HexValue(src[2]), q)] + rest.items)
      else if src[0] == NUL then Parsed([], true)
      else
        var rest := Parse(src[1..], q);
        rest.(items := [Item(src[0], q)] + rest.items)
  }

  function PathOf(items: seq<Item>): (p: seq<Byte>) {
    if items == [] then []
    else
      var p, x := PathOf(items[..|items| - 1]), items[|items| - 1];
      if x.query then p else p + [x.byte]
  }

  function QueryOf(items: seq<Item>): (p: seq<Byte>) {
    if items == [] then []
    else
      var p, x := QueryOf(items[..|items| - 1]), items[|items| - 1];
      if x.query then p + [x.byte] else p
  }

  function Text(items: seq<Item>): (t: seq<Byte>) {
    InnerClean(PathOf(items)) + QueryOf(items)
  }

  function Trim(items: seq<Item>): (d: nat) {
    var d := DotCount(Last(PathOf(items)));
    if d <= 2 then d else 0
  }

  predicate Rooted(p: seq<Byte>) {
    p != [] && p[0] == SLASH
  }

  lemma ItemStep(items: seq<Item>, x: Item)
    ensures PathOf(items + [x]) == if x.query then PathOf(items) else PathOf(items) + [x.byte]
    ensures QueryOf(items + [x]) == if x.query then QueryOf(items) + [x.byte] else QueryOf(items)
  {
    assert (items + [x])[..|items|] == items;
  }

  lemma EmptyPath()
    ensures Split([]) == [[]] && Inner([]) == [] && Last([]) == [] && InnerClean([]) == []
  {
    var none: seq<Segment> := [];
    assert DropDots(none) == none;
    JoinStep(none, []);
  }

  lemma FirstSlash()
    ensures InnerClean([SLASH]) == [SLASH] && InnerClean([]) == [] && Last([SLASH]) == [] && Last([]) == []
  {
    EmptyPath();
    SplitStep([], SLASH);
    assert [] + [SLASH] == [SLASH];
    DropsNothing();
    var none: seq<Segment> := [];
    JoinStep(none, []);
    assert none + [[]] == [[]];
    JoinStep([[]], []);
  }

  // --------------------------------------------------------------- DecodeURL

  datatype Outcome = Ok(text: seq<Byte>) | BadFormat | NoSpace

  /** The room check of iteration k fails. */
  ghost predicate Blocked(p: Parsed, destLen: nat) {
    exists k :: 0 <= k < |p.items| + (if p.bad then 1 else 0) && |Text(p.items[..k])| == destLen
  }

  lemma {:induction false} PathIsRooted(items: seq<Item>)
    requires items != [] && items[0] == Item(SLASH, false)
    ensures Rooted(PathOf(items))
  {
    if |items| > 1 {
      PathIsRooted(items[..|items| - 1]);
    }
  }

  /** The final trim never reaches past the text. */
  lemma TrimFits(src: seq<Byte>)
    requires Rooted(src)
    ensures var items := Parse(src, false).items;
            Rooted(PathOf(items)) && Trim(items) <= |Text(items)|
  {
    var items := Parse(src, false).items;
    PathIsRooted(items);
    TrimIsClean(PathOf(items));
  }

  ghost function Finished(p: Parsed, destLen: nat): (r: Outcome)
    requires Trim(p.items) <= |Text(p.items)|
  {
    if Blocked(p, destLen) then NoSpace
    else if p.bad then BadFormat
    else Ok(Text(p.items)[..|Text(p.items)| - Trim(p.items)])
  }

  /** What DecodeURL returns, for every input and every room. */
  ghost function Decoded(src: seq<Byte>, destLen: nat): (r: Outcome) {
    if !Rooted(src) then BadFormat
    else
      TrimFits(src);
      Finished(Parse(src, false), destLen)
  }

  /** The path branch of the loop, with its backtracking write, on the last segment g
      of what is written. */
  method PutByte(dest: array<Byte>, w: nat, numDots: nat, c: Byte, ghost g: Segment) returns (w2: nat, numDots2: nat)
    requires w < dest.Length && numDots == DotCount(g) && SLASH !in g
    requires if w == 0 then g == [] && c == SLASH else |g| < w && dest[w - |g|..w] == g && dest[w - |g| - 1] == SLASH
    modifies dest
    ensures w2 == (if c == SLASH && IsDots(g) then w - |g| else w + 1) && w2 > 0
    ensures dest[..w2] == old(dest[..w2 - 1]) + [c]
    ensures numDots2 == if c == SLASH then 0 else DotCount(g + [c])
  {
    DotCountIs(g);
    DotCountStep(g, c);
    var at := w;
    if c == SLASH && 0 < numDots <= 2 {
      at := at - (numDots + 1);
    }
    ghost var before := dest[..at];
    dest[at] := c;
    if c == DOT {
      LastByte(dest[..], w, g);
      if numDots == 0 && dest[at - 1] == SLASH {
        numDots2 := 1;
      } else if numDots > 0 && dest[at - 1] == DOT {
        numDots2 := numDots + 1;
      } else {
        numDots2 := numDots;
      }
    } else {
      numDots2 := 0;
    }
    w2 := at + 1;
    assert dest[..w2] == before + [c];
  }

  /** The byte before the cursor is a slash exactly if the last segment is empty, as
      far as the dot counter can tell. */
  lemma LastByte(d: seq<Byte>, w: nat, g: Segment)
    requires |g| < w <= |d| && d[w - |g|..w] == g && d[w - |g| - 1] == SLASH
    ensures g == [] ==> d[w - 1] == SLASH
    ensures g != [] ==> d[w - 1] == g[|g| - 1] && (DotCount(g) > 0 ==> d[w - 1] == DOT)
  {
    if g != [] {
      assert d[w - |g|..w][|g| - 1] == d[w - 1];
    }
  }

  lemma {:induction false} LastNoSlash(p: seq<Byte>)
    ensures SLASH !in Last(p)
  {
    if p != [] {
      var q, c := p[..|p| - 1], p[|p| - 1];
      LastNoSlash(q);
      SplitStep(q, c);
      assert p == q + [c];
    }
  }

  /** The text t, with last segment g, after one more character. */
  function NextText(t: seq<Byte>, g: Segment, c: Byte): (r: seq<Byte>)
    requires |t| > |g| || !IsDots(g)
  {
    if c == SLASH && IsDots(g) then t[..|t| - |g| - 1] + [SLASH] else t + [c]
  }

  function NextSegment(g: Segment, c: Byte): (r: Segment) {
    if c == SLASH then [] else g + [c]
  }

  /** The text is empty, or ends with a slash and its last segment. */
  predicate EndsWith(t: seq<Byte>, g: Segment) {
    && SLASH !in g
    && if t == [] then g == [] else |t| > |g| && t[|t| - |g|..] == g && t[|t| - |g| - 1] == SLASH
  }

  /** What the reference does with one more character. */
  lemma PathStep(p: seq<Byte>, c: Byte)
    requires Rooted(p) || (p == [] && c == SLASH)
    ensures EndsWith(InnerClean(p), Last(p)) && (InnerClean(p) == [] <==> p == [])
    ensures InnerClean(p + [c]) == NextText(InnerClean(p), Last(p), c) && Last(p + [c]) == NextSegment(Last(p), c)
  {
    LastNoSlash(p);
    SplitStep(p, c);
    if p != [] {
      InnerCleanStep(p, c);
    } else {
      FirstSlash();
      assert p + [c] == [SLASH] && [] + [SLASH] == [SLASH];
    }
  }

  /** The path branch, on the text and its last segment. */
  method PutStep(dest: array<Byte>, w: nat, numDots: nat, c: Byte, ghost t: seq<Byte>, ghost g: Segment)
    returns (w2: nat, numDots2: nat)
    requires w < dest.Length && dest[..w] == t && EndsWith(t, g) && (t == [] ==> c == SLASH) && numDots == DotCount(g)
    modifies dest
    ensures w2 <= w + 1 && dest[..w2] == NextText(t, g, c) && numDots2 == DotCount(NextSegment(g, c))
  {
    TailOf(dest[..], w, g);
    w2, numDots2 := PutByte(dest, w, numDots, c, g);
    assert dest[..w2] == t[..w2 - 1] + [c];
  }

  method PutPath(dest: array<Byte>, w: nat, numDots: nat, c: Byte, ghost p: seq<Byte>) returns (w2: nat, numDots2: nat)
    requires Rooted(p) || (p == [] && c == SLASH)
    requires w < dest.Length && dest[..w] == InnerClean(p) && numDots == DotCount(Last(p))
    modifies dest
    ensures w2 <= w + 1 && dest[..w2] == InnerClean(p + [c]) && numDots2 == DotCount(Last(p + [c]))
  {
    PathStep(p, c);
    w2, numDots2 := PutStep(dest, w, numDots, c, InnerClean(p), Last(p));
  }

  lemma TailOf(d: seq<Byte>, w: nat, g: seq<Byte>)
    requires |g| <= w <= |d|
    ensures d[..w][w - |g|..] == d[w - |g|..w] && (|g| < w ==> d[..w][w - |g| - 1] == d[w - |g| - 1])
  {
  }

  /** Reads one character or escape at i; on success it is the next item. */
  method NextItem(src: seq<Byte>, i: nat, inQuery: bool) returns (ok: bool, x: Item, i2: nat)
    requires i < |src|
    ensures i < i2 <= |src| || !ok
    ensures var r := Parse(src[i..], inQuery);
            if ok then r.items == [x] + Parse(src[i2..], x.query).items && r.bad == Parse(src[i2..], x.query).bad
                       && (x.query <==> inQuery || src[i] == QUESTION)
            else r == Parsed([], true)
    ensures src[i] == SLASH ==> ok && x.byte == SLASH
  {
    ok, x, i2 := false, Item(0, false), i;
    var q := inQuery || src[i] == QUESTION;
    if src[i] == PERCENT {
      if |src| - i < 3 || HexValue(src[i + 1]) == 16 || HexValue(src[i + 2]) == 16 {
        return;
      }
      assert src[i..][3..] == src[i + 3..];
      ok, x, i2 := true, Item(HexValue(src[i + 1]) * 16 + HexValue(src[i + 2]), q), i + 3;
    } else if src[i] == NUL {
      return;
    } else {
      assert src[i..][1..] == src[i + 1..];
      ok, x, i2 := true, Item(src[i], q), i + 1;
    }
  }

  /** The items read so far and those still to come make up the whole parse. */
  ghost predicate ReadSoFar(src: seq<Byte>, i: nat, inQuery: bool, done: seq<Item>)
    requires i <= |src|
  {
    var p, r := Parse(src, false), Parse(src[i..], inQuery);
    p.items == done + r.items && p.bad == r.bad
  }

  lemma ReadStep(src: seq<Byte>, i: nat, inQuery: bool, done: seq<Item>, i2: nat, x: Item)
    requires i < |src| && i2 <= |src| && ReadSoFar(src, i, inQuery, done)
    requires Parse(src[i..], inQuery).items == [x] + Parse(src[i2..], x.query).items
    requires Parse(src[i..], inQuery).bad == Parse(src[i2..], x.query).bad
    ensures ReadSoFar(src, i2, x.query, done + [x])
  {
    assert done + ([x] + Parse(src[i2..], x.query).items) == (done + [x]) + Parse(src[i2..], x.query).items;
  }

  /** dest holds the text of the items read so far. */
  ghost predicate Shown(text: seq<Byte>, numDots: nat, inQuery: bool, done: seq<Item>) {
    && text == Text(done) && numDots == DotCount(Last(PathOf(done)))
    && (if done == [] then !inQuery else Rooted(PathOf(done))) && (!inQuery ==> QueryOf(done) == [])
  }

  ghost predicate NeverFull(done: seq<Item>, destLen: nat) {
    forall k | 0 <= k < |done| :: |Text(done[..k])| != destLen
  }

  lemma NeverFullStep(done: seq<Item>, destLen: nat, x: Item)
    requires NeverFull(done, destLen) && |Text(done)| != destLen
    ensures NeverFull(done + [x], destLen)
  {
    forall k | 0 <= k < |done + [x]|
      ensures |Text((done + [x])[..k])| != destLen
    {
      assert (done + [x])[..k] == done[..k];
      assert done[..|done|] == done;
    }
  }

  lemma NeverFullMeans(p: Parsed, done: seq<Item>, rest: seq<Item>, destLen: nat)
    requires p.items == done + rest && NeverFull(done, destLen)
    ensures |Text(done)| == destLen && (rest != [] || p.bad) ==> Blocked(p, destLen)
    ensures |Text(done)| != destLen && rest == [] ==> !Blocked(p, destLen)
    ensures rest == [] && !p.bad ==> !Blocked(p, destLen)
  {
    assert p.items[..|done|] == done;
    if rest == [] {
      assert p.items == done && done[..|done|] == done;
      forall k | 0 <= k < |done|
        ensures |Text(p.items[..k])| != destLen
      {
      }
    }
  }

  /** One round of the loop: the destination takes the next item. */
  method PutItem(dest: array<Byte>, w: nat, numDots: nat, inQuery: bool, x: Item, ghost done: seq<Item>)
    returns (w2: nat, numDots2: nat)
    requires w < dest.Length && Shown(dest[..w], numDots, inQuery, done) && (inQuery ==> x.query)
    requires done == [] ==> x == Item(SLASH, false)
    modifies dest
    ensures w2 <= w + 1 && Shown(dest[..w2], numDots2, x.query, done + [x])
  {
    if !x.query {
      PathIsText(dest[..w], numDots, done);
      w2, numDots2 := PutPath(dest, w, numDots, x.byte, PathOf(done));
      PathShown(done, x, dest[..w2], numDots2);
    } else {
      QueryShown(dest[..w], numDots, inQuery, done, x);
      ghost var before := dest[..w];
      dest[w] := x.byte;
      w2, numDots2 := w + 1, numDots;
      assert dest[..w2] == before + [x.byte];
    }
  }

  lemma PathIsText(text: seq<Byte>, numDots: nat, done: seq<Item>)
    requires Shown(text, numDots, false, done)
    ensures text == InnerClean(PathOf(done)) && numDots == DotCount(Last(PathOf(done))) && QueryOf(done) == []
    ensures if done == [] then PathOf(done) == [] else Rooted(PathOf(done))
  {
    assert InnerClean(PathOf(done)) + [] == InnerClean(PathOf(done));
  }

  lemma PathShown(done: seq<Item>, x: Item, text: seq<Byte>, numDots: nat)
    requires !x.query && QueryOf(done) == [] && text == InnerClean(PathOf(done) + [x.byte])
    requires numDots == DotCount(Last(PathOf(done) + [x.byte]))
    requires if done == [] then PathOf(done) == [] && x.byte == SLASH else Rooted(PathOf(done))
    ensures Shown(text, numDots, false, done + [x])
  {
    ItemStep(done, x);
    assert text + [] == text;
  }

  lemma {:induction false} QueryShown(text: seq<Byte>, numDots: nat, inQuery: bool, done: seq<Item>, x: Item)
    requires x.query && done != [] && Shown(text, numDots, inQuery, done)
    ensures Shown(text + [x.byte], numDots, true, done + [x])
  {
    ItemStep(done, x);
    var t, q := InnerClean(PathOf(done)), QueryOf(done);
    assert (t + q) + [x.byte] == t + (q + [x.byte]);
  }

  /** The loop of DecodeURL; error 0 means that all of src was read. */
  method ReadItems(src: seq<Byte>, dest: array<Byte>, destLen: nat) returns (error: int, w: nat, numDots: nat)
    requires destLen <= dest.Length && Rooted(src)
    modifies dest
    ensures var p := Parse(src, false);
            && (error == NOT_ENOUGH_SPACE <==> Blocked(p, destLen))
            && (error == BAD_FORMAT <==> !Blocked(p, destLen) && p.bad)
            && (error == 0 <==> !Blocked(p, destLen) && !p.bad)
            && (error == 0 ==>
                  w <= dest.Length && dest[..w] == Text(p.items) && numDots == DotCount(Last(PathOf(p.items))))
  {
    var i: nat, inQuery := 0, false;
    w, numDots := 0, 0;
    ghost var done: seq<Item> := [];
    FirstSlash();
    assert src[0..] == src;
    while i < |src|
      invariant i <= |src| && w <= destLen && (done == [] ==> i == 0)
      invariant ReadSoFar(src, i, inQuery, done)
      invariant Shown(dest[..w], numDots, inQuery, done)
      invariant NeverFull(done, destLen)
    {
      ghost var p, rest := Parse(src, false), Parse(src[i..], inQuery);
      NeverFullMeans(p, done, rest.items, destLen);
      if w == destLen {
        return NOT_ENOUGH_SPACE, w, numDots;
      }
      var ok, x, i2 := NextItem(src, i, inQuery);
      if !ok {
        return BAD_FORMAT, w, numDots;
      }
      NeverFullStep(done, destLen, x);
      ReadStep(src, i, inQuery, done, i2, x);
      w, numDots := PutItem(dest, w, numDots, inQuery, x, done);
      i, inQuery, done := i2, x.query, done + [x];
    }
    assert Parse(src, false).items == done by {
      assert src[i..] == [] && done + [] == done;
    }
    NeverFullMeans(Parse(src, false), done, [], destLen);
    error := 0;
  }

  /** DecodeURL: the number of bytes written to dest, or an error code. */
  method DecodeURL(src: seq<Byte>, dest: array<Byte>, destLen: nat) returns (r: int)
    requires destLen <= dest.Length
    modifies dest
    ensures match Decoded(src, destLen)
            case Ok(t) => 0 <= r <= dest.Length && dest[..r] == t
            case BadFormat => r == BAD_FORMAT
            case NoSpace => r == NOT_ENOUGH_SPACE
  {
    if |src| == 0 || src[0] != SLASH {
      return BAD_FORMAT;
    }
    var error, w, numDots := ReadItems(src, dest, destLen);
    DecodedCases(src, destLen);
    if error != 0 {
      return error;
    }
    ghost var items := Parse(src, false).items;
    r := CutDots(dest, w, numDots, Text(items), Trim(items));
  }

  /** The final trim. */
  method CutDots(dest: array<Byte>, w: nat, numDots: nat, ghost t: seq<Byte>, ghost d: nat) returns (r: int)
    requires w <= dest.Length && dest[..w] == t && d == (if numDots <= 2 then numDots else 0) && d <= |t|
    ensures 0 <= r <= dest.Length && dest[..r] == t[..|t| - d]
  {
    r := w;
    if numDots <= 2 {
      r := r - numDots;
    }
  }

  lemma DecodedCases(src: seq<Byte>, destLen: nat)
    requires Rooted(src)
    ensures var p := Parse(src, false); var t, d := Text(p.items), Trim(p.items);
            && d <= |t| && Rooted(PathOf(p.items))
            && Decoded(src, destLen)
               == if Blocked(p, destLen) then NoSpace else if p.bad then BadFormat else Ok(t[..|t| - d])
  {
    TrimFits(src);
  }

  // ------------------------------------------------- what decoding amounts to

  lemma {:induction false} InnerCleanShort(p: seq<Byte>)
    requires p == [] || Rooted(p)
    ensures |InnerClean(p)| <= |p|
  {
    if p == [] {
      FirstSlash();
    } else {
      var q, c := p[..|p| - 1], p[|p| - 1];
      assert q + [c] == p;
      InnerCleanShort(q);
      PathStep(q, c);
    }
  }

  lemma {:induction false} ItemLengths(items: seq<Item>)
    ensures |PathOf(items)| + |QueryOf(items)| == |items|
  {
    if items != [] {
      ItemLengths(items[..|items| - 1]);
    }
  }

  lemma FirstItem(src: seq<Byte>)
    requires Rooted(src)
    ensures Parse(src, false).items != [] && Parse(src, false).items[0] == Item(SLASH, false)
  {
  }

  /** A destination as long as the source is always enough. */
  lemma EnoughRoom(src: seq<Byte>, destLen: nat)
    requires Rooted(src) && destLen >= |src|
    ensures !Blocked(Parse(src, false), destLen)
  {
    var p := Parse(src, false);
    FirstItem(src);
    forall k | 0 <= k < |p.items| + (if p.bad then 1 else 0)
      ensures |Text(p.items[..k])| < destLen
    {
      var head := p.items[..k];
      ItemLengths(head);
      if k > 0 {
        PathIsRooted(head);
      }
      InnerCleanShort(PathOf(head));
    }
  }

  function BytesOf(items: seq<Item>): (r: seq<Byte>) {
    if items == [] then [] else BytesOf(items[..|items| - 1]) + [items[|items| - 1].byte]
  }

  lemma {:induction false} NoQueryItems(src: seq<Byte>, i: nat)
    requires QUESTION !in src && i < |Parse(src, false).items|
    ensures !Parse(src, false).items[i].query
    decreases |src|
  {
    if i > 0 {
      var n := if src[0] == PERCENT then 3 else 1;
      NoQueryItems(src[n..], i - 1);
    }
  }

  lemma {:induction false} PathIsAll(items: seq<Item>)
    requires forall i | 0 <= i < |items| :: !items[i].query
    ensures PathOf(items) == BytesOf(items) && QueryOf(items) == []
  {
    if items != [] {
      PathIsAll(items[..|items| - 1]);
    }
  }

  /** Without a raw question mark and with room, DecodeURL succeeds exactly when
      percent-decoding does, and the result is the decoded path with its inner
      dot segments deleted and a trailing one blanked. */
  lemma {:induction false} DecodedIsReference(src: seq<Byte>, destLen: nat)
    requires Rooted(src) && QUESTION !in src && destLen >= |src|
    ensures var p := Parse(src, false);
            Decoded(src, destLen) == if p.bad then BadFormat else Ok(CleanPath(BytesOf(p.items)))
  {
    var items := Parse(src, false).items;
    EnoughRoom(src, destLen);
    forall i | 0 <= i < |items|
      ensures !items[i].query
    {
      NoQueryItems(src, i);
    }
    PathIsAll(items);
    FirstItem(src);
    PathIsRooted(items);
    TrimIsClean(PathOf(items));
    assert Text(items) == InnerClean(PathOf(items));
  }

  lemma QueryStartsRaw(src: seq<Byte>, inQuery: bool)
    requires !inQuery
    ensures var q := QueryOf(Parse(src, inQuery).items); q != [] ==> q[0] == QUESTION
  {
    var items := Parse(src, inQuery).items;
    FirstQuery(src, items, |items|);
    assert items[..|items|] == items;
  }

  lemma {:induction false} QueryFlag(src: seq<Byte>, i: nat, inQuery: bool)
    requires i < |Parse(src, inQuery).items|
    ensures var x := Parse(src, inQuery).items;
            (x[i].query && (if i == 0 then !inQuery else !x[i - 1].query)) ==> x[i].byte == QUESTION
    ensures var x := Parse(src, inQuery).items;
            (if i == 0 then inQuery else x[i - 1].query) ==> x[i].query
    decreases |src|
  {
    if i > 0 {
      var n := if src[0] == PERCENT then 3 else 1;
      QueryFlag(src[n..], i - 1, inQuery || src[0] == QUESTION);
    }
  }

  lemma {:induction false} FirstQuery(src: seq<Byte>, items: seq<Item>, n: nat)
    requires items == Parse(src, false).items && n <= |items|
    ensures var q := QueryOf(items[..n]); q != [] ==> q[0] == QUESTION
    ensures n > 0 && !items[n - 1].query ==> QueryOf(items[..n]) == []
  {
    if n > 0 {
      FirstQuery(src, items, n - 1);
      QueryFlag(src, n - 1, false);
      assert items[..n][..n - 1] == items[..n - 1];
      if n > 1 {
        QueryFlag(src, n - 2, false);
      }
    }
  }

  lemma CutTail(t: seq<Byte>, d: nat, q: seq<Byte>)
    requires d <= |t| && (d > 0 ==> t[|t| - d] == DOT) && (q != [] ==> q[0] == QUESTION)
    ensures (t + q)[..|t| + |q| - d] == t[..|t| - d] + q <==> q == [] || d == 0
  {
    if d > 0 && q != [] {
      assert (t[..|t| - d] + q)[|t| - d] == QUESTION;
      assert (t + q)[..|t| + |q| - d][|t| - d] == DOT;
    }
  }

  lemma TrimFacts(p: seq<Byte>)
    requires Rooted(p)
    ensures var t, n := InnerClean(p), DotCount(Last(p));
            var d := if n <= 2 then n else 0;
            && (d > 0 <==> IsDots(Last(p))) && d <= |t| && CleanPath(p) == t[..|t| - d] && (d > 0 ==> t[|t| - d] == DOT)
  {
    var t, g := InnerClean(p), Last(p);
    TrimIsClean(p);
    DotCountIs(g);
    InnerCleanStep(p, 0);
    assert IsDots(g) ==> t[|t| - |g|..][0] == g[0];
  }

  lemma QueryCore(t: seq<Byte>, n: nat, q: seq<Byte>, clean: seq<Byte>, dots: bool)
    requires q != [] ==> q[0] == QUESTION
    requires var d := if n <= 2 then n else 0;
             (d > 0 <==> dots) && d <= |t| && clean == t[..|t| - d] && (d > 0 ==> t[|t| - d] == DOT)
    ensures var d := if n <= 2 then n else 0;
            (t + q)[..|t + q| - d] == clean + q <==> q == [] || !dots
  {
    CutTail(t, if n <= 2 then n else 0, q);
  }

  lemma DecodedOk(src: seq<Byte>, destLen: nat)
    requires Rooted(src) && destLen >= |src| && !Parse(src, false).bad
    ensures var x := Parse(src, false).items;
            && Rooted(PathOf(x)) && Trim(x) <= |Text(x)| && (QueryOf(x) != [] ==> QueryOf(x)[0] == QUESTION)
            && Decoded(src, destLen) == Ok(Text(x)[..|Text(x)| - Trim(x)])
  {
    EnoughRoom(src, destLen);
    DecodedCases(src, destLen);
    QueryStartsRaw(src, false);
  }

  /** With a query: the final trim counts from the end of the whole text, so the
      query survives unless the path before it ends in a dot segment, and then
      it never does. */
  lemma {:induction false} QueryKeptExactly(src: seq<Byte>, destLen: nat)
    requires Rooted(src) && destLen >= |src| && !Parse(src, false).bad
    ensures var x := Parse(src, false).items;
            Decoded(src, destLen) == Ok(CleanPath(PathOf(x)) + QueryOf(x))
            <==> (QueryOf(x) == [] || !IsDots(Last(PathOf(x))))
  {
    var x := Parse(src, false).items;
    DecodedOk(src, destLen);
    var p := PathOf(x);
    TrimFacts(p);
    QueryCore(InnerClean(p), DotCount(Last(p)), QueryOf(x), CleanPath(p), IsDots(Last(p)));
  }

  const DOT_QUERY: seq<Byte> := [SLASH, DOT, QUESTION]

  lemma DotQueryItems()
    ensures Parse(DOT_QUERY, false) == Parsed([Item(SLASH, false), Item(DOT, false), Item(QUESTION, true)], false)
  {
    var a: seq<Byte>, b: seq<Byte> := [DOT, QUESTION], [QUESTION];
    assert DOT_QUERY[1..] == a && a[1..] == b && b[1..] == [];
    assert Parse(b, false) == Parsed([Item(QUESTION, true)], false);
    assert Parse(a, false) == Parsed([Item(DOT, false), Item(QUESTION, true)], false);
  }

  lemma DotQueryParts(x: seq<Item>)
    requires x == [Item(SLASH, false), Item(DOT, false), Item(QUESTION, true)]
    ensures PathOf(x) == [SLASH, DOT] && QueryOf(x) == [QUESTION]
  {
    var a, b := x[..2], x[..1];
    assert a[..1] == b && b[..0] == [];
    assert PathOf(b) == [SLASH] && QueryOf(b) == [];
    assert PathOf(a) == [SLASH, DOT] && QueryOf(a) == [];
  }

  lemma DotIsLast()
    ensures Last([SLASH, DOT]) == [DOT]
  {
    FirstSlash();
    SplitStep([SLASH], DOT);
    assert [SLASH] + [DOT] == [SLASH, DOT] && [] + [DOT] == [DOT];
  }

  /** "/.?": the query goes with the dot segment before it. */
  lemma QueryCutHere()
    ensures Rooted(DOT_QUERY) && !Parse(DOT_QUERY, false).bad
    ensures var x := Parse(DOT_QUERY, false).items; Decoded(DOT_QUERY, 3) != Ok(CleanPath(PathOf(x)) + QueryOf(x))
  {
    DotQueryItems();
    DotQueryParts(Parse(DOT_QUERY, false).items);
    DotIsLast();
    QueryKeptExactly(DOT_QUERY, 3);
  }

  // --------------------------------------------------------------- EncodeURL

  predicate Escaped(b: Byte) {
    b > 127 || b in {9, 10, 13, 32, 34, 35, 36, 37, 38, 59, 60, 61, 62, 63, 64, 91, 92, 93, 94, 96, 123, 124, 125, 126}
  }

  const ILLEGAL: string := " \r\n\t<>#%{}|\\^~[]`;?@=&$\""

  /** The bytes escaped are those above 127 and the characters the code lists. */
  lemma EscapedExactly(b: Byte)
    ensures Escaped(b) <==> b > 127 || b as char in ILLEGAL
  {
  }

  function HexDigit(v: nat): (c: Byte)
    requires v < 16
    ensures HexValue(c) == v && c != PERCENT
  {
    if v < 10 then v + 48 else v + 55
  }

  /** What the format %%%X leaves in three bytes: two digits, or one digit and
      the terminator. */
  function Escape(b: Byte): (r: seq<Byte>) {
    if b >= 16 then [PERCENT, HexDigit(b / 16), HexDigit(b % 16)] else [PERCENT, HexDigit(b), NUL]
  }

  function EncodeByte(b: Byte): (r: seq<Byte>)
    ensures |r| == if Escaped(b) then 3 else 1
  {
    if Escaped(b) then Escape(b) else [b]
  }

  function Encoded(s: seq<Byte>): (r: seq<Byte>)
    ensures |r| >= |s|
  {
    if s == [] then [] else EncodeByte(s[0]) + Encoded(s[1..])
  }

  lemma {:induction false} EncodedSnoc(s: seq<Byte>, b: Byte)
    ensures Encoded(s + [b]) == Encoded(s) + EncodeByte(b)
  {
    if s == [] {
      assert s + [b] == [b] && [b][1..] == [];
    } else {
      assert (s + [b])[1..] == s[1..] + [b];
      EncodedSnoc(s[1..], b);
    }
  }

  lemma EncodedPrefix(src: seq<Byte>, i: nat)
    requires i < |src|
    ensures Encoded(src[..i + 1]) == Encoded(src[..i]) + EncodeByte(src[i])
  {
    assert src[..i + 1] == src[..i] + [src[i]];
    EncodedSnoc(src[..i], src[i]);
  }

  lemma {:induction false} EncodedGrows(src: seq<Byte>, i: nat, j: nat)
    requires i <= j <= |src|
    ensures |Encoded(src[..i])| <= |Encoded(src[..j])|
  {
    if i < j {
      EncodedGrows(src, i, j - 1);
      EncodedPrefix(src, j - 1);
    }
  }

  /** The escape of byte k - 1 ends exactly at the end of the destination, and the
      formatted print stores its terminator behind it. */
  predicate OverrunsAt(src: seq<Byte>, k: nat, destLen: nat)
    requires 0 < k <= |src|
  {
    |Encoded(src[..k])| == destLen && Escaped(src[k - 1]) && src[k - 1] >= 16
  }

  predicate Overruns(src: seq<Byte>, n: nat, destLen: nat)
    requires n <= |src|
  {
    exists k | 0 < k <= n :: OverrunsAt(src, k, destLen)
  }

  lemma OverrunsSoFar(src: seq<Byte>, i: nat, destLen: nat)
    requires i < |src|
    ensures Overruns(src, i + 1, destLen) <==> Overruns(src, i, destLen) || OverrunsAt(src, i + 1, destLen)
  {
  }

  lemma NoLaterOverrun(src: seq<Byte>, i: nat, destLen: nat)
    requires i < |src| && |Encoded(src[..i + 1])| > destLen
    ensures Overruns(src, |src|, destLen) <==> Overruns(src, i, destLen)
    ensures |Encoded(src)| > destLen
  {
    forall k | i < k <= |src|
      ensures |Encoded(src[..k])| > destLen
    {
      EncodedGrows(src, i + 1, k);
    }
    assert src[..|src|] == src;
  }

  /** One byte of EncodeURL, for which there is room. */
  method PutEncoded(dest: array<Byte>, w: nat, b: Byte, destLen: nat, overrun: bool) returns (w2: nat, overrun2: bool)
    requires w + |EncodeByte(b)| <= destLen <= dest.Length
    modifies dest
    ensures w2 == w + |EncodeByte(b)| && dest[..w2] == old(dest[..w]) + EncodeByte(b)
    ensures overrun2 <==> overrun || (w2 == destLen && Escaped(b) && b >= 16)
    ensures forall k | destLen <= k < dest.Length ::
              dest[k] == if k == destLen == w2 && Escaped(b) && b >= 16 then NUL else old(dest[k])
  {
    var e := EncodeByte(b);
    ghost var done := dest[..w];
    w2, overrun2 := w + |e|, overrun;
    if Escaped(b) {
      dest[w], dest[w + 1], dest[w + 2] := e[0], e[1], e[2];
      if b >= 16 {
        if w2 < dest.Length {
          dest[w2] := NUL;
        }
        if w2 == destLen {
          overrun2 := true;
        }
      }
    } else {
      dest[w] := e[0];
    }
    assert dest[..w2] == done + e;
  }

  /** EncodeURL succeeds exactly when the encoding fits.  It stores a byte behind
      the destLen bytes it was given exactly when some escape of two digits ends
      there; overrun tells so also when dest has no such byte. */
  method EncodeURL(src: seq<Byte>, dest: array<Byte>, destLen: nat) returns (r: int, overrun: bool)
    requires destLen <= dest.Length
    modifies dest
    ensures if |Encoded(src)| <= destLen then r == |Encoded(src)| && dest[..r] == Encoded(src)
            else r == NOT_ENOUGH_SPACE
    ensures overrun <==> Overruns(src, |src|, destLen)
    ensures forall k | destLen <= k < dest.Length ::
              dest[k] == if k == destLen && overrun then NUL else old(dest[k])
  {
    var i: nat, w: nat := 0, 0;
    overrun := false;
    while i < |src|
      invariant i <= |src| && w <= destLen && dest[..w] == Encoded(src[..i])
      invariant overrun <==> Overruns(src, i, destLen)
      invariant forall k | destLen <= k < dest.Length ::
                  dest[k] == if k == destLen && overrun then NUL else old(dest[k])
    {
      EncodedPrefix(src, i);
      if w == destLen || (Escaped(src[i]) && destLen - w < 3) {
        NoLaterOverrun(src, i, destLen);
        return NOT_ENOUGH_SPACE, overrun;
      }
      OverrunsSoFar(src, i, destLen);
      w, overrun := PutEncoded(dest, w, src[i], destLen, overrun);
      i := i + 1;
    }
    assert src[..|src|] == src;
    r := w;
  }

  /** A blank into three bytes: the encoding fits, and the terminator lands behind
      them. */
  lemma BlankOverruns()
    ensures Encoded([32]) == [PERCENT, 50, 48] && Overruns([32], 1, 3)
  {
    assert [32][1..] == [] && [32][..1] == [32];
    assert OverrunsAt([32], 1, 3);
  }

  // -------------------------------------------------------------- round trip

  /** The bytes that do not survive: raw NUL is malformed on the way back, and
      the escapes of TAB, LF and CR have only one digit. */
  predicate Lossy(b: Byte) {
    b == NUL || b == TAB || b == LF || b == CR
  }

  function Plain(s: seq<Byte>): (r: seq<Item>)
    ensures |r| == |s| && forall i | 0 <= i < |s| :: r[i] == Item(s[i], false)
  {
    if s == [] then [] else [Item(s[0], false)] + Plain(s[1..])
  }

  lemma ParseByte(b: Byte, rest: seq<Byte>)
    ensures var p, r := Parse(EncodeByte(b) + rest, false), Parse(rest, false);
            if Lossy(b) then p.bad else p == Parsed([Item(b, false)] + r.items, r.bad)
  {
    if !Escaped(b) {
      ParseRaw(b, rest);
    } else {
      var e := Escape(b);
      ParseEscape(e[1], e[2], rest);
      assert e == [PERCENT, e[1], e[2]];
    }
  }

  lemma ParseRaw(b: Byte, rest: seq<Byte>)
    requires b != PERCENT && b != QUESTION
    ensures var p, r := Parse([b] + rest, false), Parse(rest, false);
            if b == NUL then p.bad else p == Parsed([Item(b, false)] + r.items, r.bad)
  {
    assert ([b] + rest)[1..] == rest;
  }

  lemma ParseEscape(x: Byte, y: Byte, rest: seq<Byte>)
    ensures var p, r := Parse([PERCENT, x, y] + rest, false), Parse(rest, false);
            if HexValue(x) == 16 || HexValue(y) == 16 then p.bad
            else p == Parsed([Item(HexValue(x) * 16 + HexValue(y), false)] + r.items, r.bad)
  {
    assert ([PERCENT, x, y] + rest)[3..] == rest;
  }

  lemma {:induction false} ParseEncoded(s: seq<Byte>)
    ensures var p := Parse(Encoded(s), false);
            (p.bad <==> exists b | b in s :: Lossy(b)) && (!p.bad ==> p.items == Plain(s))
  {
    if s != [] {
      ParseByte(s[0], Encoded(s[1..]));
      ParseEncoded(s[1..]);
      assert s == [s[0]] + s[1..];
    }
  }

  lemma {:induction false} BytesOfAt(x: seq<Item>)
    ensures |BytesOf(x)| == |x| && forall i | 0 <= i < |x| :: BytesOf(x)[i] == x[i].byte
  {
    if x != [] {
      BytesOfAt(x[..|x| - 1]);
    }
  }

  lemma {:induction false} NoRawQuestion(s: seq<Byte>)
    ensures QUESTION !in Encoded(s)
  {
    if s != [] {
      NoRawQuestion(s[1..]);
      assert QUESTION !in EncodeByte(s[0]);
    }
  }

  lemma {:induction false} JoinSplit(p: seq<Byte>)
    ensures Join(Split(p)) == p
  {
    if p != [] {
      var q, c := p[..|p| - 1], p[|p| - 1];
      assert p == q + [c];
      JoinSplit(q);
      SplitStep(q, c);
      SplitStep(p, c);
      JoinStep(Inner(q), Last(q));
      JoinStep(Inner(p), Last(p));
    }
  }

  ghost predicate NoDotSegments(p: seq<Byte>) {
    forall g | g in Split(p) :: !IsDots(g)
  }

  lemma {:induction false} DropKeeps(a: seq<Segment>)
    ensures |DropDots(a)| <= |a| && (|DropDots(a)| == |a| <==> forall g | g in a :: !IsDots(g))
    ensures |DropDots(a)| == |a| ==> DropDots(a) == a
  {
    if a != [] {
      var b, h := a[..|a| - 1], a[|a| - 1];
      assert a == b + [h];
      DropKeeps(b);
    }
  }

  /** Deleting segments shortens the path, unless there is nothing to delete. */
  lemma {:induction false} DropShortens(a: seq<Segment>)
    requires a != [] && a[0] == []
    ensures DropDots(a) != []
    ensures |Join(DropDots(a))| <= |Join(a)| && (|Join(DropDots(a))| == |Join(a)| ==> |DropDots(a)| == |a|)
  {
    var b, h := a[..|a| - 1], a[|a| - 1];
    assert a == b + [h];
    if b == [] {
      assert a == [[]];
      assert DropDots(a) == [] + [[]];
    } else {
      DropShortens(b);
      JoinStep(b, h);
      JoinStep(DropDots(b), h);
    }
  }

  lemma {:induction false} InnerStartsEmpty(p: seq<Byte>)
    requires Rooted(p)
    ensures Inner(p) != [] && Inner(p)[0] == []
  {
    var q, c := p[..|p| - 1], p[|p| - 1];
    assert p == q + [c];
    SplitStep(q, c);
    if q == [] {
      assert Split(q) == [[]];
    } else {
      InnerStartsEmpty(q);
    }
  }

  lemma CleanIsSame(p: seq<Byte>)
    requires Rooted(p)
    ensures CleanPath(p) == p <==> NoDotSegments(p)
  {
    var a, g := Inner(p), Last(p);
    var g' := if IsDots(g) then [] else g;
    SplitStep(p, 0);
    JoinSplit(p);
    InnerStartsEmpty(p);
    DropShortens(a);
    DropKeeps(a);
    JoinStep(a, g);
    JoinStep(DropDots(a), g');
    assert p == Join(a) + [SLASH] + g && CleanPath(p) == Join(DropDots(a)) + [SLASH] + g';
    assert NoDotSegments(p) <==> (forall x | x in a :: !IsDots(x)) && !IsDots(g) by {
      assert forall x :: x in Split(p) <==> x in a || x == g;
    }
  }

  // --------------------------------------------- against section 5.2.4 of RFC 3986

  /** The last segment of the output goes, unless only the root is left. */
  function Pop(s: seq<Segment>): (r: seq<Segment>) {
    if |s| <= 1 then s else s[..|s| - 1]
  }

  /** One segment more: "." goes, and ".." takes its parent with it. */
  function RemoveNext(t: seq<Segment>, g: Segment): (r: seq<Segment>) {
    if g == [DOT] then t else if g == [DOT, DOT] then Pop(t) else t + [g]
  }

  /** Section 5.2.4 of RFC 3986 on segments. */
  function Removed(s: seq<Segment>): (r: seq<Segment>) {
    if s == [] then []
    else RemoveNext(Removed(s[..|s| - 1]), s[|s| - 1])
  }

  /** The path that section 5.2.4 leaves: a final dot segment leaves a slash. */
  function RemovedPath(p: seq<Byte>): (r: seq<Byte>) {
    var t := Removed(Split(p));
    Join(if IsDots(Last(p)) then t + [[]] else t)
  }

  /** Every ".." has only dot segments and the root before it. */
  ghost predicate NoParents(s: seq<Segment>) {
    forall i, j | 1 <= j < i < |s| && s[i] == [DOT, DOT] :: IsDots(s[j])
  }

  lemma {:induction false} NoParentsStep(a: seq<Segment>, g: Segment)
    requires a != [] && a[0] == []
    ensures NoParents(a + [g]) <==> NoParents(a) && (g == [DOT, DOT] ==> |DropDots(a)| == 1)
  {
    var s := a + [g];
    OnlyRootLeft(a);
    assert forall i | 0 <= i < |a| :: s[i] == a[i];
    assert s[|a|] == g;
  }

  lemma {:induction false} OnlyRootLeft(a: seq<Segment>)
    requires a != [] && a[0] == []
    ensures DropDots(a) != [] && (|DropDots(a)| == 1 <==> forall j | 1 <= j < |a| :: IsDots(a[j]))
  {
    var b, h := a[..|a| - 1], a[|a| - 1];
    assert a == b + [h];
    if b == [] {
      assert DropDots(a) == [] + [[]];
    } else {
      OnlyRootLeft(b);
      assert forall j | 1 <= j < |b| :: a[j] == b[j];
    }
  }

  lemma RemovedStep(a: seq<Segment>, g: Segment)
    ensures Removed(a + [g]) == RemoveNext(Removed(a), g)
  {
    assert (a + [g])[..|a|] == a;
  }

  lemma PopShortens(t: seq<Segment>)
    requires t != []
    ensures Pop(t) != [] && (|t| == 1 ==> Pop(t) == t) && (|t| > 1 ==> |Join(Pop(t))| < |Join(t)|)
  {
    if |t| > 1 {
      assert t == Pop(t) + [t[|t| - 1]];
      JoinStep(Pop(t), t[|t| - 1]);
    }
  }

  /** One segment keeps two outputs apart, or parts them when a parent goes. */
  lemma ShorterStep(t: seq<Segment>, d: seq<Segment>, g: Segment, same: bool)
    requires t != [] && d != [] && (if same then t == d else |Join(t)| < |Join(d)|)
    ensures var t', d' := RemoveNext(t, g), if IsDots(g) then d else d + [g];
            && t' != []
            && if same && (g == [DOT, DOT] ==> |d| == 1) then t' == d' else |Join(t')| < |Join(d')|
  {
    PopShortens(t);
    JoinStep(t, g);
    JoinStep(d, g);
  }

  /** Taking parents away shortens the path, unless there are none. */
  lemma {:induction false} RemovedIsShorter(s: seq<Segment>)
    requires s != [] && s[0] == []
    ensures Removed(s) != []
    ensures if NoParents(s) then Removed(s) == DropDots(s) else |Join(Removed(s))| < |Join(DropDots(s))|
  {
    var a, g := s[..|s| - 1], s[|s| - 1];
    assert s == a + [g];
    if a == [] {
      RemovedStep(a, []);
      DropStep(a, []);
    } else {
      RemovedIsShorter(a);
      NoParentsStep(a, g);
      OnlyRootLeft(a);
      ShorterStep(Removed(a), DropDots(a), g, NoParents(a));
    }
  }

  /** DecodeURL's removal of dot segments is that of section 5.2.4 exactly on the
      rooted paths in which nothing but dot segments comes before a "..". */
  lemma CleanIsRemovedExactly(p: seq<Byte>)
    requires Rooted(p)
    ensures CleanPath(p) == RemovedPath(p) <==> NoParents(Split(p))
  {
    var a, g := Inner(p), Last(p);
    SplitStep(p, 0);
    InnerStartsEmpty(p);
    RemovedIsShorter(Split(p));
    DropStep(a, g);
    JoinStep(DropDots(a), []);
    JoinStep(Removed(Split(p)), []);
  }

  /** So DecodeURL gives the path of section 5.2.4 for such sources only. */
  lemma {:induction false} DecodesAsStandardExactly(src: seq<Byte>, destLen: nat)
    requires Rooted(src) && QUESTION !in src && destLen >= |src| && !Parse(src, false).bad
    ensures var p := BytesOf(Parse(src, false).items);
            Decoded(src, destLen) == Ok(RemovedPath(p)) <==> NoParents(Split(p))
  {
    DecodedIsReference(src, destLen);
    var items := Parse(src, false).items;
    FirstItem(src);
    BytesOfAt(items);
    CleanIsRemovedExactly(BytesOf(items));
  }

  const LETTER_A: Byte := 'a' as int
  const PARENT: seq<Byte> := [SLASH, LETTER_A, SLASH, DOT, DOT]

  lemma {:induction false} ReadsVerbatim(src: seq<Byte>)
    requires PERCENT !in src && NUL !in src && QUESTION !in src
    ensures Parse(src, false) == Parsed(Plain(src), false)
  {
    if src != [] {
      assert src == [src[0]] + src[1..];
      ReadsVerbatim(src[1..]);
      ParseRaw(src[0], src[1..]);
    }
  }

  lemma SplitSnoc(p: seq<Byte>, c: Byte, s: seq<Segment>, g: Segment, q: seq<Byte>, h: Segment)
    requires Split(p) == s + [g] && q == p + [c] && h == g + [c]
    ensures Split(q) == if c == SLASH then s + [g] + [[]] else s + [h]
  {
    SplitStep(p, c);
    SplitStep(q, c);
  }

  lemma SplitsStart()
    ensures Split([SLASH, LETTER_A, SLASH]) == [[], [LETTER_A]] + [[]]
  {
    var none: seq<Segment>, s, p: seq<Byte> := [], [[]], [SLASH, LETTER_A];
    assert Split([]) == none + [[]];
    SplitSnoc([], SLASH, none, [], [SLASH], [SLASH]);
    assert none + [[]] + [[]] == s + [[]];
    SplitSnoc([SLASH], LETTER_A, s, [], p, [LETTER_A]);
    SplitSnoc(p, SLASH, s, [LETTER_A], [SLASH, LETTER_A, SLASH], [LETTER_A, SLASH]);
  }

  lemma SplitsParent()
    ensures Split(PARENT) == [[], [LETTER_A], [DOT, DOT]]
  {
    var t, q: seq<Byte> := [[], [LETTER_A]], [SLASH, LETTER_A, SLASH];
    SplitsStart();
    SplitSnoc(q, DOT, t, [], q + [DOT], [DOT]);
    SplitSnoc(q + [DOT], DOT, t, [DOT], PARENT, [DOT, DOT]);
  }

  /** "/a/..": section 5.2.4 has "/" there, and DecodeURL gives something else. */
  lemma ParentStays(destLen: nat)
    requires destLen >= |PARENT|
    ensures RemovedPath(PARENT) == [SLASH] && Decoded(PARENT, destLen) != Ok([SLASH])
  {
    var none: seq<Segment>, s := [], Split(PARENT);
    SplitsParent();
    RemovedStep(none, []);
    RemovedStep([[]], [LETTER_A]);
    RemovedStep([[], [LETTER_A]], [DOT, DOT]);
    assert none + [[]] == [[]] && s == [[], [LETTER_A]] + [[DOT, DOT]];
    assert Removed(s) == [[]];
    assert RemovedPath(PARENT) == Join([[]] + [[]]);
    JoinStep(none, []);
    JoinStep([[]], []);
    ReadsVerbatim(PARENT);
    BytesOfAt(Plain(PARENT));
    assert BytesOf(Plain(PARENT)) == PARENT;
    DecodesAsStandardExactly(PARENT, destLen);
    assert !NoParents(s) by {
      assert s[2] == [DOT, DOT] && !IsDots(s[1]);
    }
  }

  /** DecodeURL undoes EncodeURL exactly on the rooted paths without dot segments
      that contain no NUL, TAB, LF or CR. */
  lemma {:induction false} RoundTripExactly(p: seq<Byte>, destLen: nat)
    requires destLen >= |Encoded(p)|
    ensures Decoded(Encoded(p), destLen) == Ok(p) <==>
            Rooted(p) && NoDotSegments(p) && forall b | b in p :: !Lossy(b)
  {
    if p != [] {
      assert Encoded(p)[0] == EncodeByte(p[0])[0];
    }
    if Rooted(p) {
      NoRawQuestion(p);
      DecodedIsReference(Encoded(p), destLen);
      ParseEncoded(p);
      BytesOfAt(Plain(p));
      assert BytesOf(Plain(p)) == p;
      CleanIsSame(p);
    }
  }

  function Up(c: Byte): (r: Byte) {
    if 97 <= c <= 122 then c - 32 else c
  }

  /** The source with the letters behind each percent sign in upper case. */
  function Raised(src: seq<Byte>): (r: seq<Byte>)
    ensures |r| == |src| && (src != [] ==> r[0] == src[0])
  {
    if src == [] then []
    else if src[0] == PERCENT && |src| >= 3 then [PERCENT, Up(src[1]), Up(src[2])] + Raised(src[3..])
    else [src[0]] + Raised(src[1..])
  }

  lemma UpKeepsValue(c: Byte)
    ensures HexValue(Up(c)) == HexValue(c)
    ensures forall v | 0 <= v < 16 && c == LOWER[v] as int :: Up(c) == UPPER[v] as int
  {
  }

  lemma {:induction false} ParseRaised(src: seq<Byte>, inQuery: bool)
    ensures Parse(Raised(src), inQuery) == Parse(src, inQuery)
  {
    if src != [] {
      var r, q := Raised(src), inQuery || src[0] == QUESTION;
      if src[0] == PERCENT && |src| >= 3 {
        UpKeepsValue(src[1]);
        UpKeepsValue(src[2]);
        assert r[1] == Up(src[1]) && r[2] == Up(src[2]) && r[3..] == Raised(src[3..]);
        ParseRaised(src[3..], q);
      } else {
        assert r[1..] == Raised(src[1..]);
        ParseRaised(src[1..], q);
      }
    }
  }

  /** DecodeURL does not care about the case of the digits of escapes. */
  lemma {:induction false} CaseIsIrrelevant(src: seq<Byte>, destLen: nat)
    ensures Decoded(Raised(src), destLen) == Decoded(src, destLen)
  {
    ParseRaised(src, false);
    assert Rooted(src) ==> Decoded(Raised(src), destLen) == Finished(Parse(Raised(src), false), destLen);
  }

  /** So any encoding comes back exactly as that of EncodeURL does, whatever the case of
      its digits. */
  lemma {:induction false} AnyCaseRoundTrip(p: seq<Byte>, t: seq<Byte>, destLen: nat)
    requires destLen >= |Encoded(p)| && Raised(t) == Raised(Encoded(p))
    ensures Decoded(t, destLen) == Ok(p) <==> Rooted(p) && NoDotSegments(p) && forall b | b in p :: !Lossy(b)
  {
    CaseIsIrrelevant(t, destLen);
    CaseIsIrrelevant(Encoded(p), destLen);
    RoundTripExactly(p, destLen);
  }

  /** "/" followed by CR does not come back. */
  lemma {:induction false} CrIsLost(destLen: nat)
    requires destLen >= |Encoded([SLASH, CR])|
    ensures Decoded(Encoded([SLASH, CR]), destLen) != Ok([SLASH, CR])
  {
    RoundTripExactly([SLASH, CR], destLen);
    assert CR in [SLASH, CR] && Lossy(CR);
  }
}
