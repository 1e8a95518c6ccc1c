/** HTTPRequestStream in base64 mode (CFHttp/HTTPRequestStream.cpp): the rounds of
    ReadRequest, in which the bytes of the socket are decoded before they are framed. */
module DecodedRequests {
  import opened Bytes
  import opened Sequences
  import opened Framing
  import opened StreamDecoder
  import opened DecodingStreams
  import opened RequestStreams

  // ------------------------------------------- ReadRequest as a function of bytes

  /** What is buffered: the decoded bytes behind the last message, the encoded ones
      not decoded yet, how far the encoded buffer is filled, and the first byte of the
      decoded buffer. */
  datatype Coded = Coded(held: seq<Byte>, carry: seq<Byte>, cur: nat, front: Byte)

  datatype Reply = Reply(result: Result, at: Coded, left: Wire)

  /** A fragment has come. */
  function Received(c: Coded, f: seq<Byte>): (r: Coded) {
    var held := c.held + GoodPlain(c.carry + f);
    Coded(held, Rest(c.carry + f), c.cur + |f|, Front(held, |c.carry + f|, c.front))
  }

  /** The buffers are moved on to the next message. */
  function MovedOn(c: Coded): (r: Coded) {
    c.(cur := |c.held| + |c.carry|, front := if c.held != [] then c.held[0] else c.front)
  }

  datatype Taken = Taken(status: SockStatus, at: Coded, left: Wire)

  /** One read of the socket. */
  function Take(size: nat, c: Coded, w: Wire): (r: Taken)
    requires c.cur < size
    ensures r.status == Ok ==> |r.left.plan| < |w.plan| && c.cur < r.at.cur
    ensures r.at.cur < size
  {
    var g := ReadWire(w, size - 1 - c.cur);
    Taken(g.status, if g.status == Ok then Received(c, w.stream[..g.n]) else c, g.left)
  }

  function StoppedCoded(k: Taken): (a: Reply) {
    Reply(if k.status == Again then NoErr else Failed, k.at, k.left)
  }

  /** A call that examines the bytes held first. */
  function SettleCoded(size: nat, c: Coded, w: Wire): (r: Reply)
    requires c.cur < size
    decreases |w.plan|
  {
    if Judge(c.held) != Incomplete then Reply(Arrived, c, w)
    else if c.cur == size - 1 && c.front != DOLLAR then Reply(TooBig, c, w)
    else
      var k := Take(size, c, w);
      if k.status == Ok then SettleCoded(size, k.at, k.left) else StoppedCoded(k)
  }

  /** A call that reads the socket first. */
  function AwaitCoded(size: nat, c: Coded, w: Wire): (r: Reply)
    requires c.cur < size
  {
    var k := Take(size, c, w);
    if k.status == Ok then SettleCoded(size, k.at, k.left) else StoppedCoded(k)
  }

  /** A call of ReadRequest, with or without a message at hand. */
  function CodedRequest(size: nat, have: bool, c: Coded, w: Wire): (r: Reply)
    requires c.cur < size && (have ==> MovedOn(c).cur < size)
  {
    if !have then AwaitCoded(size, c, w)
    else if c.held != [] then SettleCoded(size, MovedOn(c), w)
    else AwaitCoded(size, MovedOn(c), w)
  }

  // -------------------------------------------------- what it means for a clean stream

  /** The bytes decoded and those still coded are all. */
  ghost predicate Owes(c: Coded, stream: seq<Byte>, all: seq<Byte>) {
    Clean(c.carry + stream) && c.held + GroupsPlain(c.carry + stream) == all
  }

  /** A chunk of a clean stream: its whole groups come out, and what it leaves, with
      the rest of the stream, is clean and makes up the remaining output. */
  lemma ChunkOf(chunk: seq<Byte>, rest: seq<Byte>)
    requires Clean(chunk + rest)
    ensures Clean(Rest(chunk) + rest)
    ensures GoodPlain(chunk) + GroupsPlain(Rest(chunk) + rest) == GroupsPlain(chunk + rest)
  {
    var m, s := |chunk| / 4, chunk + rest;
    CleanPrefix(chunk, rest);
    CleanSuffix(s, m);
    SplitPlain(s, m);
    assert s[..4 * m] == chunk[..4 * m] && s[4 * m..] == Rest(chunk) + rest;
  }

  lemma TakeOwes(size: nat, c: Coded, w: Wire, all: seq<Byte>)
    requires c.cur < size && Owes(c, w.stream, all)
    ensures var k := Take(size, c, w); Owes(k.at, k.left.stream, all)
  {
    var g := ReadWire(w, size - 1 - c.cur);
    var f, rest := w.stream[..g.n], g.left.stream;
    Regroup(c.carry, w.stream, g.n);
    if g.status == Ok {
      ChunkOf(c.carry + f, rest);
      Append(c.held, GoodPlain(c.carry + f), GroupsPlain(Rest(c.carry + f) + rest));
    }
  }

  /** However the socket cuts it, a clean stream comes through: what is decoded and
      what is still coded stay the same bytes. */
  lemma {:induction false} SettleOwes(size: nat, c: Coded, w: Wire, all: seq<Byte>)
    requires c.cur < size && Owes(c, w.stream, all)
    ensures var r := SettleCoded(size, c, w); Owes(r.at, r.left.stream, all)
    decreases |w.plan|
  {
    var k := Take(size, c, w);
    TakeOwes(size, c, w, all);
    if k.status == Ok {
      SettleOwes(size, k.at, k.left, all);
    }
  }

  /** What the result says about the bytes decoded then. */
  ghost predicate JudgedCoded(size: nat, r: Reply) {
    match r.result
    case Arrived => Judge(r.at.held) != Incomplete
    case TooBig => r.at.cur == size - 1 && r.at.front != DOLLAR && Judge(r.at.held) == Incomplete
    case NoErr => Judge(r.at.held) == Incomplete && r.left.connected
    case Failed => Judge(r.at.held) == Incomplete && !r.left.connected
  }

  lemma {:induction false} SettleCodedJudges(size: nat, c: Coded, w: Wire)
    requires c.cur < size
    ensures JudgedCoded(size, SettleCoded(size, c, w))
    decreases |w.plan|
  {
    var k := Take(size, c, w);
    if k.status == Ok {
      SettleCodedJudges(size, k.at, k.left);
    }
  }

  lemma CodedRequestSound(size: nat, have: bool, c: Coded, w: Wire, all: seq<Byte>)
    requires c.cur < size && (have ==> MovedOn(c).cur < size) && (!have ==> Judge(c.held) == Incomplete)
    requires Owes(c, w.stream, all)
    ensures var r := CodedRequest(size, have, c, w); JudgedCoded(size, r) && Owes(r.at, r.left.stream, all)
  {
    var d := if have then MovedOn(c) else c;
    var k := Take(size, d, w);
    TakeOwes(size, d, w, all);
    if have && c.held != [] {
      SettleCodedJudges(size, d, w);
      SettleOwes(size, d, w, all);
    } else if k.status == Ok {
      SettleCodedJudges(size, k.at, k.left);
      SettleOwes(size, k.at, k.left, all);
    }
  }

  // ------------------------------------------------------------------ the class

  /** The call will end with goal when it examines the bytes held next. */
  ghost predicate Examines(goal: Reply, size: nat, c: Coded, w: Wire) {
    c.cur < size && forall d {:trigger SettleCoded(size, d, w)} | d == c :: goal == SettleCoded(size, d, w)
  }

  /** The same when it reads the socket next. */
  ghost predicate Reads(goal: Reply, size: nat, c: Coded, w: Wire) {
    c.cur < size && forall d {:trigger AwaitCoded(size, d, w)} | d == c :: goal == AwaitCoded(size, d, w)
  }

  /** The same when it goes to the next round. */
  ghost predicate Goes(goal: Reply, size: nat, have: bool, c: Coded, w: Wire) {
    && c.cur < size && (have ==> MovedOn(c).cur < size)
    && if have && c.held != [] then Examines(goal, size, MovedOn(c), w)
       else Reads(goal, size, if have then MovedOn(c) else c, w)
  }

  lemma GoesTo(size: nat, have: bool, c: Coded, w: Wire)
    requires c.cur < size && (have ==> MovedOn(c).cur < size)
    ensures Goes(CodedRequest(size, have, c, w), size, have, c, w)
  {
  }

  lemma ReadsThen(goal: Reply, size: nat, c: Coded, w: Wire)
    requires Reads(goal, size, c, w)
    ensures var k := Take(size, c, w);
            if k.status == Ok then Examines(goal, size, k.at, k.left) else goal == StoppedCoded(k)
  {
    assert goal == AwaitCoded(size, c, w);
  }

  lemma ExaminesThen(goal: Reply, size: nat, c: Coded, w: Wire)
    requires Examines(goal, size, c, w)
    ensures if Judge(c.held) != Incomplete then goal == Reply(Arrived, c, w)
            else if c.cur == size - 1 && c.front != DOLLAR then goal == Reply(TooBig, c, w)
            else Reads(goal, size, c, w)
  {
    assert goal == SettleCoded(size, c, w);
  }

  /** With no bytes there is no header to end. */
  lemma NoHeader()
    ensures HeaderEnd([], 0, 0) == Open && Judge([]) == Incomplete
  {
  }

  lemma RetreatIs(d: seq<Byte>, b: seq<Byte>, held: seq<Byte>, at: nat, n: nat)
    requires at + n <= |b| <= |d| && held == b[at..] && b == d[..|b|]
    ensures held == d[at..at + n] + held[n..] && held[n..] == b[at + n..] && |d[at..at + n]| == n
  {
  }

  class DecodedStream {
    const s: DecodingStream                // the two buffers
    const sock: Socket
    var reqLen: nat                        // fRequest.Len
    var retreat: nat                       // fRetreatBytes
    var retreatRead: nat                   // fRetreatBytesRead
    var have: bool                         // fRequestPtr is set
    var isPacket: bool                     // fIsDataPacket
    ghost var head: seq<Byte>              // the message at hand, if any
    ghost var held: seq<Byte>              // the decoded bytes behind it
    ghost var handed: seq<Byte>            // messages and body bytes given out

    /** The decoded buffer shows the message and the bytes behind it, and all that
        was decoded is what was given out and what is held. */
    ghost predicate Shown()
      reads this, s, s.buf, s.dst
    {
      && s.Valid() && s.gone + s.held == handed + held
      && if have then reqLen + retreatRead + retreat == s.len
                      && s.held[..reqLen] == head && s.held[reqLen + retreatRead..] == held
         else reqLen == s.len && retreat == retreatRead == 0 && s.held == held && head == []
    }

    /** No whole message waits unreported in the buffer. */
    ghost predicate Valid()
      reads this, s, s.buf, s.dst
    {
      Shown() && (!have ==> Judge(held) == Incomplete)
    }

    ghost function Now(): (c: Coded)
      reads this, s, s.dst
      requires s.dst.Length > 0
    {
      Coded(held, s.carry, s.cur, s.dst[0])
    }

    constructor (size: nat, sock: Socket)
      requires size >= 2
      ensures Valid() && !have && handed == held == [] && this.sock == sock && s.size == size && s.carry == []
      ensures fresh(s) && fresh(s.buf) && fresh(s.dst)
    {
      s := new DecodingStream(size);
      this.sock := sock;
      reqLen, retreat, retreatRead := 0, 0, 0;
      have, isPacket := false, false;
      head, held, handed := [], [], [];
      new;
      NoHeader();
    }

    /** The move of the retreated and the carried bytes to the start of the buffers. */
    method StartNext()
      requires Shown() && have
      modifies this`have, this`reqLen, this`retreat, this`retreatRead, this`head, s, s.buf, s.dst
      ensures Shown() && !have && Now() == MovedOn(old(Now()))
    {
      s.NextMessage(retreat);
      have := false;
      reqLen, retreat, retreatRead := retreat, 0, 0;
      head := [];
    }

    /** The decoding of what came. */
    method Decode(f: seq<Byte>)
      requires Shown() && !have && s.cur + |f| < s.size
      modifies this`reqLen, this`held, s, s.buf, s.dst
      ensures Shown() && Now() == Received(old(Now()), f)
    {
      var ok := s.Receive(f);
      held, reqLen := s.held, s.len;
      Append(s.gone, old(held), GoodPlain(old(s.carry) + f));
      Append(handed, old(held), GoodPlain(old(s.carry) + f));
    }

    /** What the decoded bytes amount to. */
    method Examine() returns (v: Verdict)
      requires Shown() && !have
      ensures v == Judge(held) && (v.Packet? ==> s.dst[0] == DOLLAR) && (v.Header? ==> s.dst[0] != DOLLAR)
      ensures !v.Incomplete? ==> v.len <= |held|
    {
      v := Incomplete;
      NoHeader();
      if s.dst[0] == DOLLAR {
        if reqLen >= 4 && PacketLen(s.dst[2], s.dst[3]) <= reqLen {
          v := Packet(PacketLen(s.dst[2], s.dst[3]));
        }
      } else {
        var scan := FindHeaderEnd(s.dst[..reqLen]);
        if scan.Ends? {
          v := Header(scan.at);
        }
      }
    }

    /** The first n bytes become the message; the rest is put back. */
    method Expose(n: nat)
      requires Shown() && !have && n <= reqLen
      modifies this`have, this`reqLen, this`retreat, this`head, this`held, this`handed
      ensures Shown() && have && head == old(held)[..n] && held == old(held)[n..] && handed == old(handed) + head
      ensures old(held) == head + held && Now().(held := head + held) == old(Now())
    {
      retreat := retreat + (reqLen - n);
      reqLen := n;
      have := true;
      Regroup(handed, held, n);
      head, held := held[..n], held[n..];
      handed := handed + head;
    }

    /** The first half of a round of ReadRequest: drop the last message and, if
        nothing is left then, read the socket. */
    method NextBytes(ghost goal: Reply) returns (r: SockStatus)
      requires Valid() && Goes(goal, s.size, have, Now(), sock.Now())
      modifies this`have, this`reqLen, this`retreat, this`retreatRead, this`head, this`held, s, s.buf, s.dst, sock
      ensures Shown() && !have
      ensures r == Ok ==> old(have) || s.cur > old(s.cur)
      ensures r != Ok ==> held == old(held) && Judge(held) == Incomplete
      ensures if r == Ok then Examines(goal, s.size, Now(), sock.Now())
              else goal == StoppedCoded(Taken(r, Now(), sock.Now()))
    {
      var newOffset := 0;
      if have {
        StartNext();
        newOffset := reqLen;
      }
      r := Ok;
      if newOffset == 0 {
        NoHeader();
        r := ReadFirst(goal);
      }
    }

    /** The read of a call that has nothing to examine yet. */
    method ReadFirst(ghost goal: Reply) returns (r: SockStatus)
      requires Shown() && !have && Reads(goal, s.size, Now(), sock.Now())
      modifies this`reqLen, this`held, s, s.buf, s.dst, sock
      ensures Shown() && if r == Ok then s.cur > old(s.cur) else held == old(held)
      ensures if r == Ok then Examines(goal, s.size, Now(), sock.Now())
              else goal == StoppedCoded(Taken(r, Now(), sock.Now()))
    {
      ghost var w := sock.Now();
      ReadsThen(goal, s.size, Now(), w);
      var bytes;
      r, bytes := sock.Read(s.size - s.cur - 1);
      assert bytes == w.stream[..|bytes|];
      if r == Ok {
        Decode(bytes);
      }
    }

    /** The second half: give the message out, if there is one. */
    method Decide(ghost goal: Reply) returns (r: Result)
      requires Shown() && !have && Examines(goal, s.size, Now(), sock.Now())
      modifies this`have, this`reqLen, this`retreat, this`isPacket, this`head, this`held, this`handed
      ensures Shown() && old(held) == head + held && (have <==> r != NoErr) && r != Failed
      ensures handed == old(handed) + head
      ensures Now().(held := head + held) == old(Now())
      ensures if have then goal == Reply(r, old(Now()), sock.Now())
              else Judge(held) == Incomplete && Reads(goal, s.size, Now(), sock.Now())
      ensures r == Arrived ==> Judge(old(held)) == if isPacket then Packet(|head|) else Header(|head|)
      ensures r == TooBig ==> held == []
    {
      ExaminesThen(goal, s.size, Now(), sock.Now());
      var v := Examine();
      isPacket := s.dst[0] == DOLLAR;
      r := NoErr;
      if !v.Incomplete? {
        Expose(v.len);
        r := Arrived;
      } else if !isPacket && s.cur == s.size - 1 {
        Expose(reqLen);
        r := TooBig;
      }
    }

    /** The call has ended with result r. */
    ghost predicate Done(r: Result, goal: Reply)
      reads this, s, s.buf, s.dst, sock
    {
      && Valid() && Reply(r, Now().(held := head + held), sock.Now()) == goal
      && (have <==> r == Arrived || r == TooBig)
      && (r == Arrived ==> Judge(head + held) == if isPacket then Packet(|head|) else Header(|head|))
      && (r == TooBig ==> held == [])
    }

    method Round(ghost goal: Reply) returns (done: bool, r: Result)
      requires Valid() && Goes(goal, s.size, have, Now(), sock.Now())
      modifies this`have, this`reqLen, this`retreat, this`retreatRead, this`isPacket, this`head, this`held,
               this`handed, s, s.buf, s.dst, sock
      ensures handed == old(handed) + head
      ensures done ==> Done(r, goal)
      ensures !done ==> Valid() && !have && Goes(goal, s.size, have, Now(), sock.Now())
      ensures !done ==> old(have) || s.cur > old(s.cur)
    {
      var status := NextBytes(goal);
      if status != Ok {
        assert head + held == held;
        return true, if status == Again then NoErr else Failed;
      }
      r := Decide(goal);
      done := r != NoErr;
    }

    /** ReadRequest: result, decoded bytes, carried bytes and bytes left on the wire
        are those of CodedRequest.  The message is the prefix of the decoded bytes that
        Judge finds, or all of them when the buffer is full; otherwise they stay held.
        Every round but the first takes bytes, so the loop ends. */
    method ReadRequest() returns (r: Result)
      requires Valid()
      modifies this`have, this`reqLen, this`retreat, this`retreatRead, this`isPacket, this`head, this`held,
               this`handed, s, s.buf, s.dst, sock
      ensures Done(r, CodedRequest(s.size, old(have), old(Now()), old(sock.Now())))
      ensures handed == old(handed) + head
    {
      ghost var goal := CodedRequest(s.size, have, Now(), sock.Now());
      GoesTo(s.size, have, Now(), sock.Now());
      var done := false;
      r := NoErr;
      while !done
        invariant Valid() && if done then Done(r, goal) else Goes(goal, s.size, have, Now(), sock.Now())
        invariant handed == old(handed) + (if done then head else [])
        decreases !done, have, s.size - s.cur
      {
        done, r := Round(goal);
      }
    }

    /** The part of Read that serves retreated bytes. */
    method TakeRetreat(len: nat) returns (out: seq<Byte>)
      requires Valid()
      modifies this`retreat, this`retreatRead, this`held, this`handed
      ensures Valid() && old(held) == out + held && handed == old(handed) + out
      ensures |out| == Min(len, old(retreat)) && retreat == old(retreat) - |out|
    {
      out := [];
      if retreat > 0 {
        var n, at := Min(retreat, len), reqLen + retreatRead;
        out := s.dst[at..at + n];
        RetreatIs(s.dst[..], s.held, held, at, n);
        assert out == s.dst[..][at..at + n];
        Append(handed, out, held[n..]);
        retreat, retreatRead := retreat - n, retreatRead + n;
        held, handed := held[n..], handed + out;
      }
    }

    /** Read: the bytes put back are decoded, those behind them come from the socket as
        they are. */
    method Read(len: nat) returns (r: SockStatus, out: seq<Byte>)
      requires Valid()
      modifies this`retreat, this`retreatRead, this`held, this`handed, sock
      ensures Valid() && |out| <= len
      ensures var n := Min(len, old(retreat));
              && n <= |out| && old(held) == out[..n] + held && handed == old(handed) + out[..n]
              && out[n..] + sock.stream == old(sock.stream)
              && (n == len ==> r == Ok && sock.Now() == old(sock.Now()))
    {
      out := TakeRetreat(len);
      r := Ok;
      if |out| < len {
        var bytes;
        r, bytes := sock.Read(len - |out|);
        out := out + bytes;
      }
    }
  }

  // -------------------------------------------------------------- whole runs

  /** A call over a clean stream: the message is the first of the bytes owed, and
      over a plain one it is what Reported says. */
  lemma RequestOwes(size: nat, have: bool, c: Coded, w: Wire, all: seq<Byte>, r: Reply, head: seq<Byte>,
                    held: seq<Byte>)
    requires c.cur < size && (have ==> MovedOn(c).cur < size) && (!have ==> Judge(c.held) == Incomplete)
    requires Owes(c, w.stream, all) && r == CodedRequest(size, have, c, w) && r.at.held == head + held
    requires r.result == Arrived ==> Judge(head + held) == Packet(|head|) || Judge(head + held) == Header(|head|)
    ensures head <= all && Owes(r.at.(held := held), r.left.stream, all[|head|..])
    ensures PlainStream(all) ==> Reported(all, head, held, GroupsPlain(r.at.carry + r.left.stream), r.result)
  {
    CodedRequestSound(size, have, c, w, all);
    var rest := GroupsPlain(r.at.carry + r.left.stream);
    Append(head, held, rest);
    assert all == head + (held + rest);
    if PlainStream(all) {
      JudgedIsReported(all, head, held, rest, r.result);
    }
  }

  /** ReadRequest while the bytes held and those to come decode to all: the message is
      the first of them, and the others are still owed.  If they make up a plain
      stream, a request arrives exactly when, decoded, a CRLFCRLF is buffered, and it is
      the shortest prefix that ends with one. */
  method PlainCoded(s: DecodedStream, ghost all: seq<Byte>) returns (r: Result)
    requires s.Valid() && Owes(s.Now(), s.sock.stream, all)
    modifies s, s.s, s.s.buf, s.s.dst, s.sock
    ensures s.Valid() && s.handed == old(s.handed) + s.head && (s.have <==> r == Arrived || r == TooBig)
    ensures s.head <= all && Owes(s.Now(), s.sock.stream, all[|s.head|..])
    ensures PlainStream(all) ==> Reported(all, s.head, s.held, GroupsPlain(s.s.carry + s.sock.stream), r)
  {
    ghost var size, have, c, w := s.s.size, s.have, s.Now(), s.sock.Now();
    r := s.ReadRequest();
    RequestOwes(size, have, c, w, all, CodedRequest(size, have, c, w), s.head, s.held);
  }

  /** A read of bytes put back, in the same setting. */
  method BodyCoded(s: DecodedStream, len: nat, ghost all: seq<Byte>) returns (out: seq<Byte>)
    requires s.Valid() && Owes(s.Now(), s.sock.stream, all) && len <= s.retreat
    modifies s, s.sock
    ensures s.Valid() && s.handed == old(s.handed) + out && |out| == len
    ensures out <= all && Owes(s.Now(), s.sock.stream, all[len..])
  {
    ghost var rest := GroupsPlain(s.s.carry + s.sock.stream);
    var r;
    r, out := s.Read(len);
    assert out[..len] == out && out[len..] == [];
    Append(out, s.held, rest);
  }

  lemma Onward(handed: seq<Byte>, out: seq<Byte>, left: seq<Byte>, all: seq<Byte>)
    requires handed + left == all && out <= left
    ensures (handed + out) + left[|out|..] == all
  {
  }

  /** Any run of ReadRequest calls, and of reads of bytes put back, over encoded
      messages that the socket cuts anywhere: what is given out, what is held and what
      the bytes to come decode to are the messages. */
  method ServeCoded(s: DecodedStream, calls: seq<Call>, ghost messages: seq<seq<Byte>>)
    requires s.Valid() && s.handed == s.held == s.s.carry == [] && s.sock.stream == EncodeEach(messages)
    modifies s, s.s, s.s.buf, s.s.dst, s.sock
    ensures s.Valid() && Clean(s.s.carry + s.sock.stream)
    ensures s.handed + (s.held + GroupsPlain(s.s.carry + s.sock.stream)) == Concat(messages)
  {
    EncodeEachGroups(messages);
    assert s.s.carry + s.sock.stream == s.sock.stream;
    ghost var left := Concat(messages);
    for i := 0 to |calls|
      invariant s.Valid() && Owes(s.Now(), s.sock.stream, left) && s.handed + left == Concat(messages)
    {
      ghost var handed := s.handed;
      if calls[i] == NextRequest {
        var r := PlainCoded(s, left);
        Onward(handed, s.head, left, Concat(messages));
        left := left[|s.head|..];
      } else if calls[i].len <= s.retreat {
        var out := BodyCoded(s, calls[i].len, left);
        Onward(handed, out, left, Concat(messages));
        left := left[|out|..];
      }
    }
  }
}
