/** HTTPRequestStream (CFHttp/HTTPRequestStream.cpp) without base64 decoding: the
    header framing, the retreat of surplus bytes and the reading of bodies. */
module RequestStreams {
  import opened Bytes
  import opened Sequences
  import opened Framing

  /** What one read of the non-blocking socket meets. */
  datatype Chunk = Ready(n: nat) | NotYet | Dead

  /** The peer's bytes still to come, how the network will cut them, and whether
      the socket is connected. */
  datatype Wire = Wire(stream: seq<Byte>, plan: seq<Chunk>, connected: bool)

  datatype SockStatus = Ok | Again | Gone

  datatype Reading = Reading(status: SockStatus, n: nat, left: Wire)

  /** What Socket::Read of len bytes gives: no bytes at all means that the peer has
      gone. */
  function ReadWire(w: Wire, len: nat): (r: Reading)
    ensures r.n <= len && r.n <= |w.stream| && (r.status == Ok <==> r.n > 0)
    ensures r.left.stream == w.stream[r.n..] && (r.status == Gone <==> !r.left.connected)
    ensures r.status == Ok ==> w.plan != [] && r.left.plan == w.plan[1..]
  {
    if !w.connected then Reading(Gone, 0, w)
    else if w.plan == [] then Reading(Again, 0, w)
    else
      var popped := w.(plan := w.plan[1..]);
      match w.plan[0]
      case NotYet => Reading(Again, 0, popped)
      case Dead => Reading(Gone, 0, popped.(connected := false))
      case Ready(n) =>
        var got := Min(Min(n, len), |w.stream|);
        if got == 0 then Reading(Gone, 0, popped.(connected := false))
        else Reading(Ok, got, popped.(stream := w.stream[got..]))
  }

  class Socket {
    var stream: seq<Byte>
    var plan: seq<Chunk>
    var connected: bool                    // kConnected in fState

    constructor (stream: seq<Byte>, plan: seq<Chunk>)
      ensures Now() == Wire(stream, plan, true)
    {
      this.stream, this.plan, connected := stream, plan, true;
    }

    function Now(): (w: Wire)
      reads this
    {
      Wire(stream, plan, connected)
    }

    method Read(len: nat) returns (r: SockStatus, bytes: seq<Byte>)
      modifies this
      ensures old(stream) == bytes + stream && |bytes| <= len && (r == Ok <==> bytes != [])
      ensures r == Gone <==> !connected
      ensures ReadWire(old(Now()), len) == Reading(r, |bytes|, Now())
    {
      bytes := [];
      if !connected {
        return Gone, [];
      }
      if plan == [] {
        return Again, [];
      }
      var chunk := plan[0];
      plan := plan[1..];
      match chunk {
        case NotYet => r := Again;
        case Dead =>
          connected := false;
          r := Gone;
        case Ready(n) =>
          var got := Min(Min(n, len), |stream|);
          if got == 0 {
            connected := false;
            return Gone, [];
          }
          bytes, stream := stream[..got], stream[got..];
          r := Ok;
      }
    }
  }

  datatype Result = NoErr | Arrived | TooBig | Failed

  // ------------------------------------------- ReadRequest as a function of bytes

  /** The result, the bytes buffered then, and what is left on the wire. */
  datatype Answer = Answer(result: Result, bytes: seq<Byte>, left: Wire)

  /** A call that examines the bytes held first. */
  function Settle(size: nat, held: seq<Byte>, w: Wire): (r: Answer)
    requires |held| < size
    decreases |w.plan|, 1
  {
    if Judge(held) != Incomplete then Answer(Arrived, held, w)
    else if |held| == size - 1 && held != [] && held[0] != DOLLAR then Answer(TooBig, held, w)
    else Await(size, held, w)
  }

  /** A call that reads the socket first. */
  function Await(size: nat, held: seq<Byte>, w: Wire): (r: Answer)
    requires |held| < size
    decreases |w.plan|, 0
  {
    var g := ReadWire(w, size - 1 - |held|);
    match g.status
    case Ok => Settle(size, held + w.stream[..g.n], g.left)
    case Again => Answer(NoErr, held, g.left)
    case Gone => Answer(Failed, held, g.left)
  }

  /** Chunks that are all there at once. */
  predicate Eager(plan: seq<Chunk>) {
    forall i | 0 <= i < |plan| :: plan[i].Ready? && plan[i].n > 0
  }

  /** What the head of a packet says, once it is buffered. */
  lemma PacketJudged(held: seq<Byte>, high: Byte, low: Byte)
    requires held != [] && held[0] == DOLLAR && (|held| > 2 ==> held[2] == high) && (|held| > 3 ==> held[3] == low)
    ensures Judge(held) == if PacketLen(high, low) <= |held| then Packet(PacketLen(high, low)) else Incomplete
  {
  }

  /** Chunks of a live peer: bytes, or a pause. */
  predicate Live(plan: seq<Chunk>) {
    forall i | 0 <= i < |plan| :: plan[i].NotYet? || (plan[i].Ready? && plan[i].n > 0)
  }

  /** Before its first pause, the plan brings the bytes needed and then more. */
  predicate Overfills(plan: seq<Chunk>, need: nat) {
    plan != [] && plan[0].Ready? && (need == 0 || Overfills(plan[1..], need - Min(plan[0].n, need)))
  }

  /** Before its first pause, the plan brings the bytes needed. */
  predicate Brings(plan: seq<Chunk>, need: int) {
    need <= 0 || (plan != [] && plan[0].Ready? && Brings(plan[1..], need - plan[0].n))
  }

  /** The bytes start with a packet that does not fit the buffer. */
  predicate TooLong(size: nat, all: seq<Byte>)
    requires |all| >= 4
  {
    all[0] == DOLLAR && PacketLen(all[2], all[3]) > size - 1
  }

  /** Bytes that ReadRequest goes on reading behind. */
  predicate Unsettled(size: nat, held: seq<Byte>) {
    Judge(held) == Incomplete && (held != [] && |held| == size - 1 ==> held[0] == DOLLAR)
  }

  /** At the head of such a packet there is nothing to give out. */
  lemma TooLongStays(size: nat, held: seq<Byte>, all: seq<Byte>)
    requires |held| < size && |all| >= 4 && held <= all
    ensures TooLong(size, all) ==> Unsettled(size, held)
    ensures all[0] == DOLLAR ==> (Unsettled(size, held) <==> PacketLen(all[2], all[3]) > |held|)
    ensures all[0] == DOLLAR && !Unsettled(size, held) ==> Judge(held) != Incomplete
    ensures Unsettled(size, held) && |held| == size - 1 >= 4 ==> TooLong(size, all)
  {
    if held != [] && all[0] == DOLLAR {
      PacketJudged(held, all[2], all[3]);
    }
  }

  /** One read of a live peer that has more to send than is asked for. */
  lemma LiveRead(w: Wire, len: nat, k: int)
    requires w.connected && Live(w.plan) && |w.stream| > len
    ensures var g := ReadWire(w, len);
            match g.status
            case Ok => && g.left.connected && Live(g.left.plan) && |g.left.stream| > len - g.n
                       && (Overfills(w.plan, len) <==> Overfills(g.left.plan, len - g.n))
                       && (k <= len ==> (Brings(w.plan, k) <==> Brings(g.left.plan, k - g.n)))
            case Again => !Overfills(w.plan, len) && (Brings(w.plan, k) ==> k <= 0)
            case Gone => len == 0 && Overfills(w.plan, len) && g.left.stream == w.stream
  {
  }

  /** With n bytes held, the stream takes the peer for gone exactly when its bytes
      start with a packet that does not fit the buffer and more follow without a
      pause.  A packet that fits arrives exactly when it is there before the first
      pause. */
  ghost predicate AnswersRight(size: nat, all: seq<Byte>, plan: seq<Chunk>, n: nat, r: Answer)
    requires |all| >= 4 && n < size
  {
    && (r.result == Failed <==> TooLong(size, all) && Overfills(plan, size - 1 - n))
    && (r.result == Failed ==> |r.bytes| == size - 1 && r.left.stream != [])
    && (all[0] == DOLLAR && !TooLong(size, all) ==>
          (r.result == Arrived <==> Brings(plan, PacketLen(all[2], all[3]) - n)))
  }

  /** An open call over the bytes of a live peer that suffice to fill the buffer. */
  ghost predicate Serving(size: nat, held: seq<Byte>, w: Wire) {
    && size >= 5 && |held| < size && Unsettled(size, held)
    && w.connected && Live(w.plan) && |held + w.stream| >= size
  }

  /** Such a call that stops at its next read. */
  lemma ServeStops(size: nat, held: seq<Byte>, w: Wire)
    requires Serving(size, held, w) && ReadWire(w, size - 1 - |held|).status != Ok
    ensures AnswersRight(size, held + w.stream, w.plan, |held|, Await(size, held, w))
  {
    var all := held + w.stream;
    AwaitReads(size, held, w);
    LiveRead(w, size - 1 - |held|, PacketLen(all[2], all[3]) - |held|);
    TooLongStays(size, held, all);
  }

  lemma SettleEnds(size: nat, held: seq<Byte>, w: Wire)
    requires |held| < size && !Unsettled(size, held)
    ensures Settle(size, held, w).result == if Judge(held) != Incomplete then Arrived else TooBig
  {
  }

  /** Such a call that gives something out after its next read. */
  lemma ServeSettles(size: nat, held: seq<Byte>, w: Wire)
    requires Serving(size, held, w)
    requires var g := ReadWire(w, size - 1 - |held|);
             g.status == Ok && !Unsettled(size, held + w.stream[..g.n])
    ensures AnswersRight(size, held + w.stream, w.plan, |held|, Await(size, held, w))
  {
    var all, g := held + w.stream, ReadWire(w, size - 1 - |held|);
    var more, len := held + w.stream[..g.n], PacketLen(all[2], all[3]);
    AwaitReads(size, held, w);
    LiveMoves(size, held, w, len);
    SettleEnds(size, more, g.left);
    TooLongStays(size, more, all);
  }

  lemma SettleWaits(size: nat, held: seq<Byte>, w: Wire)
    requires |held| < size && Unsettled(size, held)
    ensures Settle(size, held, w) == Await(size, held, w)
  {
  }

  /** The bytes of one read go behind those held. */
  lemma LiveMoves(size: nat, held: seq<Byte>, w: Wire, len: nat)
    requires |held| < size && w.connected && Live(w.plan) && |held + w.stream| >= size
    requires ReadWire(w, size - 1 - |held|).status == Ok
    ensures var g := ReadWire(w, size - 1 - |held|);
            var more := held + w.stream[..g.n];
            && |held| < |more| < size && more + g.left.stream == held + w.stream
            && g.left.connected && Live(g.left.plan)
            && (Overfills(w.plan, size - 1 - |held|) <==> Overfills(g.left.plan, size - 1 - |more|))
            && (len < size ==> (Brings(w.plan, len - |held|) <==> Brings(g.left.plan, len - |more|)))
  {
    LiveRead(w, size - 1 - |held|, len - |held|);
  }

  /** Such a call that goes on. */
  lemma ServeGoesOn(size: nat, held: seq<Byte>, w: Wire)
    requires Serving(size, held, w)
    requires var g := ReadWire(w, size - 1 - |held|);
             g.status == Ok && Unsettled(size, held + w.stream[..g.n])
    ensures var g := ReadWire(w, size - 1 - |held|);
            var more := held + w.stream[..g.n];
            Serving(size, more, g.left) && Await(size, held, w) == Await(size, more, g.left)
  {
    var g := ReadWire(w, size - 1 - |held|);
    AwaitReads(size, held, w);
    LiveMoves(size, held, w, 0);
    SettleWaits(size, held + w.stream[..g.n], g.left);
  }

  /** So over every arrival of a live peer's bytes, pauses and all. */
  lemma {:induction false} AwaitAnswersExactly(size: nat, held: seq<Byte>, w: Wire)
    requires Serving(size, held, w)
    ensures AnswersRight(size, held + w.stream, w.plan, |held|, Await(size, held, w))
    decreases |w.plan|
  {
    var g := ReadWire(w, size - 1 - |held|);
    var more := held + w.stream[..g.n];
    if g.status != Ok {
      ServeStops(size, held, w);
    } else if Unsettled(size, more) {
      LiveMoves(size, held, w, PacketLen((held + w.stream)[2], (held + w.stream)[3]));
      ServeGoesOn(size, held, w);
      AwaitAnswersExactly(size, more, g.left);
    } else {
      ServeSettles(size, held, w);
    }
  }

  /** A call at the head of a packet that fits the buffer, before the packet is there. */
  ghost predicate Coming(size: nat, held: seq<Byte>, w: Wire, channel: Byte, payload: seq<Byte>) {
    && |held| < |payload| + 4 < size && |payload| < 0x1_0000
    && PacketOf(channel, payload) <= held + w.stream && w.connected && Live(w.plan)
  }

  /** One round of such a call. */
  lemma ComesOn(size: nat, held: seq<Byte>, w: Wire, channel: Byte, payload: seq<Byte>)
    requires Coming(size, held, w, channel, payload)
    ensures var g, need := ReadWire(w, size - 1 - |held|), |payload| + 4 - |held|;
            var more := held + w.stream[..g.n];
            if g.status != Ok then !Brings(w.plan, need)
            else (if |more| < |payload| + 4 then Coming(size, more, g.left, channel, payload)
                                                 && (Brings(w.plan, need) <==> Brings(g.left.plan, need - g.n))
                  else Brings(w.plan, need))
                 && |g.left.plan| < |w.plan| && |held| < |more| < size && more + g.left.stream == held + w.stream
  {
  }

  lemma PacketSettles(size: nat, held: seq<Byte>, all: seq<Byte>, channel: Byte, payload: seq<Byte>, w: Wire)
    requires |held| < size && |payload| < 0x1_0000 && PacketOf(channel, payload) <= all && held <= all
    ensures if |held| < |payload| + 4 then Unsettled(size, held) && Settle(size, held, w) == Await(size, held, w)
            else Settle(size, held, w).result == Arrived
  {
    assert all[..|held|] == held;
    PacketExact(channel, payload, all, |held|);
    assert held != [] ==> held[0] == DOLLAR;
  }

  /** A packet that fits the buffer, followed by anything: the call ends with it exactly
      if all of it comes before the first pause. */
  lemma {:induction false} PacketArrivesExactly(size: nat, held: seq<Byte>, w: Wire, channel: Byte, payload: seq<Byte>)
    requires Coming(size, held, w, channel, payload)
    ensures Await(size, held, w).result == Arrived <==> Brings(w.plan, |payload| + 4 - |held|)
    decreases |w.plan|
  {
    var all, g := held + w.stream, ReadWire(w, size - 1 - |held|);
    AwaitReads(size, held, w);
    ComesOn(size, held, w, channel, payload);
    if g.status == Ok {
      var more := held + w.stream[..g.n];
      assert more <= all;
      PacketSettles(size, more, all, channel, payload, g.left);
      if |more| < |payload| + 4 {
        PacketArrivesExactly(size, more, g.left, channel, payload);
      }
    }
  }

  /** The same for a whole call. */
  lemma PacketRequested(size: nat, have: bool, held: seq<Byte>, w: Wire, channel: Byte, payload: seq<Byte>)
    requires |held| < size && |payload| + 4 < size && |payload| < 0x1_0000 && (!have ==> Unsettled(size, held))
    requires PacketOf(channel, payload) <= held + w.stream && w.connected && Live(w.plan)
    ensures Request(size, have, held, w).result == Arrived <==> Brings(w.plan, |payload| + 4 - |held|)
  {
    var all := held + w.stream;
    PacketSettles(size, held, all, channel, payload, w);
    if |held| < |payload| + 4 {
      PacketArrivesExactly(size, held, w, channel, payload);
    }
  }

  /** What such a call gives out is the packet. */
  lemma PacketIsHead(all: seq<Byte>, head: seq<Byte>, held: seq<Byte>, channel: Byte, payload: seq<Byte>)
    requires |payload| < 0x1_0000 && PacketOf(channel, payload) <= all && head + held <= all
    requires Judge(head + held) == Packet(|head|) || Judge(head + held) == Header(|head|)
    ensures Judge(head + held) == Packet(|head|) && head == PacketOf(channel, payload) && head[4..] == payload
  {
    var n := |head + held|;
    assert all[..n] == head + held;
    PacketExact(channel, payload, all, n);
    assert head == all[..|head|];
  }

  lemma {:induction false} EagerBrings(plan: seq<Chunk>, need: nat)
    requires Eager(plan) && |plan| >= need
    ensures Live(plan) && Brings(plan, need) && (|plan| > need ==> Overfills(plan, need))
  {
    if need > 0 {
      EagerBrings(plan[1..], need - Min(plan[0].n, need));
      BringsLess(plan[1..], need - Min(plan[0].n, need), need - plan[0].n);
    }
  }

  lemma BringsLess(plan: seq<Chunk>, need: int, less: int)
    requires Brings(plan, need) && less <= need
    ensures Brings(plan, less)
  {
  }

  /** The case of an interleaved packet that comes without pause: if its announced
      length does not fit the buffer, the stream ends up asking for no bytes and takes
      that for the end of the connection; if it fits, it arrives. */
  lemma PacketDropsPeerExactly(size: nat, held: seq<Byte>, w: Wire)
    requires Serving(size, held, w) && Eager(w.plan) && |w.plan| >= size - |held|
    requires (held + w.stream)[0] == DOLLAR
    ensures var r := Await(size, held, w);
            if TooLong(size, held + w.stream)
            then r.result == Failed && !r.left.connected && r.left.stream != [] && |r.bytes| == size - 1
            else r.result == Arrived && Judge(r.bytes) == Packet(PacketLen((held + w.stream)[2], (held + w.stream)[3]))
  {
    var r, len := Await(size, held, w), PacketLen((held + w.stream)[2], (held + w.stream)[3]);
    AwaitJudges(size, held, w);
    AwaitDraws(size, held, w);
    assert r.bytes <= held + w.stream;
    AwaitAnswersExactly(size, held, w);
    EagerBrings(w.plan, size - 1 - |held|);
    if len < size {
      BringsLess(w.plan, size - 1 - |held|, len - |held|);
      PacketJudged(r.bytes, (held + w.stream)[2], (held + w.stream)[3]);
    }
  }

  /** A call of ReadRequest, with or without a message at hand. */
  function Request(size: nat, have: bool, held: seq<Byte>, w: Wire): (r: Answer)
    requires |held| < size
  {
    if have && held != [] then Settle(size, held, w) else Await(size, held, w)
  }

  function Stopped(r: SockStatus, held: seq<Byte>, w: Wire): (a: Answer) {
    Answer(if r == Again then NoErr else Failed, held, w)
  }

  lemma AwaitReads(size: nat, held: seq<Byte>, w: Wire)
    requires |held| < size
    ensures var g := ReadWire(w, size - 1 - |held|);
            var more := held + w.stream[..g.n];
            && Await(size, held, w)
               == (if g.status == Ok then Settle(size, more, g.left) else Stopped(g.status, more, g.left))
            && (if g.status == Ok then |more| > |held| else more == held)
  {
    var g := ReadWire(w, size - 1 - |held|);
    assert g.n == 0 ==> held + w.stream[..g.n] == held;
  }

  /** A call moves bytes from the wire to the buffer, in order. */
  lemma {:induction false} SettleDraws(size: nat, held: seq<Byte>, w: Wire)
    requires |held| < size
    ensures var r := Settle(size, held, w); held <= r.bytes && r.bytes + r.left.stream == held + w.stream
    decreases |w.plan|, 1
  {
    AwaitDraws(size, held, w);
  }

  lemma {:induction false} AwaitDraws(size: nat, held: seq<Byte>, w: Wire)
    requires |held| < size
    ensures var r := Await(size, held, w); held <= r.bytes && r.bytes + r.left.stream == held + w.stream
    decreases |w.plan|, 0
  {
    var g := ReadWire(w, size - 1 - |held|);
    if g.status == Ok {
      var more := held + w.stream[..g.n];
      assert more + g.left.stream == held + w.stream;
      SettleDraws(size, more, g.left);
    }
  }

  /** What the result says about the bytes buffered then. */
  ghost predicate Judged(size: nat, r: Answer) {
    match r.result
    case Arrived => Judge(r.bytes) != Incomplete
    case TooBig => |r.bytes| == size - 1 && Judge(r.bytes) == Incomplete && r.bytes != [] && r.bytes[0] != DOLLAR
    case NoErr => Judge(r.bytes) == Incomplete && r.left.connected
    case Failed => Judge(r.bytes) == Incomplete && !r.left.connected
  }

  lemma {:induction false} SettleJudges(size: nat, held: seq<Byte>, w: Wire)
    requires |held| < size
    ensures Judged(size, Settle(size, held, w))
    decreases |w.plan|, 1
  {
    if Judge(held) == Incomplete {
      AwaitJudges(size, held, w);
    }
  }

  lemma {:induction false} AwaitJudges(size: nat, held: seq<Byte>, w: Wire)
    requires |held| < size && Judge(held) == Incomplete
    ensures Judged(size, Await(size, held, w))
    decreases |w.plan|, 0
  {
    var g := ReadWire(w, size - 1 - |held|);
    if g.status == Ok {
      SettleJudges(size, held + w.stream[..g.n], g.left);
    }
  }

  /** A call of ReadRequest over a live peer's bytes. */
  lemma RequestAnswersExactly(size: nat, have: bool, held: seq<Byte>, w: Wire)
    requires size >= 5 && |held| < size && (!have ==> Unsettled(size, held))
    requires w.connected && Live(w.plan) && |held + w.stream| >= size
    ensures AnswersRight(size, held + w.stream, w.plan, |held|, Request(size, have, held, w))
  {
    TooLongStays(size, held, held + w.stream);
    if Unsettled(size, held) {
      AwaitAnswersExactly(size, held, w);
    }
  }

  lemma RequestSound(size: nat, have: bool, held: seq<Byte>, w: Wire)
    requires |held| < size && (!have ==> Judge(held) == Incomplete)
    ensures var r := Request(size, have, held, w);
            Judged(size, r) && held <= r.bytes && r.bytes + r.left.stream == held + w.stream
  {
    if have && held != [] {
      SettleJudges(size, held, w);
      SettleDraws(size, held, w);
    } else {
      AwaitJudges(size, held, w);
      AwaitDraws(size, held, w);
    }
  }

  // ------------------------------------------------------------------ the class

  lemma Regroup(a: seq<Byte>, b: seq<Byte>, n: nat)
    requires n <= |b|
    ensures a + b == (a + b[..n]) + b[n..] && b == b[..n] + b[n..]
  {
  }

  lemma Pieces(b: seq<Byte>, at: nat, n: nat, cur: nat)
    requires at + n <= cur <= |b|
    ensures b[at..cur] == b[at..at + n] + b[at + n..cur] && b[at..cur][n..] == b[at + n..cur]
  {
  }

  /** Bytes have moved from the stream to the received ones, in order. */
  ghost predicate Drawn(received: seq<Byte>, stream: seq<Byte>, receivedNow: seq<Byte>, streamNow: seq<Byte>) {
    received <= receivedNow && receivedNow + streamNow == received + stream
  }

  lemma DrawnTwice(a: seq<Byte>, b: seq<Byte>, c: seq<Byte>, x: seq<Byte>, y: seq<Byte>, z: seq<Byte>)
    requires Drawn(a, x, b, y) && Drawn(b, y, c, z)
    ensures Drawn(a, x, c, z)
  {
  }

  /** What ReadRequest received are the bytes that left the wire, in order. */
  lemma RequestDraws(size: nat, have: bool, held: seq<Byte>, w: Wire, handed: seq<Byte>, head: seq<Byte>,
                     heldNow: seq<Byte>)
    requires |held| < size && (!have ==> Judge(held) == Incomplete)
    requires Request(size, have, held, w).bytes == head + heldNow
    ensures Drawn(handed + held, w.stream, handed + head + heldNow, Request(size, have, held, w).left.stream)
  {
    RequestSound(size, have, held, w);
    var streamNow := Request(size, have, held, w).left.stream;
    Append(handed, head, heldNow);
    Append(handed, held, w.stream);
    Append(handed, head + heldNow, streamNow);
  }

  /** What a body read of len bytes that gave out has done. */
  ghost predicate Passed(len: nat, r: SockStatus, out: seq<Byte>, received: seq<Byte>, handed: seq<Byte>,
                         stream: seq<Byte>,
                         receivedNow: seq<Byte>, handedNow: seq<Byte>, now: Wire)
  {
    && |out| <= len && handedNow == handed + out && Drawn(received, stream, receivedNow, now.stream)
    && if |out| == len then r == Ok else (r == Ok <==> |receivedNow| > |received|) && (r == Gone <==> !now.connected)
  }

  lemma PassedOn(len: nat, r: SockStatus, served: seq<Byte>, bytes: seq<Byte>, received: seq<Byte>,
                 handed: seq<Byte>, now: Wire)
    requires |served + bytes| <= len && |served| < len && (r == Ok <==> bytes != []) && (r == Gone <==> !now.connected)
    ensures Passed(len, r, served + bytes, received, handed, bytes + now.stream,
                   received + bytes, handed + served + bytes, now)
  {
    Append(received, bytes, now.stream);
    Append(handed, served, bytes);
  }

  class RequestStream {
    const size: nat                        // kRequestBufferSizeInBytes
    const sock: Socket
    const buf: array<Byte>                 // fRequestBuffer
    var cur: nat                           // fCurOffset
    var reqLen: nat                        // fRequest.Len
    var retreat: nat                       // fRetreatBytes
    var retreatRead: nat                   // fRetreatBytesRead
    var have: bool                         // fRequestPtr is set
    var isPacket: bool                     // fIsDataPacket
    ghost var head: seq<Byte>              // the message at hand, if any
    ghost var held: seq<Byte>              // the bytes buffered behind it
    ghost var received: seq<Byte>          // all the socket gave
    ghost var handed: seq<Byte>            // messages and body bytes given out

    /** The buffer shows the message and the bytes behind it. */
    ghost predicate Shown()
      reads this`cur, this`reqLen, this`retreat, this`retreatRead, this`have, this`head, this`held, buf
    {
      && buf.Length == size >= 2 && cur <= size - 1
      && if have then reqLen > 0 && reqLen + retreatRead + retreat == cur
                      && buf[..reqLen] == head && buf[reqLen + retreatRead..cur] == held
         else reqLen == cur && retreat == retreatRead == 0 && buf[..cur] == held && head == []
    }

    /** No whole message waits unreported in the buffer. */
    ghost predicate Quiescent()
      reads this`cur, this`reqLen, this`retreat, this`retreatRead, this`have, this`head, this`held, buf
    {
      Shown() && (!have ==> Unsettled(size, held))
    }

    /** Nothing lost, doubled or reordered, either. */
    ghost predicate Valid()
      reads this, buf
    {
      Quiescent() && received == handed + held
    }

    constructor (size: nat, sock: Socket)
      requires size >= 2
      ensures Valid() && !have && received == handed == held == [] && this.sock == sock && this.size == size
      ensures fresh(buf)
    {
      this.size, this.sock := size, sock;
      buf := new Byte[size](_ => 0);
      cur, reqLen, retreat, retreatRead := 0, 0, 0, 0;
      have, isPacket := false, false;
      head, held, received, handed := [], [], [], [];
    }

    /** The move of the retreated bytes to the start of the buffer. */
    method StartNext()
      requires Shown() && have
      modifies this`have, this`cur, this`reqLen, this`retreat, this`retreatRead, this`head, buf
      ensures Shown() && !have && cur == |held|
    {
      var from, n := reqLen + retreatRead, retreat;
      have := false;
      if n > 0 && reqLen > 0 {
        forall i | 0 <= i < n {
          buf[i] := buf[from + i];
        }
      }
      cur := n;
      reqLen, retreat, retreatRead := n, 0, 0;
      head := [];
      assert buf[..cur] == held;
    }

    /** The read from the socket behind the bytes buffered. */
    method Fill() returns (r: SockStatus)
      requires Shown() && !have
      modifies this`cur, this`reqLen, this`held, buf, sock
      ensures Shown()
      ensures var g := ReadWire(old(sock.Now()), size - 1 - |old(held)|);
              r == g.status && sock.Now() == g.left && held == old(held) + old(sock.stream)[..g.n]
    {
      var bytes;
      r, bytes := sock.Read(size - cur - 1);
      assert bytes == old(sock.stream)[..|bytes|];
      forall i | 0 <= i < |bytes| {
        buf[cur + i] := bytes[i];
      }
      cur, reqLen := cur + |bytes|, reqLen + |bytes|;
      held := held + bytes;
      assert buf[..cur] == held;
    }

    /** What the buffered bytes amount to. */
    method Examine() returns (v: Verdict)
      requires Shown() && !have && cur > 0
      ensures v == Judge(held)
    {
      v := Incomplete;
      if buf[0] == DOLLAR {
        if reqLen >= 4 && PacketLen(buf[2], buf[3]) <= reqLen {
          v := Packet(PacketLen(buf[2], buf[3]));
        }
      } else {
        var scan := FindHeaderEnd(buf[..reqLen]);
        if scan.Ends? {
          v := Header(scan.at);
        }
      }
    }

    /** The first n bytes become the message; the rest is put back. */
    method Expose(n: nat)
      requires Shown() && !have && 0 < n <= cur
      modifies this`have, this`reqLen, this`retreat, this`head, this`held
      ensures Shown() && have && head == old(held)[..n] && held == old(held)[n..]
    {
      retreat := retreat + (reqLen - n);
      reqLen := n;
      have := true;
      head, held := held[..n], held[n..];
      assert buf[..n] == head && buf[n..cur] == held;
    }

    /** The first half of a round of ReadRequest: drop the last message and, if
        nothing is left then, read the socket. */
    method NextBytes() returns (r: SockStatus)
      requires Quiescent()
      modifies this`have, this`cur, this`reqLen, this`retreat, this`retreatRead, this`head, this`held, buf, sock
      ensures Shown() && !have
      ensures r == Ok ==> held != [] && (old(have) || |held| > |old(held)|)
      ensures r != Ok ==> held == old(held) && Unsettled(size, held)
      ensures Request(size, old(have), old(held), old(sock.Now()))
           == if r == Ok then Settle(size, held, sock.Now()) else Stopped(r, held, sock.Now())
    {
      ghost var goal, w := Request(size, have, held, sock.Now()), sock.Now();
      var newOffset := 0;
      if have {
        StartNext();
        newOffset := cur;
      }
      r := Ok;
      if newOffset == 0 {
        r := ReadFirst(goal);
      } else {
        assert sock.Now() == w;
      }
    }

    /** The read of a call that has nothing to examine yet. */
    method ReadFirst(ghost goal: Answer) returns (r: SockStatus)
      requires Shown() && !have && goal == Await(size, held, sock.Now())
      modifies this`cur, this`reqLen, this`held, buf, sock
      ensures Shown() && (if r == Ok then |held| > |old(held)| else held == old(held))
      ensures goal == if r == Ok then Settle(size, held, sock.Now()) else Stopped(r, held, sock.Now())
    {
      AwaitReads(size, held, sock.Now());
      r := Fill();
    }

    /** The second half: give the message out, if there is one. */
    method Decide() returns (r: Result)
      requires Shown() && !have && cur > 0
      modifies this`have, this`reqLen, this`retreat, this`isPacket, this`head, this`held
      ensures Shown() && old(held) == head + held && (have <==> r != NoErr) && r != Failed
      ensures if have then Answer(r, old(held), sock.Now()) == Settle(size, old(held), sock.Now())
              else && held == old(held) && Unsettled(size, held)
                   && Settle(size, held, sock.Now()) == Await(size, held, sock.Now())
      ensures r == Arrived ==> Judge(old(held)) == if isPacket then Packet(|head|) else Header(|head|)
      ensures r == TooBig ==> held == []
    {
      var v := Examine();
      isPacket := buf[0] == DOLLAR;
      assert held[0] == buf[0];
      r := NoErr;
      if !v.Incomplete? {
        Regroup([], held, v.len);
        Expose(v.len);
        r := Arrived;
      } else if !isPacket && cur == size - 1 {
        Regroup([], held, cur);
        Expose(cur);
        r := TooBig;
      }
    }

    /** The call has ended with result r. */
    ghost predicate Done(r: Result, goal: Answer)
      reads this`cur, this`reqLen, this`retreat, this`retreatRead, this`have, this`head, this`held, this`isPacket,
            buf, sock
    {
      && Quiescent() && Answer(r, head + held, sock.Now()) == goal && (have <==> r == Arrived || r == TooBig)
      && (r == Arrived ==> Judge(head + held) == if isPacket then Packet(|head|) else Header(|head|))
      && (r == TooBig ==> held == [])
    }

    method Round(ghost goal: Answer) returns (done: bool, r: Result)
      requires Quiescent() && goal == Request(size, have, held, sock.Now())
      modifies this`have, this`cur, this`reqLen, this`retreat, this`retreatRead, this`isPacket, this`head, this`held,
               buf, sock
      ensures done ==> Done(r, goal)
      ensures !done ==> Quiescent() && !have && goal == Request(size, have, held, sock.Now())
      ensures !done ==> old(have) || |held| > |old(held)|
    {
      var status := NextBytes();
      if status != Ok {
        assert head + held == held;
        return true, if status == Again then NoErr else Failed;
      }
      r := Decide();
      done := r != NoErr;
    }

    /** The rounds of ReadRequest, up to the handing out.  Every round but the first
        takes bytes, so the loop ends. */
    method Rounds() returns (r: Result)
      requires Quiescent()
      modifies this`have, this`cur, this`reqLen, this`retreat, this`retreatRead, this`isPacket, this`head, this`held,
               buf, sock
      ensures Done(r, Request(size, old(have), old(held), old(sock.Now())))
    {
      ghost var goal := Request(size, have, held, sock.Now());
      var done := false;
      r := NoErr;
      while !done
        invariant if done then Done(r, goal) else Quiescent() && goal == Request(size, have, held, sock.Now())
        decreases !done, have, size - |held|
      {
        done, r := Round(goal);
      }
    }

    /** ReadRequest: result, bytes buffered and bytes left on the wire are those of
        Request.  The message is the prefix of them that Judge finds, or all of a
        full buffer; otherwise they all stay held. */
    method ReadRequest() returns (r: Result)
      requires Valid()
      modifies this`have, this`cur, this`reqLen, this`retreat, this`retreatRead, this`isPacket, this`head, this`held,
               this`received, this`handed, buf, sock
      ensures Done(r, Request(size, old(have), old(held), old(sock.Now())))
      ensures handed == old(handed) + head && received == handed + held
    {
      r := Rounds();
      handed := handed + head;
      received := handed + held;
    }

    /** SnarfRetreat of another stream whose buffer is to. */
    method SnarfInto(to: array<Byte>)
      requires Shown() && have && to != buf && to.Length == size
      modifies to
      ensures to[..retreat] == buf[reqLen..reqLen + retreat] && (retreatRead == 0 ==> to[..retreat] == held)
    {
      forall i | 0 <= i < retreat {
        to[i] := buf[reqLen + i];
      }
    }

    /** The part of Read that serves retreated bytes. */
    method TakeRetreat(len: nat) returns (out: seq<Byte>)
      requires Quiescent()
      modifies this`retreat, this`retreatRead, this`held
      ensures Quiescent() && |out| <= len && old(held) == out + held && (|out| < len ==> retreat == 0)
    {
      out := [];
      if retreat > 0 {
        var n := Min(retreat, len);
        var at := reqLen + retreatRead;
        out := buf[at..at + n];
        Pieces(buf[..], at, n, cur);
        retreat, retreatRead := retreat - n, retreatRead + n;
        held := held[n..];
      }
    }

    /** The part of Read that goes straight to the socket. */
    method PassOn(len: nat) returns (r: SockStatus, out: seq<Byte>)
      requires received == handed + held
      modifies this`received, this`handed, sock
      ensures handed == old(handed) + out && received == old(received) + out
      ensures |out| <= len && out + sock.stream == old(sock.stream)
      ensures (r == Ok <==> out != []) && (r == Gone <==> !sock.connected)
    {
      r, out := sock.Read(len);
      received, handed := received + out, handed + out;
    }

    /** Read: retreated bytes first, then the socket.  Bytes follow those handed out
        before; only when no message has arrived and bytes wait in the buffer does
        the read overtake them. */
    method Read(len: nat) returns (r: SockStatus, out: seq<Byte>)
      requires Valid()
      modifies this`retreat, this`retreatRead, this`held, this`received, this`handed, sock
      ensures Passed(len, r, out, old(received), old(handed), old(sock.stream), received, handed, sock.Now())
      ensures Quiescent() && (|out| < len && have ==> held == [])
      ensures have || cur == 0 ==> received == handed + held
      ensures !have && cur > 0 ==> held == old(held) && received == old(received) + out
    {
      out := TakeRetreat(len);
      Append(handed, out, held);
      r, out := ReadOn(len, out);
    }

    /** The rest of Read, after out was served from the buffer. */
    method ReadOn(len: nat, served: seq<Byte>) returns (r: SockStatus, out: seq<Byte>)
      requires |served| <= len && received == handed + served + held
      modifies this`received, this`handed, sock
      ensures Passed(len, r, out, old(received), old(handed), old(sock.stream), received, handed, sock.Now())
      ensures held == [] || |served| == len ==> received == handed + held
      ensures served == [] ==> received == old(received) + out
    {
      handed := handed + served;
      r, out := Ok, served;
      if |served| < len {
        var bytes;
        r, bytes := PassOn(len - |served|);
        out := served + bytes;
        PassedOn(len, r, served, bytes, old(received), old(handed), sock.Now());
      }
    }
  }

  // ---------------------------------------------- another stream's retreated bytes

  /** SnarfRetreat takes as many bytes as are held, from behind the message on; those
      are the bytes held, whatever the buffer has in it, exactly if no body read has
      taken any before. */
  lemma SnarfTakesHeldExactly(reqLen: nat, retreatRead: nat, retreat: nat)
    ensures (forall b: seq<Byte> | |b| == reqLen + retreatRead + retreat ::
               b[reqLen..reqLen + retreat] == b[reqLen + retreatRead..])
            <==> retreatRead == 0 || retreat == 0
  {
    if retreatRead > 0 && retreat > 0 {
      var last := reqLen + retreatRead + retreat - 1;
      var b: seq<Byte> := seq(last + 1, i => if i == last then 1 else 0);
      assert b[reqLen..reqLen + retreat][retreat - 1] == 0 && b[reqLen + retreatRead..][retreat - 1] == 1;
    } else if retreat == 0 {
      assert forall b: seq<Byte> | |b| == reqLen + retreatRead :: b[reqLen..reqLen] == b[reqLen + retreatRead..];
    }
  }

  // -------------------------------------------------------------- whole runs

  datatype Call = NextRequest | Body(len: nat)

  /** Any run of ReadRequest calls and of body reads made while a message is at
      hand, over any cutting of the stream: the messages and bodies given out,
      followed by the bytes held and those still to come, are the stream. */
  method Serve(s: RequestStream, calls: seq<Call>)
    requires s.Valid()
    modifies s, s.buf, s.sock
    ensures s.Valid() && s.received == s.handed + s.held
    ensures s.handed + s.held + s.sock.stream == old(s.received) + old(s.sock.stream)
  {
    for i := 0 to |calls|
      invariant s.Valid() && Drawn(old(s.received), old(s.sock.stream), s.received, s.sock.stream)
    {
      ghost var was, left := s.received, s.sock.stream;
      if calls[i] == NextRequest {
        ghost var have, held, w, handed := s.have, s.held, s.sock.Now(), s.handed;
        var r := s.ReadRequest();
        RequestDraws(s.size, have, held, w, handed, s.head, s.held);
      } else if s.have {
        var r, out := s.Read(calls[i].len);
      }
      DrawnTwice(old(s.received), was, s.received, old(s.sock.stream), left, s.sock.stream);
    }
  }

  /** What ReadRequest reports over a plain stream of which all is left: arrival
      exactly when a CRLFCRLF is buffered, with the shortest prefix that ends with
      one as the message. */
  ghost predicate Reported(all: seq<Byte>, head: seq<Byte>, held: seq<Byte>, rest: seq<Byte>, r: Result) {
    && all == head + held + rest
    && (r == Arrived <==> !NoneBefore(head + held, |head + held|))
    && (r == Arrived ==> Shortest(all, |head|))
  }

  lemma JudgedIsReported(all: seq<Byte>, head: seq<Byte>, held: seq<Byte>, rest: seq<Byte>, r: Result)
    requires PlainStream(all) && all == head + held + rest && (r == Arrived <==> Judge(head + held) != Incomplete)
    requires r == Arrived ==> Judge(head + held) == Packet(|head|) || Judge(head + held) == Header(|head|)
    ensures Reported(all, head, held, rest, r)
  {
    assert head + held == all[..|head + held|];
    JudgeExact(all, |head + held|);
  }

  /** ReadRequest over a plain stream, of which the bytes held and those to come
      are left when no message is at hand, however it is cut. */
  method PlainRequest(s: RequestStream) returns (r: Result)
    requires s.Valid() && !s.have && PlainStream(s.held + s.sock.stream)
    modifies s, s.buf, s.sock
    ensures s.Valid() && (s.have <==> r == Arrived || r == TooBig)
    ensures Reported(old(s.held) + old(s.sock.stream), s.head, s.held, s.sock.stream, r)
  {
    ghost var held, w := s.held, s.sock.Now();
    ghost var a := Request(s.size, false, held, w);
    RequestSound(s.size, false, held, w);
    r := s.ReadRequest();
    JudgedIsReported(held + w.stream, s.head, s.held, s.sock.stream, r);
  }

  /** ReadRequest over a live peer that has enough to fill the buffer, however its
      bytes arrive: the stream drops it, with bytes unread, exactly when they start
      with a packet that does not fit the buffer and more follow without a pause; a
      packet that fits is given out exactly when it is there before the first pause. */
  method LiveRequest(s: RequestStream) returns (r: Result)
    requires s.Valid() && s.size >= 5 && s.sock.connected && Live(s.sock.plan)
    requires |s.held + s.sock.stream| >= s.size
    modifies s, s.buf, s.sock
    ensures s.Valid()
    ensures var all := old(s.held) + old(s.sock.stream);
            && (r == Failed <==> TooLong(s.size, all) && Overfills(old(s.sock.plan), s.size - 1 - |old(s.held)|))
            && (all[0] == DOLLAR && !TooLong(s.size, all) ==>
                  (r == Arrived <==> Brings(old(s.sock.plan), PacketLen(all[2], all[3]) - |old(s.held)|)))
            && (all[0] == DOLLAR && r == Arrived ==> s.isPacket && |s.head| == PacketLen(all[2], all[3]))
    ensures if r == Failed then !s.sock.connected && s.sock.stream != [] && |s.held| == s.size - 1
            else r == NoErr ==> s.sock.connected
  {
    ghost var have, held, w := s.have, s.held, s.sock.Now();
    ghost var all := held + w.stream;
    RequestAnswersExactly(s.size, have, held, w);
    RequestSound(s.size, have, held, w);
    r := s.ReadRequest();
    assert r == Failed ==> s.head + s.held == s.held;
    assert s.head + s.held <= all;
    if all[0] == DOLLAR && r == Arrived {
      PacketJudged(s.head + s.held, all[2], all[3]);
    }
  }

  /** ReadRequest at the head of a packet that comes without pause. */
  method PacketRequest(s: RequestStream) returns (r: Result)
    requires s.Valid() && !s.have && s.held == [] && s.size >= 5 && s.sock.connected
    requires |s.sock.stream| >= s.size && s.sock.stream[0] == DOLLAR && Eager(s.sock.plan) && |s.sock.plan| >= s.size
    modifies s, s.buf, s.sock
    ensures var len := PacketLen(old(s.sock.stream)[2], old(s.sock.stream)[3]);
            if len > s.size - 1 then r == Failed && !s.sock.connected && s.sock.stream != []
            else r == Arrived && s.isPacket && |s.head| == len
  {
    ghost var plan, len := s.sock.plan, PacketLen(s.sock.stream[2], s.sock.stream[3]);
    assert s.held + s.sock.stream == s.sock.stream;
    EagerBrings(plan, s.size - 1);
    if len < s.size {
      BringsLess(plan, s.size - 1, len);
    }
    r := LiveRequest(s);
  }

  /** ReadRequest at the head of a packet that fits the buffer, followed by anything:
      exactly if all of it comes before the first pause it is given out, payload and
      all, and what follows stays in order. */
  method DeliverPacket(s: RequestStream, ghost channel: Byte, ghost payload: seq<Byte>) returns (r: Result)
    requires s.Valid() && s.sock.connected && Live(s.sock.plan) && |payload| < 0x1_0000 && |payload| + 4 < s.size
    requires PacketOf(channel, payload) <= s.held + s.sock.stream
    modifies s, s.buf, s.sock
    ensures s.Valid()
    ensures r == Arrived <==> Brings(old(s.sock.plan), |payload| + 4 - |old(s.held)|)
    ensures r == Arrived ==>
              && s.isPacket && s.head == PacketOf(channel, payload) && s.head[4..] == payload
              && s.head + (s.held + s.sock.stream) == old(s.held) + old(s.sock.stream)
  {
    ghost var have, held, w := s.have, s.held, s.sock.Now();
    PacketRequested(s.size, have, held, w, channel, payload);
    RequestSound(s.size, have, held, w);
    r := s.ReadRequest();
    if r == Arrived {
      Append(s.head, s.held, s.sock.stream);
      PacketIsHead(held + w.stream, s.head, s.held, channel, payload);
    }
  }
}
