/** HTTPResponseStream over its resizeable formatter: CFHttp/HTTPResponseStream.cpp,
    CFCore/StringFormatter.cpp and CFCore/ResizeableStringFormatter.cpp. */
module ResponseStreams {
  import opened Bytes

  /** What the socket answers: some bytes taken, flow control, or an error.  It
      never takes more than it is offered. */
  datatype Reply = Taken(n: nat) | WouldBlock | Broken

  datatype Status = NoErr | Again | Error

  datatype SendType = DontBuffer | AllOrNothing | AlwaysBuffer

  function TakenOf(reply: Reply, offered: nat): (n: nat)
    ensures n <= offered && (!reply.Taken? ==> n == 0)
  {
    if reply.Taken? then if reply.n < offered then reply.n else offered else 0
  }

  function StatusOf(reply: Reply): (r: Status) {
    match reply
    case Taken(_) => NoErr
    case WouldBlock => Again
    case Broken => Error
  }

  /** The bytes of a vector of buffers. */
  function Flat(vecs: seq<seq<Byte>>): (r: seq<Byte>) {
    if vecs == [] then [] else vecs[0] + Flat(vecs[1..])
  }

  lemma FlatFrom(vecs: seq<seq<Byte>>, i: nat)
    requires i < |vecs|
    ensures Flat(vecs[i..]) == vecs[i] + Flat(vecs[i + 1..])
  {
    assert vecs[i..][1..] == vecs[i + 1..];
  }

  lemma DropInto(a: seq<Byte>, b: seq<Byte>, n: nat)
    requires n <= |a| + |b|
    ensures n >= |a| ==> (a + b)[n..] == b[n - |a|..]
    ensures n <= |a| ==> (a + b)[n..] == a[n..] + b
  {
  }

  lemma Halves(a: seq<Byte>, n: nat)
    requires n <= |a|
    ensures a[..n] + a[n..] == a
  {
  }

  ghost predicate Remains(all: seq<Byte>, done: seq<Byte>, rest: seq<Byte>) {
    done + rest == all
  }

  lemma RemainsMore(all: seq<Byte>, done: seq<Byte>, rest: seq<Byte>, n: nat)
    requires Remains(all, done, rest) && n <= |rest|
    ensures Remains(all, done + rest[..n], rest[n..])
  {
    Halves(rest, n);
  }

  /** What the wire shows and what is still held make up what was accepted. */
  ghost predicate Conserved(wire: seq<Byte>, held: seq<Byte>, sent: nat, accepted: seq<Byte>) {
    sent <= |held| && wire + held[sent..] == accepted
  }

  lemma AppendConserves(wire: seq<Byte>, held: seq<Byte>, sent: nat, accepted: seq<Byte>, data: seq<Byte>)
    requires Conserved(wire, held, sent, accepted)
    ensures Conserved(wire, held + data, sent, accepted + data)
  {
    DropInto(held, data, sent);
  }

  /** The socket takes n bytes of the held ones followed by data. */
  lemma SendConserves(wire: seq<Byte>, held: seq<Byte>, sent: nat, accepted: seq<Byte>, data: seq<Byte>, n: nat)
    requires Conserved(wire, held, sent, accepted) && n <= |held| - sent + |data|
    ensures var now := wire + (held[sent..] + data)[..n]; var room := |held| - sent;
            if n >= room then Conserved(now, [], 0, accepted + data[..n - room])
            else Conserved(now, held, sent + n, accepted)
  {
    var tail := held[sent..];
    if n >= |tail| {
      assert (tail + data)[..n] == tail + data[..n - |tail|];
    } else {
      assert (tail + data)[..n] == tail[..n];
      Halves(tail, n);
      assert tail[n..] == held[sent + n..];
    }
  }

  lemma TwoParts(a: seq<Byte>, data: seq<Byte>, n: nat)
    requires n <= |data|
    ensures a + data[..n] + data[n..] == a + data[..|data|]
  {
  }

  /** The loop of WriteV that skips the vectors sent: the first one to buffer, and
      how much of it was sent. */
  method SkipSent(vecs: seq<seq<Byte>>, done: nat) returns (i: nat, skip: nat)
    requires done < |Flat(vecs)|
    ensures i < |vecs| && skip < |vecs[i]| && skip <= |Flat(vecs[i..])| && Flat(vecs)[done..] == Flat(vecs[i..])[skip..]
  {
    i, skip := 0, done;
    assert vecs[0..] == vecs;
    while skip >= |vecs[i]|
      invariant i < |vecs| && skip < |Flat(vecs[i..])| && Flat(vecs)[done..] == Flat(vecs[i..])[skip..]
      decreases |vecs| - i
    {
      FlatFrom(vecs, i);
      DropInto(vecs[i], Flat(vecs[i + 1..]), skip);
      skip := skip - |vecs[i]|;
      i := i + 1;
    }
  }

  class ResponseStream {
    var buf: array<Byte>                   // fStartPut .. fEndPut
    var cur: nat                           // fCurrentPut
    var sent: nat                          // fBytesSentInBuffer
    var written: nat                       // fBytesWritten
    ghost var held: seq<Byte>              // the bytes below cur
    ghost var wire: seq<Byte>              // what the socket has taken
    ghost var accepted: seq<Byte>          // what callers were told is sent

    ghost predicate Formed()
      reads this, buf
    {
      cur <= buf.Length && held == buf[..cur]
    }

    ghost predicate Valid()
      reads this, buf
    {
      Formed() && Conserved(wire, held, sent, accepted) && written == |accepted| && (sent == cur ==> cur == 0)
    }

    constructor (buf: array<Byte>)
      ensures Valid() && this.buf == buf && wire == [] && accepted == [] && held == []
    {
      this.buf := buf;
      cur, sent, written := 0, 0, 0;
      held, wire, accepted := [], [], [];
    }

    /** memcpy to the cursor. */
    method Copy(data: seq<Byte>)
      requires Formed() && cur + |data| <= buf.Length
      modifies this`cur, this`written, this`held, this`accepted, buf
      ensures Formed() && cur == old(cur) + |data| && written == old(written) + |data|
      ensures held == old(held) + data && accepted == old(accepted) + data
    {
      forall i | 0 <= i < |data| {
        buf[cur + i] := data[i];
      }
      cur, written := cur + |data|, written + |data|;
      held, accepted := held + data, accepted + data;
    }

    /** BufferIsFull: a buffer twice as big, or of 64 bytes, with the same bytes. */
    method BufferIsFull()
      requires Formed()
      modifies this`buf
      ensures Formed() && fresh(buf)
      ensures buf.Length == if old(buf.Length) == 0 then 64 else old(buf.Length) * 2
    {
      var size := buf.Length * 2;
      if size == 0 {
        size := 64;
      }
      var bigger := new Byte[size](i requires 0 <= i < size reads this, buf =>
        if i < cur && cur <= buf.Length then buf[i] else 0);
      assert bigger[..cur] == buf[..cur];
      buf := bigger;
    }

    /** One pass of the loop of Put: fills the buffer but for one byte, then has it
        grow. */
    method FillAndGrow(rest: seq<Byte>) returns (more: seq<Byte>)
      requires Formed() && (cur == buf.Length || buf.Length - cur - 1 < |rest|)
      modifies this`buf, this`cur, this`written, this`held, this`accepted, buf
      ensures |more| <= |rest| && |rest| - |more| == if old(cur == buf.Length) then 0 else old(buf.Length - cur) - 1
      ensures var n := |rest| - |more|;
              more == rest[n..] && held == old(held) + rest[..n] && accepted == old(accepted) + rest[..n]
      ensures cur + |more| == old(cur) + |rest| && written + |more| == old(written) + |rest|
      ensures Formed() && fresh(buf)
      ensures buf.Length - cur == if old(buf.Length) == 0 then 64
                                  else old(buf.Length) + (if old(cur == buf.Length) then 0 else 1)
    {
      more := rest;
      if cur < buf.Length {
        var n := buf.Length - cur - 1;
        Copy(rest[..n]);
        more := rest[n..];
      }
      BufferIsFull();
    }

    /** Put: all of data goes behind the bytes held, however often the buffer has
        to grow; the early exit for a buffer that did not grow is never taken. */
    method Put(data: seq<Byte>)
      requires Formed()
      modifies this`buf, this`cur, this`written, this`held, this`accepted, buf
      ensures Formed() && (buf == old(buf) || fresh(buf)) && cur == old(cur) + |data|
      ensures held == old(held) + data && accepted == old(accepted) + data && written == old(written) + |data|
    {
      if |data| == 1 && cur != buf.Length {
        Copy(data);
        return;
      }
      var rest, spaceLeft: nat := data, buf.Length - cur;
      ghost var allHeld, all := held + data, accepted + data;
      while spaceLeft == 0 || spaceLeft - 1 < |rest|
        invariant Formed() && (buf == old(buf) || fresh(buf)) && spaceLeft == buf.Length - cur
        invariant Remains(allHeld, held, rest) && Remains(all, accepted, rest)
        invariant cur + |rest| == old(cur) + |data| && written + |rest| == old(written) + |data|
        decreases |rest|, if spaceLeft < 2 then 2 - spaceLeft else 0
      {
        var n := if spaceLeft == 0 then 0 else spaceLeft - 1;
        RemainsMore(allHeld, held, rest, n);
        RemainsMore(all, accepted, rest, n);
        rest := FillAndGrow(rest);
        if spaceLeft == buf.Length - cur {
          assert false;
          return;
        }
        spaceLeft := buf.Length - cur;
      }
      Copy(rest);
    }

    /** One write of the unsent bytes and then data, of which n in all are taken. */
    method Sent(data: seq<Byte>, n: nat) returns (beyond: nat)
      requires Valid() && n <= cur - sent + |data|
      modifies this`cur, this`sent, this`held, this`wire, this`accepted, this`written
      ensures Valid() && beyond <= |data| && (beyond > 0 ==> cur == 0) && cur <= old(cur)
      ensures wire == old(wire) + (old(held)[old(sent)..] + data)[..n]
      ensures accepted == old(accepted) + data[..beyond]
      ensures beyond == if n >= old(cur - sent) then n - old(cur - sent) else 0
    {
      var amtInBuffer := cur - sent;
      SendConserves(wire, held, sent, accepted, data, n);
      wire := wire + (held[sent..] + data)[..n];
      if n >= amtInBuffer {
        cur, sent, held := 0, 0, [];
        beyond := n - amtInBuffer;
        written := written + beyond;
        accepted := accepted + data[..beyond];
      } else {
        sent := sent + n;
        beyond := 0;
      }
    }

    /** Flush: NoErr exactly when nothing is left in the buffer. */
    method Flush(reply: Reply) returns (r: Status)
      requires Valid()
      modifies this`cur, this`sent, this`held, this`wire, this`accepted, this`written
      ensures Valid() && accepted == old(accepted) && (r == NoErr <==> cur == 0) && r != Error
      ensures wire == old(wire) + old(held)[old(sent)..][..TakenOf(reply, old(cur - sent))]
    {
      var amtInBuffer := cur - sent;
      r := NoErr;
      if amtInBuffer > 0 {
        var n := TakenOf(reply, amtInBuffer);
        var _ := Sent([], n);
        if n != amtInBuffer {
          r := Again;
        }
      }
    }

    method PutAll(data: seq<Byte>)
      requires Valid()
      modifies this`buf, this`cur, this`written, this`held, this`accepted, buf
      ensures Valid() && (buf == old(buf) || fresh(buf)) && held == old(held) + data && accepted == old(accepted) + data
    {
      AppendConserves(wire, held, sent, accepted, data);
      Put(data);
    }

    /** The last loop of WriteV: buffers all but the first done bytes. */
    method BufferRest(vecs: seq<seq<Byte>>, done: nat)
      requires Valid() && done < |Flat(vecs)|
      modifies this`buf, this`cur, this`written, this`held, this`accepted, buf
      ensures Valid() && (buf == old(buf) || fresh(buf)) && accepted == old(accepted) + Flat(vecs)[done..]
    {
      var i: nat, skip: nat := SkipSent(vecs, done);
      ghost var all := accepted + Flat(vecs)[done..];
      while i < |vecs|
        invariant i <= |vecs| && Valid() && (buf == old(buf) || fresh(buf)) && (i < |vecs| ==> skip <= |vecs[i]|)
        invariant skip <= |Flat(vecs[i..])| && Remains(all, accepted, Flat(vecs[i..])[skip..])
      {
        FlatFrom(vecs, i);
        DropInto(vecs[i], Flat(vecs[i + 1..]), skip);
        PutAll(vecs[i][skip..]);
        skip := 0;
        i := i + 1;
      }
      assert Flat(vecs[i..]) == [];
    }

    /** WriteV: the first outLen bytes of the vectors are accepted, in order behind
        everything accepted before; how many depends on the send type. */
    method WriteV(vecs: seq<seq<Byte>>, total: nat, sendType: SendType, reply: Reply) returns (r: Status, outLen: nat)
      requires Valid() && total == |Flat(vecs)|
      modifies this`buf, this`cur, this`sent, this`written, this`held, this`wire, this`accepted, buf
      ensures Valid() && (buf == old(buf) || fresh(buf))
      ensures outLen <= total && accepted == old(accepted) + Flat(vecs)[..outLen]
      ensures wire == old(wire) + (old(held)[old(sent)..] + Flat(vecs))[..TakenOf(reply, old(cur - sent) + total)]
      ensures r == Error <==> reply == Broken && (old(cur - sent) > 0 || vecs != [])
      ensures r == Error ==> outLen == 0
      ensures sendType == AlwaysBuffer && r != Error ==> r == NoErr && outLen == total
      ensures sendType == AllOrNothing && r != Error ==> outLen == if r == NoErr then total else 0
      ensures sendType == AllOrNothing && r != Error && total > 0 ==>
                (r == Again <==> TakenOf(reply, old(cur - sent) + total) <= old(cur - sent))
      ensures sendType == DontBuffer ==> cur <= old(cur)
      ensures sendType == DontBuffer && r != Error && outLen < total ==> (r == Again <==> reply == WouldBlock)
      ensures outLen == total && r != Error ==> r == NoErr
    {
      var data := Flat(vecs);
      var calls := cur - sent > 0 || |vecs| > 0;
      var n := TakenOf(reply, cur - sent + total);
      r := if calls then StatusOf(reply) else NoErr;
      var lengthSent := Sent(data, n);
      assert reply == Broken ==> data[..lengthSent] == data[..0];
      if r == Error {
        return Error, 0;
      }
      outLen := lengthSent;
      if lengthSent == total {
        return NoErr, outLen;
      }
      if sendType == DontBuffer {
        return r, outLen;
      }
      if sendType == AllOrNothing && lengthSent == 0 {
        return Again, outLen;
      }
      outLen := total;
      TwoParts(old(accepted), data, lengthSent);
      BufferRest(vecs, lengthSent);
      r := NoErr;
    }
  }

  // -------------------------------------------------------------- whole runs

  datatype Call =
    | PutCall(data: seq<Byte>)
    | WriteCall(vecs: seq<seq<Byte>>, sendType: SendType, reply: Reply)
    | FlushCall(reply: Reply)

  /** The bytes that a call which got rid of n bytes takes for sent. */
  function Part(call: Call, n: nat): (r: seq<Byte>) {
    match call
    case PutCall(data) => data
    case WriteCall(vecs, _, _) => if n <= |Flat(vecs)| then Flat(vecs)[..n] else Flat(vecs)
    case FlushCall(_) => []
  }

  function Told(calls: seq<Call>, lens: seq<nat>): (r: seq<Byte>)
    requires |calls| == |lens|
    decreases |calls|
  {
    if calls == [] then []
    else
      var n := |calls| - 1;
      Told(calls[..n], lens[..n]) + Part(calls[n], lens[n])
  }

  method Apply(s: ResponseStream, call: Call) returns (n: nat)
    requires s.Valid()
    modifies s, s.buf
    ensures s.Valid() && (s.buf == old(s.buf) || fresh(s.buf)) && s.accepted == old(s.accepted) + Part(call, n)
  {
    n := 0;
    match call {
      case PutCall(data) =>
        s.PutAll(data);
      case WriteCall(vecs, sendType, reply) =>
        var r;
        r, n := s.WriteV(vecs, |Flat(vecs)|, sendType, reply);
      case FlushCall(reply) =>
        var r := s.Flush(reply);
    }
  }

  /** Over any calls and any socket answers, the wire followed by the unsent part
      of the buffer is what the callers take for sent; with an empty buffer the
      wire alone is. */
  method Serve(s: ResponseStream, calls: seq<Call>) returns (lens: seq<nat>)
    requires s.Valid()
    modifies s, s.buf
    ensures s.Valid() && |lens| == |calls|
    ensures s.wire + s.held[s.sent..] == old(s.accepted) + Told(calls, lens)
    ensures s.cur == 0 ==> s.wire == old(s.accepted) + Told(calls, lens)
  {
    lens := [];
    for i := 0 to |calls|
      invariant s.Valid() && |lens| == i && (s.buf == old(s.buf) || fresh(s.buf))
      invariant s.accepted == old(s.accepted) + Told(calls[..i], lens)
    {
      var n := Apply(s, calls[i]);
      assert calls[..i + 1][..i] == calls[..i] && (lens + [n])[..i] == lens;
      lens := lens + [n];
    }
    assert calls[..|calls|] == calls;
  }
}
