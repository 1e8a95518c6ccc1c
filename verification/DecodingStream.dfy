/** The buffers of HTTPRequestStream in base64 mode (CFHttp/HTTPRequestStream.cpp):
    encoded bytes in fRequestBuffer, decoded ones in the buffer fRequest points to,
    and the undecoded rest that is carried from one socket read to the next. */
module DecodingStreams {
  import opened Bytes
  import opened Sequences
  import opened Base64
  import opened StreamDecoder

  /** memmove of n bytes towards the front. */
  method MoveDown(a: array<Byte>, from: nat, to: nat, n: nat)
    requires to <= from && from + n <= a.Length
    modifies a
    ensures a[to..to + n] == old(a[from..from + n]) && (n == 0 ==> a[..] == old(a[..]))
  {
    forall i | 0 <= i < n {
      a[to + i] := a[from + i];
    }
  }

  /** The byte at the front of the decoded ones after n more bytes went to the
      decoder: a call that decodes nothing puts a terminator there. */
  function Front(held: seq<Byte>, n: nat, was: Byte): (b: Byte) {
    if held != [] then held[0] else if n >= 4 then NUL else was
  }

  lemma FrontIs(d: seq<Byte>, held: seq<Byte>, n: nat, was: seq<Byte>)
    requires |held| <= |d| == |was| && d != [] && d[..|held|] == held
    requires if n >= 4 then Ends(d, |held|) else d == was
    ensures d[0] == Front(held, n, was[0])
  {
  }

  class DecodingStream {
    const size: nat                        // kRequestBufferSizeInBytes
    const buf: array<Byte>                 // fRequestBuffer
    const dst: array<Byte>                 // what fRequest.Ptr points to
    var cur: nat                           // fCurOffset
    var rem: nat                           // fEncodedBytesRemaining
    var len: nat                           // the decoded bytes in dst
    ghost var gone: seq<Byte>              // decoded bytes that left dst
    ghost var held: seq<Byte>              // decoded bytes in dst
    ghost var carry: seq<Byte>             // encoded bytes not decoded yet

    /** The encoded buffer is always at least as far on as the decoded one. */
    ghost predicate Valid()
      reads this, buf, dst
    {
      && buf != dst && buf.Length == dst.Length == size && rem <= 3 && rem <= cur < size && len <= cur - rem
      && carry == buf[cur - rem..cur] && held == dst[..len]
    }

    /** All that was decoded, and the carried bytes. */
    ghost function Abstract(): (d: Decoder)
      reads this`gone, this`held, this`carry
    {
      Decoder(gone + held, carry)
    }

    constructor (size: nat)
      requires size > 0
      ensures Valid() && Abstract() == Decoder([], []) && this.size == size && fresh(buf) && fresh(dst) && cur == 0
    {
      this.size := size;
      buf := new Byte[size](_ => 0);
      dst := new Byte[size](_ => 0);
      cur, rem, len := 0, 0, 0;
      gone, held, carry := [], [], [];
    }

    /** The socket read: a fragment goes behind the bytes buffered. */
    method Store(f: seq<Byte>)
      requires Valid() && cur + |f| < size
      modifies buf
      ensures Valid() && buf[cur - rem..cur + |f|] == carry + f
    {
      forall i | 0 <= i < |f| {
        buf[cur + i] := f[i];
      }
      assert buf[cur - rem..cur] == carry;
    }

    /** One read in ReadRequest: the fragment is stored and the carried bytes and
        it are decoded. */
    method Receive(f: seq<Byte>) returns (ok: bool)
      requires Valid() && cur + |f| < size
      modifies this`cur, this`rem, this`len, this`held, this`carry, buf, dst
      ensures Valid() && cur == old(cur) + |f| && (ok <==> Clean(old(carry) + f))
      ensures Abstract() == Feed(old(Abstract()), f)
      ensures held == old(held) + GoodPlain(old(carry) + f) && carry == Rest(old(carry) + f)
      ensures dst[0] == Front(held, |old(carry) + f|, old(dst[0]))
    {
      ghost var more, left, clean := FeedIs(gone, held, carry, f);
      ghost var chunk, was := carry + f, dst[..];
      ok := Absorb(f, more, left, clean);
      FrontIs(dst[..], held, |chunk|, was);
    }

    /** The same, told what comes out. */
    method Absorb(f: seq<Byte>, ghost more: seq<Byte>, ghost left: seq<Byte>, ghost clean: bool) returns (ok: bool)
      requires Valid() && cur + |f| < size && DecodesTo(carry + f, more, left, clean)
      modifies this`cur, this`rem, this`len, this`held, this`carry, buf, dst
      ensures Valid() && cur == old(cur) + |f| && ok == clean && held == old(held) + more && carry == left
      ensures if |old(carry) + f| >= 4 then Ends(dst[..], len) else dst[..] == old(dst[..])
    {
      ghost var chunk := carry + f;
      Store(f);
      var newLen, rest;
      ok, newLen, rest := DecodeIncomingData(buf, cur - rem, rem + |f|, dst, len, cur + |f|, chunk, more, left, clean);
      cur, rem, len := cur + |f|, rest, newLen;
      held, carry := held + more, left;
    }

    /** The start of ReadRequest once a message has been dealt with: of the decoded
        bytes the last keep ones, put back before, and the carried ones move to the
        front of their buffers. */
    method NextMessage(keep: nat)
      requires Valid() && keep <= len
      modifies this`cur, this`len, this`gone, this`held, buf, dst
      ensures Valid() && Abstract() == old(Abstract()) && len == keep && cur == keep + rem && carry == old(carry)
      ensures held == old(held)[|old(held)| - keep..] && (keep == 0 ==> dst[0] == old(dst[0]))
    {
      KeepsAll(gone, held, len - keep);
      KeepDecoded(keep);
      MoveDown(buf, cur - rem, keep, rem);
      cur := keep + rem;
    }

    method KeepDecoded(keep: nat)
      requires keep <= len <= dst.Length && held == dst[..len]
      modifies this`len, this`gone, this`held, dst
      ensures len == keep && held == dst[..len] == old(held)[|old(held)| - keep..]
      ensures gone == old(gone) + old(held)[..|old(held)| - keep] && (keep == 0 ==> dst[..] == old(dst[..]))
    {
      TailSlice(dst[..], len, keep);
      gone, held := gone + held[..len - keep], held[len - keep..];
      MoveDown(dst, len - keep, 0, keep);
      len := keep;
    }
  }

  lemma FeedIs(gone: seq<Byte>, held: seq<Byte>, carry: seq<Byte>, f: seq<Byte>)
    returns (more: seq<Byte>, left: seq<Byte>, clean: bool)
    ensures Feed(Decoder(gone + held, carry), f) == Decoder(gone + (held + more), left)
    ensures clean == Clean(carry + f) && DecodesTo(carry + f, more, left, clean)
    ensures more == GoodPlain(carry + f) && left == Rest(carry + f)
  {
    more, left, clean := GoodPlain(carry + f), Rest(carry + f), Clean(carry + f);
    Append(gone, held, more);
  }

  lemma TailSlice(d: seq<Byte>, len: nat, keep: nat)
    requires keep <= len <= |d|
    ensures d[..len][len - keep..] == d[len - keep..len]
  {
  }

  lemma KeepsAll(gone: seq<Byte>, all: seq<Byte>, n: nat)
    requires n <= |all|
    ensures gone + all == (gone + all[..n]) + all[n..]
  {
  }

  /** Fragments that come one by one, with the messages in between dealt with when
      the buffer is short of room: the buffers do what the abstract decoder does. */
  method Drive(s: DecodingStream, fragments: seq<seq<Byte>>)
    requires s.Valid() && forall i | 0 <= i < |fragments| :: |fragments[i]| + 4 <= s.size
    modifies s, s.buf, s.dst
    ensures s.Valid() && s.Abstract() == FeedAll(old(s.Abstract()), fragments)
  {
    for i := 0 to |fragments|
      invariant s.Valid() && FeedAll(s.Abstract(), fragments[i..]) == FeedAll(old(s.Abstract()), fragments)
    {
      var f := fragments[i];
      if s.cur + |f| >= s.size {
        s.NextMessage(0);
      }
      assert fragments[i..][0] == f && fragments[i..][1..] == fragments[i + 1..];
      var ok := s.Receive(f);
    }
  }

  /** Messages encoded one after the other and cut anywhere come out of the buffers
      as they were. */
  method DecodeMessages(size: nat, ghost messages: seq<seq<Byte>>, fragments: seq<seq<Byte>>)
      returns (s: DecodingStream)
    requires size > 0 && Concat(fragments) == EncodeEach(messages)
    requires forall i | 0 <= i < |fragments| :: |fragments[i]| + 4 <= size
    ensures s.Valid() && s.Abstract().out == Concat(messages)
  {
    s := new DecodingStream(size);
    StreamRoundTrip(messages, fragments);
    Drive(s, fragments);
  }
}
