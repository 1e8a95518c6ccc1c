/** FileSource with its FileMap and FileBlockPool (CFCore/FileSource.cpp), as one
    object over one immutable file.  The pool's queue runs from the least to the
    most recently used buffer. */
module FileSources {
  import opened Bytes
  import opened FileCache
  import opened Sequences

  const UNIT_SIZE: nat := 32768            // kBufferUnitSize

  class FileBlockBuffer {
    var index: int                         // fArrayIndex
    var fill: nat                          // fBufferFillSize
    var data: seq<Byte>                    // fDataBuffer

    constructor ()
      ensures index == -1
    {
      index, fill, data := -1, 0, [];
    }
  }

  /** A buffer of block k holds it, or nothing after a failed fill. */
  ghost predicate Holds(file: seq<Byte>, size: nat, k: nat, failed: bool, b: FileBlockBuffer)
    reads b
  {
    b.fill <= |b.data| && b.data[..b.fill] == if failed then [] else Block(file, size, k)
  }

  /** Heads of the queue have been dropped, none that the limit allows. */
  ghost predicate Trimming(was: seq<nat>, q: seq<nat>, max: nat) {
    Min(max, |was|) <= |q| <= |was| && q == Last(was, |q|)
  }

  lemma TrimMore(was: seq<nat>, q: seq<nat>, max: nat)
    requires Trimming(was, q, max) && |q| > max
    ensures Trimming(was, q[1..], max)
  {
  }

  lemma TrimDone(was: seq<nat>, q: seq<nat>, max: nat)
    requires Trimming(was, q, max) && |q| <= max
    ensures q == Trim(was, max)
  {
  }

  lemma TrimTouch(q: seq<nat>, k: nat, max: nat)
    requires max >= 1
    ensures |Trim(q, max)| <= max && Touch(q, k, max) == Touch(Trim(q, max), k, max)
  {
  }

  /** Where place j of a queue of n comes from when place i moves to the tail. */
  function From(n: nat, i: nat, j: nat): (r: nat)
    requires i < n && j < n
    ensures r < n
  {
    if j < i then j else if j < n - 1 then j + 1 else i
  }

  function ToTail<T>(q: seq<T>, i: nat): (r: seq<T>)
    requires i < |q|
    ensures |r| == |q| && forall j | 0 <= j < |q| :: r[j] == q[From(|q|, i, j)]
  {
    q[..i] + q[i + 1..] + [q[i]]
  }

  /** What MarkUsed leaves of the queue. */
  function Marked<T(==)>(q: seq<T>, b: T): (r: seq<T>) {
    if |q| > 0 && q[|q| - 1] == b then q else Without(q, b) + [b]
  }

  lemma MarkedIsToTail<T>(q: seq<T>, i: nat)
    requires i < |q| && Distinct(q)
    ensures Marked(q, q[i]) == Without(q, q[i]) + [q[i]] == ToTail(q, i)
  {
    WithoutAt(q, i);
    assert Without(q, q[i]) + [q[i]] == ToTail(q, i);
    if q[|q| - 1] == q[i] {
      assert i == |q| - 1;
      assert ToTail(q, i) == q;
    }
  }

  lemma ToTailDistinct<T>(q: seq<T>, i: nat)
    requires i < |q| && Distinct(q)
    ensures Distinct(ToTail(q, i))
  {
    var r := ToTail(q, i);
    forall a, b | 0 <= a < b < |r|
      ensures r[a] != r[b]
    {
      assert From(|q|, i, a) != From(|q|, i, b);
    }
  }

  /** Used slots and queued buffers correspond: order names the slot of each
      buffer of the queue. */
  ghost predicate Queued(line: seq<FileBlockBuffer?>, queue: seq<FileBlockBuffer>, order: seq<nat>) {
    && |queue| == |order|
    && (forall i | 0 <= i < |order| :: order[i] < |line| && line[order[i]] == queue[i])
    && (forall k: nat | k < |line| && line[k] != null :: k in order)
    && Distinct(order) && Distinct(queue)
  }

  lemma QueuedToTail(line: seq<FileBlockBuffer?>, queue: seq<FileBlockBuffer>, order: seq<nat>, i: nat)
    requires Queued(line, queue, order) && i < |order|
    ensures Queued(line, ToTail(queue, i), ToTail(order, i))
  {
    var r := ToTail(order, i);
    ToTailDistinct(order, i);
    ToTailDistinct(queue, i);
    forall k: nat | k < |line| && line[k] != null
      ensures k in r
    {
      var j :| 0 <= j < |order| && order[j] == k;
      assert r[if j < i then j else if j == i then |order| - 1 else j - 1] == k;
    }
  }

  lemma QueuedMarked(line: seq<FileBlockBuffer?>, queue: seq<FileBlockBuffer>, order: seq<nat>, i: nat)
    requires Queued(line, queue, order) && i < |order|
    ensures var q := Marked(queue, queue[i]); |q| == |queue| && Queued(line, q, ToTail(order, i))
    ensures ToTail(order, i) == Without(order, order[i]) + [order[i]]
  {
    MarkedIsToTail(queue, i);
    MarkedIsToTail(order, i);
    QueuedToTail(line, queue, order, i);
  }

  lemma QueuedReuse(line: seq<FileBlockBuffer?>, queue: seq<FileBlockBuffer>, order: seq<nat>, k: nat,
                    b: FileBlockBuffer)
    requires Queued(line, queue, order) && k < |line| && line[k] == b
    ensures |Marked(queue, b)| == |queue| && Queued(line, Marked(queue, b), Without(order, k) + [k])
  {
    assert k in order;
    var i :| 0 <= i < |order| && order[i] == k;
    assert queue[i] == b;
    QueuedMarked(line, queue, order, i);
  }

  lemma QueuedDrop(line: seq<FileBlockBuffer?>, queue: seq<FileBlockBuffer>, order: seq<nat>)
    requires Queued(line, queue, order) && |order| > 0
    ensures Queued(line[order[0] := null], queue[1..], order[1..])
  {
    forall k: nat | k < |line| && line[k] != null && k != order[0]
      ensures k in order[1..]
    {
      assert k in [order[0]] + order[1..];
    }
  }

  lemma QueuedAdd(line: seq<FileBlockBuffer?>, queue: seq<FileBlockBuffer>, order: seq<nat>, k: nat, b: FileBlockBuffer)
    requires Queued(line, queue, order) && k < |line| && line[k] == null && b !in queue
    ensures Queued(line[k := b], queue + [b], order + [k]) && k !in order
  {
  }

  // ---------------------------------------------------------- one round of it

  function After<T>(out: seq<T>, k: nat, at: nat, want: nat, phase: Phase): (c: Cursor<T>) {
    if phase == Going then Cursor(out, k + 1, 0, want, phase) else Cursor(out, k, at, want, phase)
  }

  /** The copying part of one round of the loop. */
  method CopyRound(b: seq<Byte>, size: nat, out: seq<Byte>, ghost k: nat, at: nat, want: nat)
      returns (outNow: seq<Byte>, wantNow: nat, phase: Phase)
    ensures Take(b, size, Cursor(out, k, at, want, Going), |b|) == After(outNow, k, at, wantNow, phase)
  {
    if at == 0 && want <= size && |b| < want {
      return out + b, want, AtEnd;
    }
    if |b| < at {
      return out, want, Wild;
    }
    var n := Min(want, |b| - at);
    outNow, wantNow, phase := out + b[at..at + n], want - n, Going;
  }

  /** With fill size 0 the contents of the buffer do not matter. */
  lemma TakeEmpty<T>(b: seq<T>, size: nat, c: Cursor<T>)
    ensures Take(b, size, c, 0) == Take([], size, c, 0)
  {
  }

  /** The loop goes on from a block found to hold data. */
  lemma LoopTakes<T>(file: seq<T>, size: nat, max: nat, faulty: set<nat>, last: nat, cache: Cache, c: Cursor<T>,
                     data: seq<T>)
    requires max >= 1 && c.k <= last && (Cached(cache, c.k, max) || c.k !in faulty)
    requires var now := Visited(cache, c.k, max, c.k in faulty);
             data == if c.k in now.failed then [] else Block(file, size, c.k)
    ensures var now, next := Visited(cache, c.k, max, c.k in faulty), Take(data, size, c, |data|);
            Loop(file, size, max, faulty, last, cache, c) ==
            match next.phase
            case AtEnd => Answer(Got(next.out), now)
            case Wild => Answer(Overrun, now)
            case Going => Loop(file, size, max, faulty, last, now, next)
  {
    TakeEmpty(Block(file, size, c.k), size, c);
  }

  class FileSource {
    const file: seq<Byte>
    var position: nat                      // fPosition
    var enabled: bool                      // fCacheEnabled
    var slots: array?<FileBlockBuffer?>    // fFileMapArray
    var size: nat                          // fDataBufferSize
    var units: nat                         // fNumBuffSizeUnits
    var queue: seq<FileBlockBuffer>        // fQueue, head first
    var num: nat                           // fNumCurrentBuffers
    var max: nat                           // fMaxBuffers
    var inc: nat                           // fBufferInc
    ghost var pool: set<FileBlockBuffer>
    ghost var order: seq<nat>              // the block of each buffer of the queue
    ghost var uses: seq<nat>               // the blocks asked for so far
    ghost var failed: set<nat>             // cached blocks whose fill failed

    /** Used slots and queued buffers are in bijection, and index names the slot. */
    ghost predicate Linked()
      reads this`slots, this`num, this`max, this`queue, this`order, this`pool, slots, pool`index
    {
      && slots != null && num == |queue| && max >= 1 && Queued(slots[..], queue, order)
      && forall k | 0 <= k < slots.Length && slots[k] != null :: slots[k] in pool && slots[k].index == k
    }

    /** Every buffer but that of block skip holds what it should. */
    ghost predicate Stored(skip: int)
      reads this`slots, this`num, this`max, this`queue, this`order, this`pool, this`size, this`failed, slots, pool
      requires Linked()
    {
      forall k | 0 <= k < slots.Length && slots[k] != null && k != skip :: Holds(file, size, k, k in failed, slots[k])
    }

    ghost predicate Valid()
      reads this, slots, pool
    {
      max >= 1 && (slots != null ==> Linked() && Stored(-1) && InOrder(uses, order) && Sized())
    }

    ghost function Cached(): (c: Cache)
      reads this`order, this`failed
    {
      Cache(order, failed)
    }

    ghost predicate Sized()
      reads this`slots, this`size
    {
      slots != null && size > 0 && slots.Length == |file| / size + 1
    }

    constructor (file: seq<Byte>)
      ensures Valid() && this.file == file && slots == null && !enabled && pool == {}
      ensures position == 0 && units == 0 && queue == [] && num == 0 && max == 1 && inc == 0
    {
      this.file := file;
      position, enabled, slots, size, units := 0, false, null, 0, 0;
      queue, num, max, inc := [], 0, 1, 0;
      pool, order, uses, failed := {}, [], [], {};
    }

    /** FileBlockPool::GetBufferElement: a new buffer at the tail while there is
        room, else the head taken off the queue. */
    method GetBufferElement() returns (b: FileBlockBuffer)
      requires num == |queue| && max >= 1
      modifies this`num, this`queue
      ensures max == old(max)
      ensures old(num) < max ==> fresh(b) && b.index == -1 && queue == old(queue) + [b] && num == old(num) + 1
      ensures old(num) >= max ==> b == old(queue)[0] && queue == old(queue)[1..] && num == old(num)
    {
      if num < max {
        b := new FileBlockBuffer();
        num := num + 1;
        queue := queue + [b];
      } else {
        b := queue[0];
        queue := queue[1..];
      }
    }

    /** FileBlockPool::MarkUsed: moves b to the tail. */
    method MarkUsed(b: FileBlockBuffer)
      modifies this`queue
      ensures queue == Marked(old(queue), b)
    {
      if |queue| == 0 || queue[|queue| - 1] != b {
        queue := Without(queue, b) + [b];
      }
    }

    /** The body of the loop of DeleteOldBuffs. */
    method DropOldest()
      requires Linked() && Stored(-1) && num > max
      modifies this`num, this`queue, this`order, slots
      ensures Linked() && Stored(-1) && order == old(order)[1..]
    {
      QueuedDrop(slots[..], queue, order);
      var b := GetBufferElement();
      assert b == slots[order[0]];
      slots[b.index] := null;
      assert slots[..] == old(slots[..])[order[0] := null];
      num := num - 1;
      order := order[1..];
    }

    method DeleteOldBuffs()
      requires Linked() && Stored(-1)
      modifies this`num, this`queue, this`order, slots
      ensures Linked() && Stored(-1) && order == Trim(old(order), max)
    {
      ghost var was := order;
      while num > max
        invariant Linked() && Stored(-1) && Trimming(was, order, max)
      {
        TrimMore(was, order, max);
        DropOldest();
      }
      TrimDone(was, order, max);
    }

    /** GetBuffer for a block that has a slot: its buffer becomes the most
        recently used one. */
    method Reuse(k: nat)
      requires slots != null && Queued(slots[..], queue, order) && k < slots.Length && slots[k] != null
      modifies this`queue, this`order
      ensures Queued(slots[..], queue, order) && |queue| == |old(queue)| && order == Without(old(order), k) + [k]
    {
      var b: FileBlockBuffer := slots[k];
      ghost var line := slots[..];
      assert line[k] == b;
      QueuedReuse(line, queue, order, k, b);
      MarkUsed(b);
      order := Without(order, k) + [k];
    }

    /** The buffers still in their slots, with b behind them at the tail. */
    ghost predicate Holding(b: FileBlockBuffer)
      reads this, slots, pool
    {
      && slots != null && num == |queue| == |order| + 1 && max >= 1
      && queue[|order|] == b && b in pool && b !in queue[..|order|]
      && Queued(slots[..], queue[..|order|], order)
      && forall k | 0 <= k < slots.Length && slots[k] != null :: slots[k] in pool && slots[k].index == k
    }

    method TakeNew() returns (b: FileBlockBuffer)
      requires Linked() && num < max
      modifies this`num, this`queue, this`pool
      ensures Holding(b) && fresh(b) && pool == old(pool) + {b}
    {
      b := GetBufferElement();
      MarkUsed(b);
      assert queue[..|order|] == old(queue);
      pool := pool + {b};
    }

    method TakeOldest() returns (b: FileBlockBuffer)
      requires Linked() && num == max
      modifies this`num, this`queue, this`order, slots
      ensures Holding(b) && order == old(order)[1..]
      ensures forall j | 0 <= j < slots.Length && slots[j] != null :: slots[j] == old(slots[j])
    {
      QueuedDrop(slots[..], queue, order);
      b := GetBufferElement();
      MarkUsed(b);
      assert b == slots[order[0]];
      slots[b.index] := null;
      assert slots[..] == old(slots[..])[order[0] := null];
      assert queue[..|order| - 1] == old(queue)[1..];
      order := order[1..];
    }

    /** A new buffer while there is room, else the least recently used one, which
        leaves its slot. */
    method TakeBuffer() returns (b: FileBlockBuffer)
      requires Linked() && num <= max
      modifies this`num, this`queue, this`order, this`pool, slots
      ensures Holding(b) && fresh(pool - old(pool))
      ensures order == if |old(order)| < max then old(order) else old(order)[1..]
      ensures forall j | 0 <= j < slots.Length && slots[j] != null :: slots[j] == old(slots[j])
    {
      if num < max {
        b := TakeNew();
      } else {
        b := TakeOldest();
      }
    }

    /** GetBuffer for a block without a slot. */
    method Claim(k: nat) returns (b: FileBlockBuffer)
      requires Linked() && k < slots.Length && slots[k] == null && num <= max
      modifies this`num, this`queue, this`order, this`pool, slots, pool`index
      ensures Linked() && slots[k] == b && fresh(pool - old(pool))
      ensures order == (if |old(order)| < max then old(order) else old(order)[1..]) + [k]
      ensures forall j | 0 <= j < slots.Length && j != k && slots[j] != null :: slots[j] == old(slots[j])
    {
      b := TakeBuffer();
      ghost var line := slots[..];
      QueuedAdd(line, queue[..|order|], order, k, b);
      slots[k] := b;
      b.index := k;
      assert slots[..] == line[k := b];
      assert queue == queue[..|order|] + [b];
      order := order + [k];
    }

    /** GetBuffer once no buffer is above the limit. */
    method GetSlot(k: nat) returns (b: FileBlockBuffer, fillBuff: bool)
      requires Linked() && Stored(-1) && k < slots.Length && num <= max
      modifies this`num, this`queue, this`order, this`pool, slots, pool`index
      ensures Linked() && slots[k] == b && fresh(pool - old(pool)) && Stored(if fillBuff then k else -1)
      ensures (fillBuff <==> k !in old(order)) && order == Touch(old(order), k, max)
    {
      fillBuff := slots[k] == null;
      if fillBuff {
        b := Claim(k);
      } else {
        b := slots[k];
        Reuse(k);
      }
    }

    method TrimAndGet(k: nat) returns (b: FileBlockBuffer, fillBuff: bool)
      requires Linked() && Stored(-1) && k < slots.Length
      modifies this`num, this`queue, this`order, this`pool, slots, pool`index
      ensures Linked() && slots[k] == b && fresh(pool - old(pool)) && Stored(if fillBuff then k else -1)
      ensures (fillBuff <==> k !in Trim(old(order), max)) && order == Touch(old(order), k, max)
    {
      TrimTouch(order, k, max);
      DeleteOldBuffs();
      b, fillBuff := GetSlot(k);
    }

    /** FileMap::GetBuffer: the buffer of block k becomes the most recently used
        one; fillBuff says whether it is yet to be filled. */
    method GetBuffer(k: nat) returns (b: FileBlockBuffer, fillBuff: bool)
      requires slots != null && Valid() && k < slots.Length
      modifies this`num, this`queue, this`order, this`pool, this`uses, this`failed, slots, pool`index
      ensures Linked() && slots[k] == b && fresh(pool - old(pool)) && Stored(if fillBuff then k else -1)
      ensures (fillBuff <==> k !in Trim(old(order), max)) && order == Touch(old(order), k, max)
      ensures Cached() == Visited(old(Cached()), k, max, false)
      ensures uses == old(uses) + [k] && InOrder(uses, order) && |queue| <= max
    {
      ghost var now, q := uses + [k], Touch(order, k, max);
      TouchInOrder(uses, order, k, max);
      b, fillBuff := TrimAndGet(k);
      assert order == q;
      uses := now;
      failed := Kept(failed, order, k, !fillBuff);
    }

    /** FillBuffer: reads block k into its buffer.  A failed read leaves the
        buffer in the slot with fill size 0. */
    method FillBuffer(k: nat, fault: bool) returns (r: Outcome<Byte>)
      requires Linked() && Stored(k) && k < slots.Length && slots[k] != null && k !in failed
      modifies this`failed, this`position, pool`fill, pool`data
      ensures Linked() && Stored(-1) && (r == Failed <==> fault)
      ensures failed == if fault then old(failed) + {k} else old(failed)
    {
      var b := slots[k];
      r := ReadFromPos(Offset(size, k), size, fault);
      if r == Failed {
        b.fill := 0;
        failed := failed + {k};
      } else {
        b.data := r.data + if |r.data| <= |b.data| then b.data[|r.data|..] else [];
        b.fill := |r.data|;
        assert b.data[..b.fill] == Block(file, size, k);
      }
    }

    /** ReadFromDisk: a seek to the stored position, then a read that moves it on. */
    method ReadFromDisk(len: nat, fault: bool) returns (r: Outcome<Byte>)
      modifies this`position
      ensures fault ==> r == Failed && position == old(position)
      ensures !fault ==> r == Got(Slice(file, old(position), len)) && position == old(position) + |r.data|
    {
      if fault {
        return Failed;
      }
      var n := if position >= |file| then 0 else Min(len, |file| - position);
      r := Got(if n == 0 then [] else file[position..position + n]);
      position := position + n;
    }

    /** A positioned read of the file itself; the next read without a position goes
        on behind it. */
    method ReadFromPos(pos: nat, len: nat, fault: bool) returns (r: Outcome<Byte>)
      modifies this`position
      ensures if fault then r == Failed && position == pos
              else r == Got(Slice(file, pos, len)) && position == pos + |r.data|
    {
      position := pos;
      r := ReadFromDisk(len, fault);
    }

    /** Block k as the copying loop gets it: from its slot, or filled now. */
    method Fetch(k: nat, fault: bool) returns (r: Outcome<Byte>)
      requires slots != null && Valid() && k < slots.Length
      modifies this`num, this`queue, this`order, this`pool, this`uses, this`failed, this`position, slots, pool
      ensures Valid() && fresh(pool - old(pool)) && slots[k] != null
      ensures Cached() == Visited(old(Cached()), k, max, fault)
      ensures r == if k !in Trim(old(order), max) && fault then Failed
                   else Got(if k in failed then [] else Block(file, size, k))
    {
      var b, fillBuff := GetBuffer(k);
      assert Sized();
      if fillBuff {
        var read := FillBuffer(k, fault);
        if read == Failed {
          return Failed;
        }
      }
      assert Holds(file, size, k, k in failed, b);
      r := Got(b.data[..b.fill]);
    }

    method IncMaxBuffers()
      requires Valid()
      modifies this`max
      ensures Valid() && max == old(max) + inc
    {
      max := max + inc;
    }

    method DecMaxBuffers()
      requires Valid()
      modifies this`max
      ensures Valid() && max == if old(max) > inc then old(max) - inc else old(max)
    {
      if max > inc {
        max := max - inc;
      }
    }

    method EnableFileCache(on: bool)
      requires Valid()
      modifies this`enabled
      ensures Valid() && enabled == on
    {
      enabled := on;
    }

    /** The rest of the loop, from cursor c on, gives goal. */
    ghost predicate Gives(goal: Answer<Byte>, faulty: set<nat>, last: nat, c: Cursor<Byte>)
      reads this`size, this`max, this`order, this`failed
    {
      max >= 1 && forall k {:trigger Loop(file, size, max, faulty, last, k, c)} | k == Cached() ::
        goal == Loop(file, size, max, faulty, last, k, c)
    }

    /** One round of the loop of ReadFromCache; goal is what Loop gives from here. */
    method Round(out: seq<Byte>, k: nat, at: nat, want: nat, faulty: set<nat>, ghost last: nat,
                 ghost goal: Answer<Byte>)
        returns (done: bool, r: Outcome<Byte>, outNow: seq<Byte>, wantNow: nat)
      requires slots != null && Valid() && k < slots.Length && k <= last
      requires Gives(goal, faulty, last, Cursor(out, k, at, want, Going))
      modifies this`num, this`queue, this`order, this`pool, this`uses, this`failed, this`position, slots, pool
      ensures Valid() && fresh(pool - old(pool))
      ensures if done then goal == Answer(r, Cached())
              else Gives(goal, faulty, last, Cursor(outNow, k + 1, 0, wantNow, Going))
    {
      ghost var was := Cached();
      assert goal == Loop(file, size, max, faulty, last, was, Cursor(out, k, at, want, Going));
      done, outNow, wantNow := true, out, want;
      r := Fetch(k, k in faulty);
      if r == Failed {
        return;
      }
      var phase;
      LoopTakes(file, size, max, faulty, last, was, Cursor(out, k, at, want, Going), r.data);
      outNow, wantNow, phase := CopyRound(r.data, size, out, k, at, want);
      done := phase != Going;
      r := if phase == Wild then Overrun else Got(outNow);
    }

    /** The loop of ReadFromCache, from block k to block last, gives goal, which is
        Loop over the cache as it was.  The fill of block k fails when k is in
        faulty. */
    method CopyBlocks(first: nat, offset: nat, len: nat, last: nat, faulty: set<nat>, ghost goal: Answer<Byte>)
        returns (r: Outcome<Byte>)
      requires slots != null && Valid() && first <= last < slots.Length
      requires Gives(goal, faulty, last, Cursor([], first, offset, len, Going))
      modifies this`num, this`queue, this`order, this`pool, this`uses, this`failed, this`position, slots, pool
      ensures Valid() && fresh(pool - old(pool)) && goal == Answer(r, Cached())
    {
      var k, at, want := first, offset, len;
      var out: seq<Byte> := [];
      var done := false;
      r := Got([]);
      while !done && k <= last
        invariant first <= k <= last + 1 && Valid() && fresh(pool - old(pool))
        invariant if done then goal == Answer(r, Cached())
                  else Gives(goal, faulty, last, Cursor(out, k, at, want, Going))
        decreases !done, last + 1 - k
      {
        done, r, out, want := Round(out, k, at, want, faulty, last, goal);
        if !done {
          at, k := 0, k + 1;
        }
      }
      if !done {
        LoopEnds(file, size, max, faulty, last, Cached(), Cursor(out, k, at, want, Going));
        r := Got(out);
      }
    }

    /** ReadFromCache delivers exactly the positions asked for if and only if the
        read is sound. */
    method ReadFromCache(pos: nat, len: nat, faulty: set<nat>) returns (r: Outcome<Byte>, ghost from: seq<nat>)
      requires slots != null && Valid() && (pos + len) / size < slots.Length
      modifies this`num, this`queue, this`order, this`pool, this`uses, this`failed, this`position, slots, pool
      ensures Valid() && fresh(pool - old(pool))
      ensures Answer(r, Cached()) == CacheRead(file, size, max, old(Cached()), faulty, pos, len)
      ensures Right(file, pos, len, r, from, SoundRead(size, max, |file|, old(Cached()), faulty, pos, len))
    {
      from := CacheReadExact(file, size, max, Cached(), faulty, pos, len);
      if pos >= |file| {
        return Got([]), from;
      }
      var first: nat, last: nat := pos / size, (pos + len) / size;
      IndexOrder(size, pos, len, |file|);
      ghost var goal := CacheRead(file, size, max, Cached(), faulty, pos, len);
      r := CopyBlocks(first, pos - Offset(size, first), len, last, faulty, goal);
    }

    /** Whether Read goes through the cache. */
    predicate Applies(pos: nat, len: nat)
      reads this, slots
      requires slots != null ==> size > 0
    {
      slots != null && enabled && (pos + len) / size <= slots.Length - 1
    }

    /** Read: through the cache where it applies.  Faulty are the blocks whose fill
        fails and broken says that a direct read fails. */
    method Read(pos: nat, len: nat, faulty: set<nat>, broken: bool) returns (r: Outcome<Byte>, ghost from: seq<nat>)
      requires Valid()
      modifies this`num, this`queue, this`order, this`pool, this`uses, this`failed, this`position, slots, pool
      ensures Valid() && fresh(pool - old(pool))
      ensures old(Applies(pos, len)) ==>
                Answer(r, Cached()) == CacheRead(file, size, max, old(Cached()), faulty, pos, len)
      ensures !old(Applies(pos, len)) ==> Cached() == old(Cached()) && uses == old(uses)
      ensures !old(Applies(pos, len)) ==> r == if broken then Failed else Got(Slice(file, pos, len))
      ensures Right(file, pos, len, r, from,
                    if old(Applies(pos, len)) then SoundRead(size, max, |file|, old(Cached()), faulty, pos, len)
                    else !broken)
    {
      if slots == null || !enabled || (pos + len) / size > slots.Length - 1 {
        r := ReadFromPos(pos, len, broken);
        from := if broken then [] else Slice(Positions(|file|), pos, len);
      } else {
        r, from := ReadFromCache(pos, len, faulty);
      }
    }

    /** AllocateBufferMap: keeps the map if the block size and limit are as asked,
        else starts an empty one.  The pool resets its unit size on the way: the
        block has units of 32K, and the unit size asked for only takes part in how
        many there are. */
    method AllocateFileCache(unitK: nat, wanted: nat, incBuffers: nat, maxBlocks: nat, bitRate: nat)
      requires Valid()
      modifies this`slots, this`size, this`units, this`queue, this`num, this`max, this`inc, this`pool, this`order,
               this`uses, this`failed
      ensures Valid() && slots != null && fresh(pool - old(pool)) && (slots == old(slots) || fresh(slots))
      ensures old(slots) != null && old(units) == wanted && old(max) == incBuffers <==> slots == old(slots)
      ensures slots == old(slots) ==> order == old(order) && size == old(size)
      ensures slots == old(slots) ==> max == old(max) && failed == old(failed) && units == old(units)
      ensures inc == if slots != old(slots) && incBuffers > 0 then incBuffers else old(inc)
      ensures slots != old(slots) ==> order == [] && failed == {} && max == (if incBuffers > 0 then incBuffers else 1)
      ensures slots != old(slots) ==> units == ChosenUnits(unitK, wanted, maxBlocks, bitRate)
      ensures slots != old(slots) ==> size == UNIT_SIZE * units
    {
      if slots != null && units == wanted && incBuffers == max {
        return;
      }
      units := ChosenUnits(unitK, wanted, maxBlocks, bitRate);
      max := 1;
      if incBuffers > 0 {
        max, inc := incBuffers, incBuffers;
      }
      NewMap(UNIT_SIZE * units);
    }

    /** DeleteMap, DeleteBlockPool and a new array with an empty slot per block. */
    method NewMap(blockSize: nat)
      requires blockSize > 0 && max >= 1
      modifies this`slots, this`size, this`queue, this`num, this`pool, this`order, this`uses, this`failed
      ensures Valid() && slots != null && fresh(slots) && pool == {} && order == [] && failed == {} && size == blockSize
    {
      pool, order, uses, failed := {}, [], [], {};
      queue, num, size := [], 0, blockSize;
      slots := new FileBlockBuffer?[|file| / blockSize + 1](_ => null);
    }
  }

  /** The number of 32K units in a block. */
  function ChosenUnits(unitK: nat, wanted: nat, maxBlocks: nat, bitRate: nat): (r: nat)
    ensures 1 <= r && (wanted > 0 ==> r == wanted) && (wanted == 0 ==> r <= maxBlocks || r == 1)
  {
    var unit := (if unitK < 1 then 1 else unitK) * 1024;
    var units := if wanted == 0 then Min(RateUnits(unit, maxBlocks, bitRate), maxBlocks) else wanted;
    if units < 1 then 1 else units
  }

  function RateUnits(unit: nat, maxBlocks: nat, bitRate: nat): (r: nat)
    requires unit > 0
  {
    var rate: nat := if bitRate == 0 then maxBlocks * unit else bitRate;
    rate / unit
  }

  /** The block that the unit size asked for stands for. */
  function AskedSize(unitK: nat, units: nat): (r: nat) {
    (if unitK < 1 then 1 else unitK) * 1024 * units
  }

  /** The block is of the size asked for exactly if units of 32K were. */
  lemma BlockAsAskedExactly(unitK: nat, wanted: nat, maxBlocks: nat, bitRate: nat)
    ensures var units := ChosenUnits(unitK, wanted, maxBlocks, bitRate);
            UNIT_SIZE * units == AskedSize(unitK, units) <==> unitK == 32
  {
    var asked, units := AskedSize(unitK, 1), ChosenUnits(unitK, wanted, maxBlocks, bitRate);
    assert AskedSize(unitK, units) == asked * units;
    assert asked == UNIT_SIZE <==> unitK == 32;
    Scales(UNIT_SIZE, asked, units);
  }

  /** With no number of units given: as many as there may be without a bit rate, else
      the most of them that the bit rate fills, but at least one. */
  lemma UnitsFillRate(unitK: nat, maxBlocks: nat, bitRate: nat)
    ensures var n := ChosenUnits(unitK, 0, maxBlocks, bitRate);
            if bitRate == 0 then n == if maxBlocks == 0 then 1 else maxBlocks
            else && (n > 1 ==> n <= maxBlocks && AskedSize(unitK, n) <= bitRate)
                 && forall m: nat | n < m <= maxBlocks :: AskedSize(unitK, m) > bitRate
  {
    var unit, n := AskedSize(unitK, 1), ChosenUnits(unitK, 0, maxBlocks, bitRate);
    Fills(unit, maxBlocks * unit, maxBlocks);
    Fills(unit, bitRate, n);
    forall m: nat | n < m <= maxBlocks
      ensures bitRate > 0 ==> AskedSize(unitK, m) > bitRate
    {
      Fills(unit, bitRate, m);
    }
  }

  /** A quotient is the most units that fit. */
  lemma {:induction false} Fills(unit: nat, rate: nat, n: nat)
    requires unit > 0
    ensures n <= rate / unit <==> unit * n <= rate
    ensures rate == n * unit ==> rate / unit == n
  {
    var q, r := rate / unit, rate % unit;
    assert rate == unit * q + r;
    if n <= q {
      Scaled(unit, n, q);
    } else {
      Scaled(unit, q + 1, n);
    }
  }

  lemma Scaled(unit: nat, a: nat, b: nat)
    requires a <= b
    ensures unit * a <= unit * b
  {
  }

  lemma Scales(a: nat, b: nat, n: nat)
    requires n > 0
    ensures a * n == b * n <==> a == b
  {
  }

  /** Given the number of units, the unit size asked for has no part at all; from a
      bit rate of 131072 bytes, units of 64K give half as large a block as units of
      32K. */
  lemma UnitSizeOnlyCounts(maxBlocks: nat)
    requires maxBlocks >= 4
    ensures forall u, v, wanted, m, n: nat, rate: nat, pace: nat | wanted > 0 ::
              ChosenUnits(u, wanted, m, rate) == ChosenUnits(v, wanted, n, pace)
    ensures UNIT_SIZE * ChosenUnits(32, 0, maxBlocks, 131072) == 131072
    ensures UNIT_SIZE * ChosenUnits(64, 0, maxBlocks, 131072) == 65536
  {
    assert 131072 / (32 * 1024) == 4 && 131072 / (64 * 1024) == 2;
  }

  // ------------------------------------------------------------- whole histories

  datatype Op =
    | ReadAt(pos: nat, len: nat)
    | IncMax
    | DecMax
    | Enable(on: bool)
    | Allocate(unitK: nat, wanted: nat, incBuffers: nat, maxBlocks: nat, bitRate: nat)

  /** What the reads of a history give without any cache. */
  function Plain(file: seq<Byte>, ops: seq<Op>): (r: seq<seq<Byte>>) {
    if ops == [] then []
    else
      var op := ops[|ops| - 1];
      Plain(file, ops[..|ops| - 1]) + (if op.ReadAt? then [Slice(file, op.pos, op.len)] else [])
  }

  /** A read without faults, while no cached block lacks its data. */
  method ReadClean(f: FileSource, pos: nat, len: nat) returns (data: seq<Byte>)
    requires f.Valid() && f.failed == {}
    modifies f`num, f`queue, f`order, f`pool, f`uses, f`failed, f`position, f.slots, f.pool
    ensures f.Valid() && f.failed == {} && data == Slice(f.file, pos, len) && fresh(f.pool - old(f.pool))
  {
    if f.slots != null {
      CleanRead(f.file, f.size, f.max, f.order, pos, len);
    }
    var r, _ := f.Read(pos, len, {}, false);
    data := r.data;
  }

  /** Over any history of reads, limit changes and allocations in which no fill
      fails, every read gives what the plain positioned read would. */
  method Serve(f: FileSource, ops: seq<Op>) returns (outs: seq<seq<Byte>>)
    requires f.Valid() && f.failed == {}
    modifies f, f.slots, f.pool
    ensures f.Valid() && f.failed == {} && outs == Plain(f.file, ops)
  {
    outs := [];
    for i := 0 to |ops|
      invariant f.Valid() && f.failed == {} && outs == Plain(f.file, ops[..i])
      invariant fresh(f.pool - old(f.pool)) && (f.slots == old(f.slots) || fresh(f.slots))
    {
      assert ops[..i + 1][..i] == ops[..i];
      match ops[i] {
        case ReadAt(pos, len) =>
          var data := ReadClean(f, pos, len);
          outs := outs + [data];
        case IncMax => f.IncMaxBuffers();
        case DecMax => f.DecMaxBuffers();
        case Enable(on) => f.EnableFileCache(on);
        case Allocate(unitK, wanted, incBuffers, maxBlocks, bitRate) =>
          f.AllocateFileCache(unitK, wanted, incBuffers, maxBlocks, bitRate);
      }
    }
    assert ops[..|ops|] == ops;
  }

  lemma BlocksThere(size: nat, total: nat)
    requires size > 0 && total >= 3 * size
    ensures 1 / size <= total / size && 2 * size / size <= total / size
  {
    OffsetIsProduct(size, 3);
    assert 2 * size / size == 2 && total / size >= 3;
  }

  /** The cache does not agree with the plain read past a failed fill: the first
      read fails, and a second one without any fault gives the second and third
      block for the first and second. */
  method FailedFillHistory(f: FileSource) returns (first: Outcome<Byte>, second: Outcome<Byte>)
    requires f.Valid() && f.slots != null && f.enabled && f.order == [] && f.failed == {} && |f.file| >= 3 * f.size
    modifies f, f.slots, f.pool
    ensures first == Failed && second == Got(Slice(f.file, f.size, 2 * f.size))
  {
    BlocksThere(f.size, |f.file|);
    FirstFillFails(f.file, f.size, f.max);
    FailedReadShifts(f.file, f.size, f.max);
    ghost var from;
    first, from := f.Read(0, 1, {0}, false);
    second, from := f.Read(0, 2 * f.size, {}, false);
  }
}
