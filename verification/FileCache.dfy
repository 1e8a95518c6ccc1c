/** The file block cache of CFCore/FileSource.cpp: fixed-size blocks of one
    immutable file, kept in an array of slots and a queue in order of last use. */
module FileCache {
  import opened Sequences

  // ------------------------------------------------------- order of last use

  predicate Distinct<T(==)>(q: seq<T>) {
    forall i, j | 0 <= i < j < |q| :: q[i] != q[j]
  }

  function Without<T(==)>(q: seq<T>, x: T): (r: seq<T>)
    ensures (forall y | y in r :: y in q && y != x) && (forall y | y in q && y != x :: y in r)
    ensures x !in q ==> r == q
  {
    if q == [] then [] else if q[0] == x then Without(q[1..], x) else [q[0]] + Without(q[1..], x)
  }

  lemma {:induction false} WithoutAppend<T>(p: seq<T>, q: seq<T>, x: T)
    ensures Without(p + q, x) == Without(p, x) + Without(q, x)
  {
    if p == [] {
      assert p + q == q;
    } else {
      assert (p + q)[1..] == p[1..] + q;
      WithoutAppend(p[1..], q, x);
    }
  }

  /** In a sequence without repetition one place is taken out. */
  lemma {:induction false} WithoutAt<T>(q: seq<T>, i: nat)
    requires Distinct(q) && i < |q|
    ensures Without(q, q[i]) == q[..i] + q[i + 1..]
  {
    var t := q[1..];
    if i == 0 {
      assert q[0] !in t;
      WithoutNone(t, q[0]);
    } else {
      assert q[0] != q[i] == t[i - 1];
      WithoutAt(t, i - 1);
      ConsCut(q, i);
    }
  }

  lemma {:induction false} WithoutNone<T>(q: seq<T>, x: T)
    requires x !in q
    ensures Without(q, x) == q
  {
    if q != [] {
      WithoutNone(q[1..], x);
    }
  }

  lemma ConsCut<T>(q: seq<T>, i: nat)
    requires 0 < i < |q|
    ensures [q[0]] + (q[1..][..i - 1] + q[1..][i..]) == q[..i] + q[i + 1..]
  {
    var a, b := [q[0]] + (q[1..][..i - 1] + q[1..][i..]), q[..i] + q[i + 1..];
    forall k | 0 <= k < |a|
      ensures a[k] == b[k]
    {
    }
  }

  lemma {:induction false} WithoutDistinct<T>(q: seq<T>, x: T)
    requires Distinct(q)
    ensures Distinct(Without(q, x))
  {
    if q != [] {
      WithoutDistinct(q[1..], x);
      assert q[0] !in q[1..];
    }
  }

  /** The blocks used so far, in order of their last use. */
  function Recency(uses: seq<nat>): (r: seq<nat>)
    ensures forall k :: k in r <==> k in uses
  {
    if uses == [] then []
    else
      var k := uses[|uses| - 1];
      assert uses == uses[..|uses| - 1] + [k];
      Without(Recency(uses[..|uses| - 1]), k) + [k]
  }

  /** When block k was last used; -1 for never. */
  function LastUse(uses: seq<nat>, k: nat): (t: int)
    ensures -1 <= t < |uses| && (t == -1 <==> k !in uses)
    ensures t >= 0 ==> uses[t] == k && forall i | t < i < |uses| :: uses[i] != k
  {
    if uses == [] then -1
    else if uses[|uses| - 1] == k then |uses| - 1
    else
      assert uses == uses[..|uses| - 1] + [uses[|uses| - 1]];
      LastUse(uses[..|uses| - 1], k)
  }

  ghost predicate ByLastUse(uses: seq<nat>, q: seq<nat>) {
    forall i, j | 0 <= i < j < |q| :: LastUse(uses, q[i]) < LastUse(uses, q[j])
  }

  lemma {:induction false} WithoutKeepsOrder(uses: seq<nat>, q: seq<nat>, x: nat)
    requires ByLastUse(uses, q)
    ensures ByLastUse(uses, Without(q, x))
  {
    if q != [] {
      var r := Without(q[1..], x);
      WithoutKeepsOrder(uses, q[1..], x);
      assert forall y | y in q[1..] :: LastUse(uses, q[0]) < LastUse(uses, y);
      if q[0] != x {
        FirstBeforeRest(uses, q[0], r);
      }
    }
  }

  lemma FirstBeforeRest(uses: seq<nat>, x: nat, r: seq<nat>)
    requires ByLastUse(uses, r) && forall y | y in r :: LastUse(uses, x) < LastUse(uses, y)
    ensures ByLastUse(uses, [x] + r)
  {
  }

  /** Recency lists each used block once, in order of last use. */
  lemma {:induction false} RecencyIsByLastUse(uses: seq<nat>)
    ensures Distinct(Recency(uses)) && ByLastUse(uses, Recency(uses))
  {
    if uses != [] {
      var front, k := uses[..|uses| - 1], uses[|uses| - 1];
      var r := Recency(front);
      RecencyIsByLastUse(front);
      WithoutDistinct(r, k);
      WithoutKeepsOrder(front, r, k);
    }
  }

  function Last(q: seq<nat>, n: nat): (r: seq<nat>)
    requires n <= |q|
  {
    q[|q| - n..]
  }

  function Trim(q: seq<nat>, max: nat): (r: seq<nat>) {
    if |q| > max then Last(q, max) else q
  }

  /** What one use of block k does to the queue of cached blocks. */
  function Touch(q: seq<nat>, k: nat, max: nat): (r: seq<nat>)
    requires max >= 1
  {
    var t := Trim(q, max);
    if k in t then Without(t, k) + [k]
    else if |t| < max then t + [k]
    else t[1..] + [k]
  }

  /** The queue holds the most recently used blocks, least recent first. */
  ghost predicate Recent(uses: seq<nat>, q: seq<nat>) {
    |q| <= |Recency(uses)| && q == Last(Recency(uses), |q|)
  }

  lemma TrimRecent(uses: seq<nat>, q: seq<nat>, max: nat)
    requires Recent(uses, q)
    ensures Recent(uses, Trim(q, max))
  {
  }

  /** Taking out one block of the tail, or one before it. */
  lemma WithoutTail(r: seq<nat>, n: nat, k: nat)
    requires n <= |r| && Distinct(r)
    ensures var w := Without(r, k); var t := Without(Last(r, n), k); |t| <= |w| && t == Last(w, |t|)
  {
    assert r == r[..|r| - n] + Last(r, n);
    WithoutAppend(r[..|r| - n], Last(r, n), k);
  }

  /** However the uses come and however the limit moves, the queue after a use
      is again the most recently used blocks and within the limit. */
  lemma TouchRecent(uses: seq<nat>, q: seq<nat>, k: nat, max: nat)
    requires max >= 1 && Recent(uses, q)
    ensures Recent(uses + [k], Touch(q, k, max)) && 1 <= |Touch(q, k, max)| <= max && Distinct(Touch(q, k, max))
  {
    var t := Trim(q, max);
    TrimRecent(uses, q, max);
    RecencyIsByLastUse(uses);
    assert (uses + [k])[..|uses + [k]| - 1] == uses;
    WithoutTail(Recency(uses), |t|, k);
    WithoutDistinct(Recency(uses), k);
    WithoutSize(t, k);
    TailWith(Without(Recency(uses), k), Without(t, k), k);
  }

  lemma WithoutSize(t: seq<nat>, k: nat)
    requires Distinct(t)
    ensures |Without(t, k)| == if k in t then |t| - 1 else |t|
  {
    if k in t {
      var i :| 0 <= i < |t| && t[i] == k;
      WithoutAt(t, i);
    }
  }

  /** A tail of w, or what is left of it without its head, goes on with k. */
  lemma TailWith(w: seq<nat>, t: seq<nat>, k: nat)
    requires Distinct(w) && k !in w && |t| <= |w| && t == Last(w, |t|)
    ensures t + [k] == Last(w + [k], |t| + 1) && Distinct(t + [k])
    ensures |t| > 0 ==> t[1..] + [k] == Last(w + [k], |t|) && Distinct(t[1..] + [k])
  {
  }

  /** Recent, kept folded. */
  ghost predicate InOrder(uses: seq<nat>, q: seq<nat>) {
    forall u {:trigger Recent(u, q)} | u == uses :: Recent(u, q)
  }

  lemma TouchInOrder(uses: seq<nat>, q: seq<nat>, k: nat, max: nat)
    requires max >= 1 && InOrder(uses, q)
    ensures InOrder(uses + [k], Touch(q, k, max)) && |Touch(q, k, max)| <= max
  {
    assert Recent(uses, q);
    TouchRecent(uses, q, k, max);
  }

  /** Every block that a use drops was last used before every block it keeps. */
  lemma DroppedIsOldest(uses: seq<nat>, q: seq<nat>, k: nat, max: nat, x: nat, y: nat)
    requires max >= 1 && Recent(uses, q) && x in q && x !in Touch(q, k, max) && y in Touch(q, k, max)
    ensures LastUse(uses + [k], x) < LastUse(uses + [k], y)
  {
    var now := uses + [k];
    TouchRecent(uses, q, k, max);
    RecencyIsByLastUse(now);
    assert x in Recency(uses) && x in now;
    TailIsLater(now, Recency(now), Touch(q, k, max), x, y);
  }

  lemma TailIsLater(uses: seq<nat>, all: seq<nat>, kept: seq<nat>, x: nat, y: nat)
    requires ByLastUse(uses, all) && |kept| <= |all| && kept == Last(all, |kept|) && x in all && x !in kept && y in kept
    ensures LastUse(uses, x) < LastUse(uses, y)
  {
    var i := IndexOf(all, x);
    var j := IndexOf(kept, y);
    TailHas(all, kept, i);
    assert kept[j] == all[|all| - |kept| + j];
  }

  lemma IndexOf(q: seq<nat>, x: nat) returns (i: nat)
    requires x in q
    ensures i < |q| && q[i] == x
  {
    i :| i < |q| && q[i] == x;
  }

  lemma TailHas(all: seq<nat>, kept: seq<nat>, i: nat)
    requires |kept| <= |all| && kept == Last(all, |kept|) && i < |all|
    ensures i >= |all| - |kept| ==> all[i] in kept
  {
    if i >= |all| - |kept| {
      assert kept[i - (|all| - |kept|)] == all[i];
    }
  }

  // ---------------------------------------------------------- blocks and reads

  /** What a positioned read of the file gives. */
  function Slice<T>(file: seq<T>, pos: nat, len: nat): (r: seq<T>) {
    if pos >= |file| then [] else file[pos..Min(pos + len, |file|)]
  }

  /** GetBuffOffset: where block k starts, k times the block size. */
  function Offset(size: nat, k: nat): (r: nat) {
    if k == 0 then 0 else Offset(size, k - 1) + size
  }

  lemma {:induction false} OffsetIsProduct(size: nat, k: nat)
    ensures Offset(size, k) == k * size
  {
    if k > 0 {
      OffsetIsProduct(size, k - 1);
    }
  }

  lemma {:induction false} OffsetMonotone(size: nat, j: nat, k: nat)
    requires j < k
    ensures Offset(size, j) + size <= Offset(size, k)
  {
    if j < k - 1 {
      OffsetMonotone(size, j, k - 1);
    }
  }

  function Block<T>(file: seq<T>, size: nat, k: nat): (r: seq<T>) {
    Slice(file, Offset(size, k), size)
  }

  datatype Phase = Going | AtEnd | Wild

  /** The variables of the copying loop: what is copied, next block, offset in it
      and how much is still wanted. */
  datatype Cursor<T> = Cursor(out: seq<T>, k: nat, at: nat, want: nat, phase: Phase)

  /** One round of the loop when its block b is found filled to fill bytes.  An
      offset beyond the fill makes the copy length negative. */
  function Take<T>(b: seq<T>, size: nat, c: Cursor<T>, fill: nat): (r: Cursor<T>)
    requires fill <= |b|
  {
    if c.at == 0 && c.want <= size && fill < c.want then c.(out := c.out + b[..fill], phase := AtEnd)
    else if fill < c.at then c.(phase := Wild)
    else
      var n := Min(c.want, fill - c.at);
      Cursor(c.out + b[c.at..c.at + n], c.k + 1, 0, c.want - n, Going)
  }

  ghost predicate Between(size: nat, k: nat, pos: nat) {
    Offset(size, k) <= pos < Offset(size, k) + size
  }

  /** GetBuffIndex names the block a position lies in. */
  lemma IndexIsBetween(size: nat, pos: nat)
    requires size > 0
    ensures Between(size, pos / size, pos) && Offset(size, pos / size) + pos % size == pos
  {
    OffsetIsProduct(size, pos / size);
    assert pos == pos / size * size + pos % size;
  }

  /** What is copied so far is the file from pos on. */
  predicate Copied<T(==)>(file: seq<T>, pos: nat, out: seq<T>) {
    pos + |out| <= |file| && out == file[pos..pos + |out|]
  }

  /** Where the loop stands, in file positions: next is the byte to copy next,
      last the index of the last block to visit. */
  predicate OnTrack<T>(size: nat, total: nat, len: nat, last: nat, next: nat, c: Cursor<T>) {
    match c.phase
    case Wild => false
    case AtEnd => next == total && |c.out| <= len && c.k == last
    case Going =>
      && |c.out| + c.want == len
      && (c.want == 0 || next == total || (c.at < size && Offset(size, c.k) + c.at == next))
      && (c.k <= last ==> c.at < size && Offset(size, c.k) + c.at == next)
  }

  lemma SliceGlue<T>(file: seq<T>, pos: nat, out: seq<T>, base: nat, size: nat, i: nat, j: nat)
    requires Copied(file, pos, out) && base + i == pos + |out| && i <= j <= |Slice(file, base, size)|
    ensures Copied(file, pos, out + Slice(file, base, size)[i..j])
  {
    var b := Slice(file, base, size);
    if base < |file| {
      SubSlice(file, base, Min(base + size, |file|), i, j);
      Glue(file, pos, base + i, base + j);
    } else {
      assert b[i..j] == [] && out + [] == out;
    }
  }

  lemma SubSlice<T>(file: seq<T>, lo: nat, hi: nat, i: nat, j: nat)
    requires lo <= hi <= |file| && i <= j <= hi - lo
    ensures file[lo..hi][i..j] == file[lo + i..lo + j]
  {
    var s := file[lo..hi];
    var a, b := s[i..j], file[lo + i..lo + j];
    forall k | 0 <= k < |a|
      ensures a[k] == b[k]
    {
      assert a[k] == s[i + k] == file[lo + (i + k)];
      assert lo + (i + k) == (lo + i) + k && b[k] == file[(lo + i) + k];
    }
  }

  lemma Glue<T>(file: seq<T>, a: nat, b: nat, c: nat)
    requires a <= b <= c <= |file|
    ensures file[a..b] + file[b..c] == file[a..c]
  {
  }

  lemma TakeCopies<T>(file: seq<T>, size: nat, pos: nat, c: Cursor<T>, base: nat)
    requires Copied(file, pos, c.out) && base + c.at == pos + |c.out|
    ensures var b := Slice(file, base, size); Copied(file, pos, Take(b, size, c, |b|).out)
  {
    var b := Slice(file, base, size);
    if c.at == 0 && c.want <= size && |b| < c.want {
      SliceGlue(file, pos, c.out, base, size, 0, |b|);
    } else if c.at <= |b| {
      SliceGlue(file, pos, c.out, base, size, c.at, c.at + Min(c.want, |b| - c.at));
    }
  }

  lemma TakeTracks<T>(size: nat, total: nat, pos: nat, len: nat, last: nat, c: Cursor<T>, b: seq<T>)
    requires Between(size, last, pos + len) && Offset(size, last) <= total
    requires OnTrack(size, total, len, last, pos + |c.out|, c) && c.phase == Going && c.k <= last
    requires pos + |c.out| <= total && |b| == Min(size, total - Offset(size, c.k))
    ensures var r := Take(b, size, c, |b|); OnTrack(size, total, len, last, pos + |r.out|, r)
  {
    if c.k < last {
      OffsetMonotone(size, c.k, last);
    }
    if c.k + 1 < last {
      OffsetMonotone(size, c.k + 1, last);
    }
  }

  ghost predicate Good<T>(file: seq<T>, size: nat, pos: nat, len: nat, last: nat, c: Cursor<T>) {
    Copied(file, pos, c.out) && OnTrack(size, |file|, len, last, pos + |c.out|, c)
  }

  /** A full block keeps the loop on its way. */
  lemma StepGood<T>(file: seq<T>, size: nat, pos: nat, len: nat, last: nat, c: Cursor<T>)
    requires Between(size, last, pos + len) && Offset(size, last) <= |file|
    requires c.phase == Going && c.k <= last && Good(file, size, pos, len, last, c)
    ensures var b := Block(file, size, c.k); Good(file, size, pos, len, last, Take(b, size, c, |b|))
  {
    TakeCopies(file, size, pos, c, Offset(size, c.k));
    TakeTracks(size, |file|, pos, len, last, c, Block(file, size, c.k));
  }

  lemma CompleteIsSlice<T>(file: seq<T>, size: nat, pos: nat, len: nat, last: nat, c: Cursor<T>)
    requires Between(size, last, pos + len) && Good(file, size, pos, len, last, c)
    ensures c.phase == AtEnd || c.k == last + 1 ==> c.out == Slice(file, pos, len)
  {
    assert Offset(size, last + 1) == Offset(size, last) + size;
  }

  // --------------------------------------------------- reads through the cache

  /** The cached blocks from the least recently used on, and those of them whose
      fill failed, so that they sit in their slot with fill size 0. */
  datatype Cache = Cache(order: seq<nat>, failed: set<nat>)

  /** A read gives data, fails, or copies a negative length. */
  datatype Outcome<T> = Got(data: seq<T>) | Failed | Overrun

  datatype Answer<T> = Answer(outcome: Outcome<T>, cache: Cache)

  predicate Cached(c: Cache, k: nat, max: nat) {
    k in Trim(c.order, max)
  }

  /** The cache after block k was asked for; fault tells whether its fill, if it
      needs one, fails. */
  function Visited(c: Cache, k: nat, max: nat, fault: bool): (r: Cache)
    requires max >= 1
  {
    var order := Touch(c.order, k, max);
    var kept := Kept(c.failed, order, k, Cached(c, k, max));
    Cache(order, if !Cached(c, k, max) && fault then kept + {k} else kept)
  }

  /** Of the blocks without data, those that remain so in the new order when block k
      was asked for. */
  function Kept(failed: set<nat>, order: seq<nat>, k: nat, cached: bool): (r: set<nat>)
    ensures forall i | i in order && (i != k || cached) :: i in r <==> i in failed
    ensures !cached ==> k !in r
  {
    set i | i in failed && i in order && (i != k || cached)
  }

  /** The copying loop over the cached blocks. */
  function Loop<T>(file: seq<T>, size: nat, max: nat, faulty: set<nat>, last: nat, cache: Cache,
                   c: Cursor<T>): (r: Answer<T>)
    requires max >= 1
    decreases last + 1 - c.k
  {
    if c.k > last then Answer(Got(c.out), cache)
    else
      var now := Visited(cache, c.k, max, c.k in faulty);
      if !Cached(cache, c.k, max) && c.k in faulty then Answer(Failed, now)
      else
        var b := Block(file, size, c.k);
        var next := Take(b, size, c, if c.k in now.failed then 0 else |b|);
        match next.phase
        case AtEnd => Answer(Got(next.out), now)
        case Wild => Answer(Overrun, now)
        case Going => Loop(file, size, max, faulty, last, now, next)
  }

  lemma LoopEnds<T>(file: seq<T>, size: nat, max: nat, faulty: set<nat>, last: nat, cache: Cache, c: Cursor<T>)
    requires max >= 1 && c.k > last
    ensures Loop(file, size, max, faulty, last, cache, c) == Answer(Got(c.out), cache)
  {
  }

  /** The cursor a read of len bytes at pos in block k starts with. */
  function Start<T>(size: nat, pos: nat, len: nat, k: nat): (c: Cursor<T>)
    requires Offset(size, k) <= pos
  {
    Cursor([], k, pos - Offset(size, k), len, Going)
  }

  // ------------------------------------------------ exactly when a read is right

  /** Nothing goes wrong from block k on: a block in the cache that lacks its data
      is not needed for a byte before end, nor entered at an offset; a block to be
      filled does not fail. */
  predicate Sound(size: nat, max: nat, faulty: set<nat>, last: nat, end: nat, cache: Cache, k: nat, at: nat)
    requires max >= 1
    decreases last + 1 - k
  {
    k <= last ==>
      && (if Cached(cache, k, max) then k !in cache.failed || (at == 0 && Offset(size, k) >= end) else k !in faulty)
      && Sound(size, max, faulty, last, end, Visited(cache, k, max, k in faulty), k + 1, 0)
  }

  /** A file in which every byte is its own position. */
  function Positions(n: nat): (r: seq<nat>)
    ensures |r| == n && forall i | 0 <= i < n :: r[i] == i
  {
    seq(n, i => i)
  }

  /** An unneeded empty block is as good as a full one. */
  lemma UnneededStep<T>(file: seq<T>, size: nat, pos: nat, len: nat, last: nat, c: Cursor<T>)
    requires Between(size, last, pos + len) && Offset(size, last) <= |file|
    requires c.phase == Going && c.k <= last && Good(file, size, pos, len, last, c)
    requires c.at == 0 && Offset(size, c.k) >= Min(pos + len, |file|)
    ensures var b := Block(file, size, c.k); Take(b, size, c, 0) == Take(b, size, c, |b|)
  {
    var b := Block(file, size, c.k);
    if c.want == 0 {
      assert b[..0] == b[0..0] == [];
    } else {
      assert |b| == 0;
    }
  }

  /** Something else than the byte at position pos + n came out there, or nothing. */
  ghost predicate Astray(out: seq<nat>, pos: nat, n: nat) {
    |out| >= n && (|out| > n ==> out[n] != pos + n)
  }

  lemma AstrayIsWrong(total: nat, pos: nat, len: nat, out: seq<nat>, n: nat)
    requires Astray(out, pos, n) && pos + n < Min(pos + len, total)
    ensures out != Slice(Positions(total), pos, len)
  {
    var r := Slice(Positions(total), pos, len);
    assert |r| > n && r[n] == pos + n;
  }

  lemma AstrayStep(total: nat, size: nat, c: Cursor<nat>, fill: nat, pos: nat, n: nat)
    requires Astray(c.out, pos, n) && c.at == 0 && Offset(size, c.k) > pos + n
    requires fill <= |Block(Positions(total), size, c.k)|
    ensures Astray(Take(Block(Positions(total), size, c.k), size, c, fill).out, pos, n)
  {
    var b := Block(Positions(total), size, c.k);
    assert |b| > 0 ==> b[0] == Offset(size, c.k);
  }

  lemma {:induction false} LoopAstray(total: nat, size: nat, max: nat, faulty: set<nat>, last: nat, cache: Cache,
                                      c: Cursor<nat>, pos: nat, n: nat)
    requires max >= 1 && Astray(c.out, pos, n) && c.at == 0 && c.phase == Going && Offset(size, c.k) > pos + n
    ensures var r := Loop(Positions(total), size, max, faulty, last, cache, c).outcome;
            r.Got? ==> Astray(r.data, pos, n)
    decreases last + 1 - c.k
  {
    if c.k <= last {
      var now := Visited(cache, c.k, max, c.k in faulty);
      var b := Block(Positions(total), size, c.k);
      var fill := if c.k in now.failed then 0 else |b|;
      AstrayStep(total, size, c, fill, pos, n);
      var next := Take(b, size, c, fill);
      if next.phase == Going {
        assert Offset(size, c.k + 1) >= Offset(size, c.k);
        LoopAstray(total, size, max, faulty, last, now, next, pos, n);
      }
    }
  }

  lemma TouchHas(q: seq<nat>, k: nat, max: nat)
    requires max >= 1
    ensures k in Touch(q, k, max)
  {
  }

  /** A block visited without a fault lacks its data exactly if it did before and
      was still cached. */
  lemma LacksAfter(cache: Cache, k: nat, max: nat, faulty: set<nat>)
    requires max >= 1 && (Cached(cache, k, max) || k !in faulty)
    ensures k in Visited(cache, k, max, k in faulty).failed <==> Cached(cache, k, max) && k in cache.failed
  {
    TouchHas(cache.order, k, max);
  }

  /** A needed block without its data makes the read wrong. */
  lemma HarmfulStep(total: nat, size: nat, max: nat, faulty: set<nat>, last: nat, now: Cache, c: Cursor<nat>,
                    pos: nat, len: nat)
    requires max >= 1 && size > 0 && c.phase == Going && pos + |c.out| == Offset(size, c.k) + c.at
    requires |c.out| + c.want == len
    requires c.at > 0 || Offset(size, c.k) < Min(pos + len, total)
    ensures var next := Take(Block(Positions(total), size, c.k), size, c, 0);
            match next.phase
            case Wild => true
            case AtEnd => next.out != Slice(Positions(total), pos, len)
            case Going =>
              Loop(Positions(total), size, max, faulty, last, now, next).outcome
              != Got(Slice(Positions(total), pos, len))
  {
    var n := |c.out|;
    var next := Take(Block(Positions(total), size, c.k), size, c, 0);
    if c.at == 0 {
      assert next.out == c.out;
      AstrayIsWrong(total, pos, len, next.out, n);
      if next.phase == Going {
        LoopAstray(total, size, max, faulty, last, now, next, pos, n);
        var r := Loop(Positions(total), size, max, faulty, last, now, next).outcome;
        if r.Got? {
          AstrayIsWrong(total, pos, len, r.data, n);
        }
      }
    }
  }

  /** The outcome after a round that led to next. */
  function Onward<T>(file: seq<T>, size: nat, max: nat, faulty: set<nat>, last: nat, now: Cache,
                     next: Cursor<T>): (r: Outcome<T>)
    requires max >= 1
  {
    match next.phase
    case AtEnd => Got(next.out)
    case Wild => Overrun
    case Going => Loop(file, size, max, faulty, last, now, next).outcome
  }

  lemma LoopRound<T>(file: seq<T>, size: nat, max: nat, faulty: set<nat>, last: nat, cache: Cache, c: Cursor<T>)
    requires max >= 1 && c.k <= last && (Cached(cache, c.k, max) || c.k !in faulty)
    ensures var now, b := Visited(cache, c.k, max, c.k in faulty), Block(file, size, c.k);
            var lacks := Cached(cache, c.k, max) && c.k in cache.failed;
            Loop(file, size, max, faulty, last, cache, c).outcome
            == Onward(file, size, max, faulty, last, now, Take(b, size, c, if lacks then 0 else |b|))
  {
    LacksAfter(cache, c.k, max, faulty);
  }

  lemma SoundRound(size: nat, max: nat, faulty: set<nat>, last: nat, end: nat, cache: Cache, k: nat, at: nat)
    requires max >= 1 && k <= last && (Cached(cache, k, max) || k !in faulty)
    ensures var lacks := Cached(cache, k, max) && k in cache.failed;
            Sound(size, max, faulty, last, end, cache, k, at)
            <==> (lacks ==> at == 0 && Offset(size, k) >= end)
                 && Sound(size, max, faulty, last, end, Visited(cache, k, max, k in faulty), k + 1, 0)
  {
  }

  /** A good round passes the question on to the next one. */
  lemma GoodRound(total: nat, size: nat, max: nat, faulty: set<nat>, last: nat, now: Cache, c: Cursor<nat>,
                  next: Cursor<nat>, pos: nat, len: nat)
    requires max >= 1 && Between(size, last, pos + len) && Offset(size, last) <= total && c.phase == Going
    requires c.k <= last
    requires Good(Positions(total), size, pos, len, last, c)
    requires var b := Block(Positions(total), size, c.k); next == Take(b, size, c, |b|)
    ensures Good(Positions(total), size, pos, len, last, next)
    ensures next.phase == Going ==> next.k == c.k + 1 && next.at == 0
    ensures next.phase != Going ==>
              Onward(Positions(total), size, max, faulty, last, now, next) == Got(Slice(Positions(total), pos, len))
    ensures next.phase != Going ==> c.k == last
  {
    StepGood(Positions(total), size, pos, len, last, c);
    CompleteIsSlice(Positions(total), size, pos, len, last, next);
  }

  ghost predicate ExactAt(total: nat, size: nat, max: nat, faulty: set<nat>, last: nat, cache: Cache, c: Cursor<nat>,
                          pos: nat, len: nat)
    requires max >= 1
  {
    Loop(Positions(total), size, max, faulty, last, cache, c).outcome == Got(Slice(Positions(total), pos, len))
    <==> Sound(size, max, faulty, last, Min(pos + len, total), cache, c.k, c.at)
  }

  /** Where the read stands when block c.k is next. */
  ghost predicate Midway(total: nat, size: nat, last: nat, c: Cursor<nat>, pos: nat, len: nat) {
    && size > 0 && pos < total && Between(size, last, pos + len) && Offset(size, last) <= total
    && c.phase == Going && c.k <= last + 1 && Good(Positions(total), size, pos, len, last, c)
  }

  lemma ExactAtEnd(total: nat, size: nat, max: nat, faulty: set<nat>, last: nat, cache: Cache, c: Cursor<nat>,
                   pos: nat, len: nat)
    requires max >= 1 && Midway(total, size, last, c, pos, len) && c.k > last
    ensures ExactAt(total, size, max, faulty, last, cache, c, pos, len)
  {
    CompleteIsSlice(Positions(total), size, pos, len, last, c);
  }

  lemma ExactAtFault(total: nat, size: nat, max: nat, faulty: set<nat>, last: nat, cache: Cache, c: Cursor<nat>,
                     pos: nat, len: nat)
    requires max >= 1 && c.k <= last && !Cached(cache, c.k, max) && c.k in faulty
    ensures ExactAt(total, size, max, faulty, last, cache, c, pos, len)
  {
  }

  predicate Lacks(cache: Cache, k: nat, max: nat) {
    Cached(cache, k, max) && k in cache.failed
  }

  lemma ExactAtHarm(total: nat, size: nat, max: nat, faulty: set<nat>, last: nat, cache: Cache, c: Cursor<nat>,
                    pos: nat, len: nat)
    requires max >= 1 && Midway(total, size, last, c, pos, len) && c.k <= last && Lacks(cache, c.k, max)
    requires c.at > 0 || Offset(size, c.k) < Min(pos + len, total)
    ensures ExactAt(total, size, max, faulty, last, cache, c, pos, len)
  {
    LoopRound(Positions(total), size, max, faulty, last, cache, c);
    SoundRound(size, max, faulty, last, Min(pos + len, total), cache, c.k, c.at);
    HarmfulStep(total, size, max, faulty, last, Visited(cache, c.k, max, c.k in faulty), c, pos, len);
  }

  lemma ExactAtGood(total: nat, size: nat, max: nat, faulty: set<nat>, last: nat, cache: Cache, c: Cursor<nat>,
                    pos: nat, len: nat, now: Cache, next: Cursor<nat>)
    requires max >= 1 && Midway(total, size, last, c, pos, len) && c.k <= last
    requires (Cached(cache, c.k, max) || c.k !in faulty)
    requires Lacks(cache, c.k, max) ==> c.at == 0 && Offset(size, c.k) >= Min(pos + len, total)
    requires now == Visited(cache, c.k, max, c.k in faulty)
    requires var b := Block(Positions(total), size, c.k); next == Take(b, size, c, |b|)
    requires next.phase == Going ==> ExactAt(total, size, max, faulty, last, now, next, pos, len)
    ensures ExactAt(total, size, max, faulty, last, cache, c, pos, len)
  {
    LoopRound(Positions(total), size, max, faulty, last, cache, c);
    SoundRound(size, max, faulty, last, Min(pos + len, total), cache, c.k, c.at);
    if Lacks(cache, c.k, max) {
      UnneededStep(Positions(total), size, pos, len, last, c);
    }
    GoodRound(total, size, max, faulty, last, now, c, next, pos, len);
  }

  /** A read through the cache delivers the positions asked for if and only if
      nothing goes wrong on its way. */
  lemma {:induction false} LoopExact(total: nat, size: nat, max: nat, faulty: set<nat>, last: nat, cache: Cache,
                                     c: Cursor<nat>, pos: nat, len: nat)
    requires max >= 1 && Midway(total, size, last, c, pos, len)
    ensures ExactAt(total, size, max, faulty, last, cache, c, pos, len)
    decreases last + 1 - c.k
  {
    if c.k > last {
      ExactAtEnd(total, size, max, faulty, last, cache, c, pos, len);
    } else if !Cached(cache, c.k, max) && c.k in faulty {
      ExactAtFault(total, size, max, faulty, last, cache, c, pos, len);
    } else if Lacks(cache, c.k, max) && (c.at > 0 || Offset(size, c.k) < Min(pos + len, total)) {
      ExactAtHarm(total, size, max, faulty, last, cache, c, pos, len);
    } else {
      var now, b := Visited(cache, c.k, max, c.k in faulty), Block(Positions(total), size, c.k);
      var next := Take(b, size, c, |b|);
      GoodRound(total, size, max, faulty, last, now, c, next, pos, len);
      if next.phase == Going {
        LoopExact(total, size, max, faulty, last, now, next, pos, len);
      }
      ExactAtGood(total, size, max, faulty, last, cache, c, pos, len, now, next);
    }
  }

  // -------------------------------------------- the same loop over other files

  /** The data are those at the positions. */
  predicate Shows<T(==)>(file: seq<T>, positions: seq<nat>, data: seq<T>) {
    |positions| == |data| && forall i | 0 <= i < |data| :: positions[i] < |file| && data[i] == file[positions[i]]
  }

  ghost predicate SameCursor<T>(file: seq<T>, p: Cursor<nat>, c: Cursor<T>) {
    Shows(file, p.out, c.out) && p.k == c.k && p.at == c.at && p.want == c.want && p.phase == c.phase
  }

  lemma BlockShows<T>(file: seq<T>, size: nat, k: nat)
    ensures Shows(file, Block(Positions(|file|), size, k), Block(file, size, k))
  {
  }

  lemma ShowsMore<T>(file: seq<T>, ps: seq<nat>, ds: seq<T>, q: seq<nat>, b: seq<T>, i: nat, j: nat)
    requires Shows(file, ps, ds) && Shows(file, q, b) && i <= j <= |b|
    ensures Shows(file, ps + q[i..j], ds + b[i..j])
  {
  }

  lemma TakeShows<T>(file: seq<T>, size: nat, p: Cursor<nat>, c: Cursor<T>, q: seq<nat>, b: seq<T>, fill: nat)
    requires SameCursor(file, p, c) && Shows(file, q, b) && fill <= |b|
    ensures SameCursor(file, Take(q, size, p, fill), Take(b, size, c, fill))
  {
    if c.at == 0 && c.want <= size && fill < c.want {
      ShowsMore(file, p.out, c.out, q, b, 0, fill);
    } else if c.at <= fill {
      ShowsMore(file, p.out, c.out, q, b, c.at, c.at + Min(c.want, fill - c.at));
    }
  }

  /** What a read delivers from a file is what is found at the positions it
      delivers. */
  lemma {:induction false} LoopShows<T>(file: seq<T>, size: nat, max: nat, faulty: set<nat>, last: nat, cache: Cache,
                                        p: Cursor<nat>, c: Cursor<T>)
    requires max >= 1 && SameCursor(file, p, c)
    ensures var r := Loop(file, size, max, faulty, last, cache, c);
            var q := Loop(Positions(|file|), size, max, faulty, last, cache, p);
            && r.cache == q.cache && (r.outcome.Failed? <==> q.outcome.Failed?)
            && (r.outcome.Overrun? <==> q.outcome.Overrun?)
            && (r.outcome.Got? ==> Shows(file, q.outcome.data, r.outcome.data))
    decreases last + 1 - c.k
  {
    if c.k <= last {
      var now := Visited(cache, c.k, max, c.k in faulty);
      var b := Block(file, size, c.k);
      var fill := if c.k in now.failed then 0 else |b|;
      var q := Block(Positions(|file|), size, c.k);
      BlockShows(file, size, c.k);
      TakeShows(file, size, p, c, q, b, fill);
      var next := Take(b, size, c, fill);
      if next.phase == Going {
        LoopShows(file, size, max, faulty, last, now, Take(q, size, p, fill), next);
      }
    }
  }

  lemma ShowsSlice<T>(file: seq<T>, pos: nat, len: nat, data: seq<T>)
    requires Shows(file, Slice(Positions(|file|), pos, len), data)
    ensures data == Slice(file, pos, len)
  {
  }

  /** ReadFromCache as a function of the cache. */
  function CacheRead<T>(file: seq<T>, size: nat, max: nat, cache: Cache, faulty: set<nat>, pos: nat,
                        len: nat): (r: Answer<T>)
    requires max >= 1 && size > 0
  {
    if pos >= |file| then Answer(Got([]), cache)
    else
      IndexIsBetween(size, pos);
      Loop(file, size, max, faulty, (pos + len) / size, cache, Start(size, pos, len, pos / size))
  }

  /** The condition under which it is right. */
  predicate SoundRead(size: nat, max: nat, total: nat, cache: Cache, faulty: set<nat>, pos: nat, len: nat)
    requires max >= 1 && size > 0
  {
    pos < total ==> Sound(size, max, faulty, (pos + len) / size, Min(pos + len, total), cache, pos / size, pos % size)
  }

  lemma IndexOrder(size: nat, pos: nat, len: nat, total: nat)
    requires size > 0 && (pos + len) / size <= total / size
    ensures pos / size <= (pos + len) / size && Between(size, pos / size, pos)
    ensures Between(size, (pos + len) / size, pos + len) && Offset(size, (pos + len) / size) <= total
  {
    var first, last := pos / size, (pos + len) / size;
    IndexIsBetween(size, pos);
    IndexIsBetween(size, pos + len);
    IndexIsBetween(size, total);
    if last < total / size {
      OffsetMonotone(size, last, total / size);
    }
    if last < first {
      OffsetMonotone(size, last, first);
    }
  }

  /** The data come from the given positions, and these are the ones asked for
      exactly if the read is sound. */
  ghost predicate Right<T>(file: seq<T>, pos: nat, len: nat, r: Outcome<T>, from: seq<nat>, sound: bool) {
    && (r.Got? ==> Shows(file, from, r.data))
    && (r.Got? && from == Slice(Positions(|file|), pos, len) <==> sound)
    && (sound ==> r == Got(Slice(file, pos, len)))
  }

  lemma LoopIsRight<T>(file: seq<T>, size: nat, max: nat, faulty: set<nat>, last: nat, cache: Cache, pos: nat,
                       len: nat, k: nat)
    returns (from: seq<nat>)
    requires max >= 1 && size > 0 && pos < |file| && Between(size, last, pos + len) && Offset(size, last) <= |file|
    requires Between(size, k, pos) && k <= last
    ensures Right(file, pos, len, Loop(file, size, max, faulty, last, cache, Start(size, pos, len, k)).outcome, from,
                  Sound(size, max, faulty, last, Min(pos + len, |file|), cache, k, pos - Offset(size, k)))
  {
    var p: Cursor<nat> := Start(size, pos, len, k);
    LoopExact(|file|, size, max, faulty, last, cache, p, pos, len);
    LoopShows(file, size, max, faulty, last, cache, p, Start(size, pos, len, k));
    var q := Loop(Positions(|file|), size, max, faulty, last, cache, p).outcome;
    from := if q.Got? then q.data else [];
    var r := Loop(file, size, max, faulty, last, cache, Start(size, pos, len, k)).outcome;
    if r.Got? && from == Slice(Positions(|file|), pos, len) {
      ShowsSlice(file, pos, len, r.data);
    }
  }

  /** A read through the cache is right exactly when it is sound. */
  lemma CacheReadExact<T>(file: seq<T>, size: nat, max: nat, cache: Cache, faulty: set<nat>, pos: nat, len: nat)
    returns (from: seq<nat>)
    requires max >= 1 && size > 0 && (pos + len) / size <= |file| / size
    ensures Right(file, pos, len, CacheRead(file, size, max, cache, faulty, pos, len).outcome, from,
                  SoundRead(size, max, |file|, cache, faulty, pos, len))
  {
    if pos >= |file| {
      from := [];
    } else {
      IndexIsBetween(size, pos);
      IndexOrder(size, pos, len, |file|);
      from := LoopIsRight(file, size, max, faulty, (pos + len) / size, cache, pos, len, pos / size);
    }
  }

  // ------------------------------------------------------- when no fill fails

  lemma VisitedClean(order: seq<nat>, k: nat, max: nat)
    requires max >= 1
    ensures Visited(Cache(order, {}), k, max, false).failed == {}
  {
  }

  lemma {:induction false} CleanSound(size: nat, max: nat, last: nat, end: nat, order: seq<nat>, k: nat, at: nat)
    requires max >= 1
    ensures Sound(size, max, {}, last, end, Cache(order, {}), k, at)
    decreases last + 1 - k
  {
    if k <= last {
      VisitedClean(order, k, max);
      CleanSound(size, max, last, end, Visited(Cache(order, {}), k, max, false).order, k + 1, 0);
    }
  }

  lemma {:induction false} CleanLoop<T>(file: seq<T>, size: nat, max: nat, last: nat, order: seq<nat>, c: Cursor<T>)
    requires max >= 1
    ensures Loop(file, size, max, {}, last, Cache(order, {}), c).cache.failed == {}
    decreases last + 1 - c.k
  {
    if c.k <= last {
      VisitedClean(order, c.k, max);
      var now, b := Visited(Cache(order, {}), c.k, max, false), Block(file, size, c.k);
      var next := Take(b, size, c, |b|);
      if next.phase == Going {
        CleanLoop(file, size, max, last, now.order, next);
      }
    }
  }

  /** A read without faults of a cache without failed blocks is sound and leaves it
      so. */
  lemma CleanRead<T>(file: seq<T>, size: nat, max: nat, order: seq<nat>, pos: nat, len: nat)
    requires max >= 1 && size > 0
    ensures SoundRead(size, max, |file|, Cache(order, {}), {}, pos, len)
    ensures CacheRead(file, size, max, Cache(order, {}), {}, pos, len).cache.failed == {}
  {
    if pos < |file| {
      IndexIsBetween(size, pos);
      CleanSound(size, max, (pos + len) / size, Min(pos + len, |file|), order, pos / size, pos % size);
      CleanLoop(file, size, max, (pos + len) / size, order, Start(size, pos, len, pos / size));
    }
  }

  // ------------------------------------------------------- after a failed fill

  /** The first block of an empty cache fails to fill. */
  lemma FirstFillFails<T>(file: seq<T>, size: nat, max: nat)
    requires max >= 1 && size > 0 && file != []
    ensures CacheRead(file, size, max, Cache([], {}), {0}, 0, 1) == Answer(Failed, Cache([0], {0}))
  {
    assert 0 / size == 0;
    var now := Visited(Cache([], {}), 0, max, true);
    assert now.order == [0] && now.failed == {0};
  }

  /** A block of the file that follows on what was copied. */
  lemma FreshRound<T>(file: seq<T>, size: nat, max: nat, last: nat, cache: Cache, c: Cursor<T>)
    requires max >= 1 && c.k <= last && c.k !in cache.failed && c.at == 0 && c.phase == Going
    requires |Block(file, size, c.k)| == size <= c.want
    ensures var next := Cursor(c.out + Block(file, size, c.k), c.k + 1, 0, c.want - size, Going);
            Loop(file, size, max, {}, last, cache, c).outcome
            == Loop(file, size, max, {}, last, Visited(cache, c.k, max, false), next).outcome
  {
    LoopRound(file, size, max, {}, last, cache, c);
    var b := Block(file, size, c.k);
    assert b[0..size] == b;
  }

  /** A read of the first two blocks then gives the second and third one. */
  lemma LoopShifts<T>(file: seq<T>, size: nat, max: nat)
    requires max >= 1 && size > 0 && |file| >= 3 * size
    ensures Loop(file, size, max, {}, 2, Cache([0], {0}), Cursor([], 0, 0, 2 * size, Going)).outcome
         == Got(Slice(file, size, 2 * size))
  {
    TwoBlocks(file, size);
    var c0: Cursor<T> := Cursor([], 0, 0, 2 * size, Going);
    var cache0 := Cache([0], {0});
    LoopRound(file, size, max, {}, 2, cache0, c0);
    var cache1, c1 := Visited(cache0, 0, max, false), c0.(k := 1);
    assert Take(Block(file, size, 0), size, c0, 0) == c1;
    assert 1 !in cache1.failed;
    FreshRound(file, size, max, 2, cache1, c1);
    var cache2 := Visited(cache1, 1, max, false);
    var c2 := Cursor([] + Block(file, size, 1), 2, 0, size, Going);
    assert 2 !in cache2.failed;
    FreshRound(file, size, max, 2, cache2, c2);
    var c3 := Cursor(c2.out + Block(file, size, 2), 3, 0, 0, Going);
    LoopEnds(file, size, max, {}, 2, Visited(cache2, 2, max, false), c3);
  }

  lemma TwoBlocks<T>(file: seq<T>, size: nat)
    requires |file| >= 3 * size
    ensures |Block(file, size, 1)| == |Block(file, size, 2)| == size
    ensures [] + Block(file, size, 1) + Block(file, size, 2) == Slice(file, size, 2 * size)
  {
    assert Offset(size, 1) == size && Offset(size, 2) == 2 * size;
  }

  lemma FailedReadShifts<T>(file: seq<T>, size: nat, max: nat)
    requires max >= 1 && size > 0 && |file| >= 3 * size
    ensures CacheRead(file, size, max, Cache([0], {0}), {}, 0, 2 * size).outcome == Got(Slice(file, size, 2 * size))
  {
    assert 0 / size == 0 && 2 * size / size == 2;
    LoopShifts(file, size, max);
  }

  /** A read that starts inside a cached block without data copies a negative
      length. */
  lemma LackingOverruns<T>(file: seq<T>, size: nat, max: nat, cache: Cache, faulty: set<nat>, pos: nat, len: nat)
    requires max >= 1 && size > 0 && pos < |file| && pos % size > 0 && Lacks(cache, pos / size, max)
    ensures CacheRead(file, size, max, cache, faulty, pos, len).outcome == Overrun
  {
    IndexIsBetween(size, pos);
    IndexIsBetween(size, pos + len);
    var k, last := pos / size, (pos + len) / size;
    if last < k {
      OffsetMonotone(size, last, k);
    }
    LoopRound(file, size, max, faulty, last, cache, Start(size, pos, len, k));
  }
}
