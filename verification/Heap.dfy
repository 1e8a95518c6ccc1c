/**
 The binary min-heap of CFCore/Heap.cpp that holds the timers of a task thread.
 Slot 0 is unused; the children of slot i are 2i and 2i + 1.
 */
module Heaps {

  class HeapElem {
    var value: int
    var owner: Heap?          // fCurrentHeap

    constructor (value: int)
      ensures this.value == value && owner == null
    {
      this.value := value;
      owner := null;
    }
  }

  /** heapUpdateFlagExpectUp and heapUpdateFlagExpectDown are the two low bits. */
  predicate HasUp(flag: nat) { flag % 2 == 1 }
  predicate HasDown(flag: nat) { flag / 2 % 2 == 1 }

  /** The two flags are told apart in any combination. */
  lemma FlagBits(up: bool, down: bool, more: nat)
    ensures var flag := (if up then 1 else 0) + (if down then 2 else 0) + 4 * more;
            (HasUp(flag) <==> up) && (HasDown(flag) <==> down)
  {
  }

  // ------------------------------------------------- heap order on slot values

  /** No child is smaller than its parent, except that the slot child and the
      children of the slot parent are left out. */
  ghost predicate OrderedBut(v: seq<int>, child: nat, parent: nat) {
    forall j | 2 <= j < |v| && j != child && j / 2 != parent :: v[j / 2] <= v[j]
  }

  ghost predicate Ordered(v: seq<int>) {
    OrderedBut(v, 0, 0)
  }

  /** Children of slot k are not smaller than the parent of k. */
  ghost predicate Bridged(v: seq<int>, k: nat) {
    forall j | 2 <= j < |v| && j / 2 == k && 1 <= k / 2 :: v[k / 2] <= v[j]
  }

  function Swapped(v: seq<int>, i: nat, j: nat): (r: seq<int>)
    requires i < |v| && j < |v|
  {
    v[i := v[j]][j := v[i]]
  }

  lemma SwapUp(v: seq<int>, i: nat)
    requires 2 <= i < |v| && OrderedBut(v, i, 0) && Bridged(v, i) && v[i] < v[i / 2]
    ensures var r := Swapped(v, i, i / 2); OrderedBut(r, i / 2, 0) && Bridged(r, i / 2)
  {
  }

  /** The smaller child is moved up over a larger parent. */
  lemma SwapDown(v: seq<int>, i: nat, c: nat)
    requires 1 <= i && c < |v| && c / 2 == i && OrderedBut(v, 0, i) && Bridged(v, i) && v[c] < v[i]
    requires forall j | 2 <= j < |v| && j / 2 == i :: v[c] <= v[j]
    ensures var r := Swapped(v, i, c); OrderedBut(r, 0, c) && Bridged(r, c)
  {
  }

  /** The children of slot k, if any, are not smaller than k. */
  ghost predicate Low(v: seq<int>, k: nat) {
    forall j | 2 <= j < |v| && j / 2 == k :: v[k] <= v[j]
  }

  /** Slot k is in its place with respect to its parent. */
  predicate Fits(v: seq<int>, k: nat) {
    k >= |v| || k <= 1 || v[k / 2] <= v[k]
  }

  /** Where sifting down from slot k stands: still on the way, or stuck at once
      because k was smaller than its parent. */
  ghost predicate Sifting(before: seq<int>, v: seq<int>, k: nat, at: nat) {
    if Fits(before, k) then OrderedBut(v, 0, at) && Bridged(v, at) else at == k && v == before
  }

  lemma SiftStarts(v: seq<int>, k: nat)
    requires 1 <= k && OrderedBut(v, k, k) && Bridged(v, k)
    ensures Sifting(v, v, k, k)
  {
  }

  lemma SiftStuck(v: seq<int>, k: nat)
    requires 1 <= k && Bridged(v, k) && !Fits(v, k)
    ensures Low(v, k) && !Ordered(v)
  {
    assert k != 0 && k / 2 != 0;
  }

  lemma SiftSettles(v: seq<int>, at: nat)
    requires 1 <= at && OrderedBut(v, 0, at) && (at < |v| ==> Low(v, at))
    ensures Ordered(v)
  {
  }

  /** The slot values after the last leaf has been moved into slot i. */
  function LastMovedTo(v: seq<int>, i: nat): (r: seq<int>)
    requires i < |v|
  {
    v[i := v[|v| - 1]][..|v| - 1]
  }

  /** The condition under which taking slot i out keeps heap order: it is the
      root or the last leaf, or the last leaf is not smaller than its parent. */
  predicate Survives(v: seq<int>, i: nat)
    requires 1 <= i < |v|
  {
    i == |v| - 1 || i == 1 || v[i / 2] <= v[|v| - 1]
  }

  lemma ExtractReady(v: seq<int>, i: nat)
    requires Ordered(v) && 1 <= i < |v|
    ensures var w := LastMovedTo(v, i);
            && OrderedBut(w, i, i) && Bridged(w, i)
            && (Fits(w, i) <==> Survives(v, i))
  {
    var w := LastMovedTo(v, i);
    forall j | 2 <= j < |w| && j / 2 == i && 1 <= i / 2
      ensures w[i / 2] <= w[j]
    {
      assert v[i / 2] <= v[i] <= v[j];
    }
  }

  /** Removing the element in slot 4 of this heap leaves 4 below 10. */
  lemma RemovalBreaksOrder()
    ensures var v := [0, 1, 10, 2, 11, 12, 3, 4];
            Ordered(v) && !Survives(v, 4) && !Fits(LastMovedTo(v, 4), 4) && !Ordered(LastMovedTo(v, 4))
  {
    var v := [0, 1, 10, 2, 11, 12, 3, 4];
    assert v[1] <= v[2] && v[1] <= v[3] && v[2] <= v[4] && v[2] <= v[5] && v[3] <= v[6] && v[3] <= v[7];
    ExtractReady(v, 4);
    SiftStuck(LastMovedTo(v, 4), 4);
  }

  /** A new value in one slot leaves only that slot out of order. */
  lemma ValueReady(v: seq<int>, i: nat, x: int)
    requires Ordered(v) && 1 <= i < |v|
    ensures OrderedBut(v[i := x], i, i) && Bridged(v[i := x], i)
    ensures x <= v[i] ==> OrderedBut(v[i := x], i, 0)
    ensures x >= v[i] ==> Fits(v[i := x], i)
  {
    var w := v[i := x];
    forall j | 2 <= j < |w| && j / 2 == i && 1 <= i / 2
      ensures w[i / 2] <= w[j]
    {
      assert v[i / 2] <= v[i] <= v[j];
    }
  }

  lemma LeafReady(v: seq<int>, x: int)
    requires Ordered(v) && |v| >= 1
    ensures OrderedBut(v + [x], |v|, 0) && Bridged(v + [x], |v|)
  {
  }

  /** The root is a smallest element. */
  lemma {:induction false} RootSmallest(v: seq<int>, i: nat)
    requires Ordered(v) && 1 <= i < |v|
    ensures v[1] <= v[i]
  {
    if i > 1 {
      RootSmallest(v, i / 2);
    }
  }

  class Heap {
    var a: array<HeapElem?>
    var free: nat                           // fFreeIndex: one past the last leaf
    ghost var pos: map<HeapElem, nat>       // the members, each with its slot
    ghost var vals: seq<int>                // the value in each slot

    /** Slots below n and members are in bijection; vals shows the values. */
    ghost predicate Placed(n: nat)
      reads this, a, pos.Keys
    {
      && 1 <= n <= a.Length && |vals| == n
      && (forall i | 1 <= i < n :: a[i] != null && a[i] in pos && pos[a[i]] == i)
      && (forall e | e in pos :: 1 <= pos[e] < n && a[pos[e]] == e && vals[pos[e]] == e.value)
    }

    ghost predicate Tagged()
      reads this, pos.Keys
    {
      forall e | e in pos :: e.owner == this
    }

    ghost predicate Valid()
      reads this, a, pos.Keys
    {
      Placed(free) && Tagged() && Ordered(vals)
    }

    constructor (startSize: nat)
      ensures Valid() && pos == map[] && fresh(a) && a.Length == if startSize < 2 then 2 else startSize
    {
      a := new HeapElem?[if startSize < 2 then 2 else startSize](_ => null);
      free := 1;
      pos := map[];
      vals := [0];
    }

    method Swap(i: nat, j: nat, ghost n: nat)
      requires Placed(n) && 1 <= i < n && 1 <= j < n && i != j
      modifies a, this`pos, this`vals
      ensures Placed(n) && pos.Keys == old(pos.Keys) && vals == Swapped(old(vals), i, j)
    {
      var x, y := a[i], a[j];
      a[i], a[j] := y, x;
      vals := Swapped(vals, i, j);
      pos := pos[x := j][y := i];
    }

    /** Bubbles slot k up, given that only k may be smaller than its parent. */
    method ShiftUp(k: nat, ghost n: nat)
      requires Placed(n) && 1 <= k < n && OrderedBut(vals, k, 0) && Bridged(vals, k)
      modifies a, this`pos, this`vals
      ensures Placed(n) && pos.Keys == old(pos.Keys) && Ordered(vals)
    {
      var i := k;
      while i > 1
        invariant 1 <= i <= k && Placed(n) && pos.Keys == old(pos.Keys)
        invariant OrderedBut(vals, i, 0) && Bridged(vals, i)
      {
        var p := i / 2;
        if a[i].value < a[p].value {
          SwapUp(vals, i);
          Swap(i, p, n);
          i := p;
        } else {
          return;
        }
      }
    }

    /** The comparisons of one round of ShiftDown. */
    method Smallest(parent: nat) returns (c: nat)
      requires Placed(free) && 1 <= parent < free
      ensures c < free && (c == parent ==> Low(vals, parent))
      ensures c != parent ==> c / 2 == parent && vals[c] < vals[parent]
      ensures c != parent ==> forall j | 2 <= j < |vals| && j / 2 == parent :: vals[c] <= vals[j]
    {
      c := parent;
      var left, right := parent * 2, parent * 2 + 1;
      if left < free && a[left].value < a[parent].value {
        c := left;
      }
      if right < free && a[right].value < a[c].value {
        c := right;
      }
      assert vals[parent] == a[parent].value && (left < free ==> vals[left] == a[left].value);
      assert right < free ==> vals[right] == a[right].value;
      assert forall j | 2 <= j < |vals| && j / 2 == parent :: j == left || j == right;
    }

    /** Bubbles slot k down.  The result is in heap order if and only if k was not
        smaller than its own parent; if it was, nothing moves. */
    method ShiftDown(k: nat)
      requires Placed(free) && 1 <= k && OrderedBut(vals, k, k) && Bridged(vals, k)
      modifies a, this`pos, this`vals
      ensures Placed(free) && pos.Keys == old(pos.Keys)
      ensures Ordered(vals) <==> old(Fits(vals, k))
    {
      ghost var before := vals;
      var parent := k;
      SiftStarts(vals, k);
      if !Fits(vals, k) {
        SiftStuck(vals, k);
      }
      while parent < free
        invariant 1 <= parent && Placed(free) && pos.Keys == old(pos.Keys) && Sifting(before, vals, k, parent)
        decreases free - parent
      {
        var c := Smallest(parent);
        if c == parent {
          break;
        }
        SwapDown(vals, parent, c);
        Swap(parent, c, free);
        parent := c;
      }
      if Fits(before, k) {
        SiftSettles(vals, parent);
      }
    }

    /** Doubles the array when it is full, as Insert does first. */
    method MakeRoom()
      requires Placed(free)
      modifies this`a
      ensures Placed(free) && free < a.Length && (a == old(a) || fresh(a))
      ensures a.Length == if free == old(a.Length) then 2 * old(a.Length) else old(a.Length)
    {
      if free >= a.Length {
        var bigger := new HeapElem?[a.Length * 2](_ => null);
        for i := 0 to free
          invariant a == old(a) && Placed(free) && free < bigger.Length && fresh(bigger)
          invariant forall j | 0 <= j < i :: bigger[j] == a[j]
        {
          bigger[i] := a[i];
        }
        a := bigger;
      }
    }

    method PlaceLeaf(e: HeapElem)
      requires Placed(free) && free < a.Length && e !in pos
      modifies a, this`pos, this`vals
      ensures Placed(free + 1) && pos.Keys == old(pos.Keys) + {e} && vals == old(vals) + [e.value]
    {
      a[free] := e;
      pos, vals := pos[e := free], vals + [e.value];
    }

    method AddLeaf(e: HeapElem)
      requires Placed(free) && Ordered(vals) && free < a.Length && e !in pos
      modifies a, this`pos, this`vals
      ensures Placed(free + 1) && pos.Keys == old(pos.Keys) + {e} && Ordered(vals)
    {
      LeafReady(vals, e.value);
      PlaceLeaf(e);
      ShiftUp(free, free + 1);
    }

    method Insert(e: HeapElem)
      requires Valid() && e.owner == null
      modifies this, a, e`owner
      ensures Valid() && pos.Keys == old(pos.Keys) + {e} && e !in old(pos) && (a == old(a) || fresh(a))
      ensures a.Length == if old(free == a.Length) then 2 * old(a.Length) else old(a.Length)
    {
      MakeRoom();
      AddLeaf(e);
      e.owner := this;
      free := free + 1;
    }

    /** Moves the last leaf into slot i, whose element leaves the heap. */
    method MoveLastTo(i: nat)
      requires Placed(free) && 1 <= i < free
      modifies a, this`free, this`pos, this`vals
      ensures free == old(free) - 1 && Placed(free)
      ensures pos.Keys == old(pos.Keys) - {old(a[i])} && vals == LastMovedTo(old(vals), i)
    {
      var victim, last := a[i], a[free - 1];
      a[i] := last;
      free := free - 1;
      pos := pos[last := i] - {victim};
      vals := LastMovedTo(vals, i);
    }

    /** Takes slot i out and moves the last leaf there; null if there is no such
        slot.  Heap order survives if and only if the leaf is not smaller than the
        parent of the slot. */
    method Extract(i: nat) returns (victim: HeapElem?)
      requires Valid() && 1 <= i
      modifies this, a, pos.Keys`owner
      ensures Placed(free) && Tagged() && a == old(a) && (victim == null <==> old(free) <= i)
      ensures victim == null ==> pos == old(pos) && vals == old(vals)
      ensures victim != null ==> victim == old(a[i]) && victim.owner == null && pos.Keys == old(pos.Keys) - {victim}
      ensures Ordered(vals) <==> old(i < free ==> Survives(vals, i))
    {
      if free <= i {
        return null;
      }
      ghost var before := vals;
      ExtractReady(vals, i);
      victim := a[i];
      victim.owner := null;
      MoveLastTo(i);
      ShiftDown(i);
    }

    /** ExtractMin: the root, a smallest member, or null from an empty heap. */
    method ExtractMin() returns (e: HeapElem?)
      requires Valid()
      modifies this, a, pos.Keys`owner
      ensures Valid() && a == old(a)
      ensures (e == null <==> old(pos) == map[]) && (e == null ==> pos == old(pos))
      ensures e != null ==> e in old(pos) && e.owner == null && pos.Keys == old(pos.Keys) - {e}
      ensures e != null ==> forall x | x in old(pos) :: old(e.value) <= old(x.value)
      ensures forall x | x in old(pos) :: x.value == old(x.value)
    {
      forall x | x in pos
        ensures vals[1] <= x.value
      {
        RootSmallest(vals, pos[x]);
      }
      assert free > 1 ==> a[1] in pos;
      e := Extract(1);
    }

    method Find(e: HeapElem) returns (i: nat)
      requires Placed(free)
      ensures if e in pos then i == pos[e] else i == free
    {
      i := 1;
      while i < free && a[i] != e
        invariant 1 <= i <= free && forall j | 1 <= j < i :: a[j] != e
      {
        i := i + 1;
      }
    }

    /** Remove: takes exactly e out and keeps every other element; heap order
        survives exactly under the condition of Survives. */
    method Remove(e: HeapElem?) returns (r: HeapElem?)
      requires Valid()
      modifies this, a, pos.Keys`owner
      ensures Placed(free) && Tagged() && a == old(a)
      ensures if e == null || e !in old(pos) then r == null && pos == old(pos) && Ordered(vals)
              else r == e && e.owner == null && pos.Keys == old(pos.Keys) - {e}
      ensures e != null && e in old(pos) ==> (Ordered(vals) <==> Survives(old(vals), old(pos)[e]))
    {
      r := null;
      if free <= 1 || e == null || e.owner == null {
        return;
      }
      var i := Find(e);
      if i == free {
        return;
      }
      r := Extract(i);
    }

    /** Update: the new value takes effect unless a flag says it goes the wrong
        way; heap order and the other values stay. */
    method Update(e: HeapElem?, value: int, flag: nat)
      requires Valid()
      modifies this`pos, this`vals, a, pos.Keys`value
      ensures Valid() && pos.Keys == old(pos.Keys)
      ensures forall x | x in old(pos) && x != e :: x.value == old(x.value)
      ensures e != null && e in old(pos) ==>
                e.value ==
                if (value < old(e.value) && !HasDown(flag)) || (value > old(e.value) && !HasUp(flag)) then value
                else old(e.value)
    {
      if free <= 1 || e == null {
        return;
      }
      var i := Find(e);
      if i == free {
        return;
      }
      if value < e.value {
        if HasDown(flag) {
          return;
        }
        Lower(i, e, value);
      } else if value > e.value {
        if HasUp(flag) {
          return;
        }
        Raise(i, e, value);
      }
    }

    method Lower(i: nat, e: HeapElem, value: int)
      requires Valid() && e in pos && pos[e] == i && value <= e.value
      modifies this`pos, this`vals, a, e`value
      ensures Valid() && pos.Keys == old(pos.Keys) && e.value == value
    {
      SetSlot(i, e, value);
      ShiftUp(i, free);
    }

    method Raise(i: nat, e: HeapElem, value: int)
      requires Valid() && e in pos && pos[e] == i && value >= e.value
      modifies this`pos, this`vals, a, e`value
      ensures Valid() && pos.Keys == old(pos.Keys) && e.value == value
    {
      SetSlot(i, e, value);
      ShiftDown(i);
    }

    method SetSlot(i: nat, e: HeapElem, value: int)
      requires Placed(free) && Ordered(vals) && e in pos && pos[e] == i
      modifies e`value, this`vals
      ensures Placed(free) && e.value == value && vals == old(vals)[i := value]
      ensures OrderedBut(vals, i, i) && Bridged(vals, i)
      ensures value <= old(e.value) ==> OrderedBut(vals, i, 0)
      ensures value >= old(e.value) ==> Fits(vals, i)
    {
      ValueReady(vals, i, value);
      e.value := value;
      vals := vals[i := value];
    }
  }

  /** Out holds the members taken so far, in order of the values v and none
      larger than a member of left. */
  ghost predicate Drained(v: map<HeapElem, int>, out: seq<HeapElem>, left: set<HeapElem>) {
    && left <= v.Keys && |out| + |left| == |v.Keys|
    && (forall e | e in v :: e in out || e in left)
    && (forall e | e in out :: e in v && e !in left)
    && (forall i, j | 0 <= i < j < |out| :: v[out[i]] <= v[out[j]])
    && (forall e, x | e in out && x in left :: v[e] <= v[x])
  }

  lemma DrainStep(v: map<HeapElem, int>, out: seq<HeapElem>, left: set<HeapElem>, e: HeapElem)
    requires Drained(v, out, left) && e in left && forall x | x in left :: v[e] <= v[x]
    ensures Drained(v, out + [e], left - {e})
  {
  }

  ghost function ValuesOf(all: set<HeapElem>): (v: map<HeapElem, int>)
    reads all
    ensures v.Keys == all
  {
    map e | e in all :: e.value
  }

  /** One round of the drain, for the values v of the members. */
  method TakeSmallest(h: Heap, ghost v: map<HeapElem, int>) returns (e: HeapElem)
    requires h.Valid() && h.free > 1 && h.pos.Keys <= v.Keys
    requires forall x | x in h.pos :: x.value == v[x]
    modifies h, h.a, h.pos.Keys`owner
    ensures h.Valid() && h.a == old(h.a) && e in old(h.pos) && h.pos.Keys == old(h.pos.Keys) - {e}
    ensures forall x | x in old(h.pos) :: v[e] <= v[x]
    ensures forall x | x in h.pos :: x.value == v[x]
  {
    assert h.a[1] in h.pos;
    e := h.ExtractMin();
  }

  lemma DrainStarts(v: map<HeapElem, int>)
    ensures Drained(v, [], v.Keys)
  {
  }

  /** Taking the smallest until the heap is empty, as the timer loop does, gives
      every member once, in order of value. */
  method Drain(h: Heap) returns (out: seq<HeapElem>)
    requires h.Valid()
    modifies h, h.a, h.pos.Keys`owner
    ensures h.Valid() && h.pos == map[] && Drained(old(ValuesOf(h.pos.Keys)), out, {})
  {
    out := [];
    ghost var v := ValuesOf(h.pos.Keys);
    DrainStarts(v);
    while h.free > 1
      invariant h.Valid() && h.a == old(h.a) && Drained(v, out, h.pos.Keys)
      invariant h.pos.Keys <= v.Keys && forall x | x in h.pos :: x.value == v[x]
      decreases |h.pos.Keys|
    {
      ghost var left := h.pos.Keys;
      var e := TakeSmallest(h, v);
      DrainStep(v, out, left, e);
      out := out + [e];
    }
    assert h.pos.Keys == {};
  }
}
