/** The doubly linked queue with a sentinel of CFCore/Queue.cpp, and its iterator. */
module Queues {

  import opened Sequences

  class QueueElem {
    var next: QueueElem?                   // fNext, towards the older elements
    var prev: QueueElem?                   // fPrev, towards the newer ones
    var queue: Queue?                      // fQueue

    constructor ()
      ensures queue == null
    {
      next, prev, queue := null, null, null;
    }
  }

  // ------------------------------------------------ the ring as a pair of maps

  type Links = map<QueueElem, QueueElem>

  /** Element i of the ring: the queue from the oldest to the newest, with the
      sentinel at both ends. */
  function At(s: QueueElem, nodes: seq<QueueElem>, i: int): (e: QueueElem) {
    if 0 <= i < |nodes| then nodes[i] else s
  }

  ghost predicate Distinct(s: QueueElem, nodes: seq<QueueElem>) {
    s !in nodes && forall i, j | 0 <= i < j < |nodes| :: nodes[i] != nodes[j]
  }

  ghost predicate Older(s: QueueElem, nodes: seq<QueueElem>, next: Links) {
    && s in next && next[s] == At(s, nodes, |nodes| - 1)
    && forall i | 0 <= i < |nodes| :: nodes[i] in next && next[nodes[i]] == At(s, nodes, i - 1)
  }

  ghost predicate Newer(s: QueueElem, nodes: seq<QueueElem>, prev: Links) {
    && s in prev && prev[s] == At(s, nodes, 0)
    && forall i | 0 <= i < |nodes| :: nodes[i] in prev && prev[nodes[i]] == At(s, nodes, i + 1)
  }

  ghost predicate Ringed(s: QueueElem, nodes: seq<QueueElem>, next: Links, prev: Links) {
    Distinct(s, nodes) && Older(s, nodes, next) && Newer(s, nodes, prev)
  }

  lemma RingAdd(s: QueueElem, nodes: seq<QueueElem>, next: Links, prev: Links, e: QueueElem)
    requires Ringed(s, nodes, next, prev) && e !in nodes && e != s
    ensures Ringed(s, nodes + [e], next[e := next[s]][s := e], prev[e := s][next[s] := e])
  {
  }

  lemma CutDistinct(s: QueueElem, nodes: seq<QueueElem>, k: nat)
    requires k < |nodes| && Distinct(s, nodes)
    ensures Distinct(s, Omit(nodes, k)) && nodes[k] !in Omit(nodes, k) && forall e | e in Omit(nodes, k) :: e in nodes
  {
  }

  lemma OlderCut(s: QueueElem, nodes: seq<QueueElem>, next: Links, k: nat)
    requires k < |nodes| && Distinct(s, nodes) && Older(s, nodes, next)
    ensures Older(s, Omit(nodes, k), next[At(s, nodes, k + 1) := next[nodes[k]]])
  {
    var r := Omit(nodes, k);
    var now := next[At(s, nodes, k + 1) := next[nodes[k]]];
    forall i | 0 <= i < |r|
      ensures r[i] in now && now[r[i]] == At(s, r, i - 1)
    {
      OlderAt(s, nodes, next, k, if i < k then i else i + 1);
    }
  }

  lemma OlderAt(s: QueueElem, nodes: seq<QueueElem>, next: Links, k: nat, j: nat)
    requires k < |nodes| && j < |nodes| && j != k && Distinct(s, nodes) && Older(s, nodes, next)
    ensures var now := next[At(s, nodes, k + 1) := next[nodes[k]]];
            nodes[j] in now && now[nodes[j]] == At(s, nodes, if j == k + 1 then k - 1 else j - 1)
  {
  }

  lemma NewerCut(s: QueueElem, nodes: seq<QueueElem>, prev: Links, k: nat)
    requires k < |nodes| && Distinct(s, nodes) && Newer(s, nodes, prev)
    ensures Newer(s, Omit(nodes, k), prev[At(s, nodes, k - 1) := prev[nodes[k]]])
  {
    var r := Omit(nodes, k);
    var now := prev[At(s, nodes, k - 1) := prev[nodes[k]]];
    forall i | 0 <= i < |r|
      ensures r[i] in now && now[r[i]] == At(s, r, i + 1)
    {
      var j := if i < k then i else i + 1;
      assert r[i] == nodes[j] && (r[i] == At(s, nodes, k - 1) <==> j == k - 1);
    }
  }

  lemma RingRemove(s: QueueElem, nodes: seq<QueueElem>, next: Links, prev: Links, k: nat)
    requires Ringed(s, nodes, next, prev) && k < |nodes|
    ensures var e := nodes[k]; Ringed(s, Omit(nodes, k), next[prev[e] := next[e]] - {e}, prev[next[e] := prev[e]] - {e})
  {
    CutDistinct(s, nodes, k);
    OlderCut(s, nodes, next, k);
    NewerCut(s, nodes, prev, k);
  }

  lemma Neighbours(s: QueueElem, nodes: seq<QueueElem>, next: Links, prev: Links, k: nat)
    requires Ringed(s, nodes, next, prev) && k < |nodes|
    ensures var e := nodes[k]; e in next && e in prev && next[e] in prev && prev[e] in next
  {
  }

  class Queue {
    const sentinel: QueueElem
    var length: nat
    ghost var nodes: seq<QueueElem>        // oldest first
    ghost var nx: Links                    // where next points
    ghost var pv: Links                    // where prev points

    /** The maps show the pointers. */
    ghost predicate Shown()
      reads this, nx.Keys`next, pv.Keys`prev
    {
      (forall e | e in nx :: e.next == nx[e]) && (forall e | e in pv :: e.prev == pv[e])
    }

    ghost predicate Valid()
      reads this, sentinel`queue, nodes`queue, nx.Keys`next, pv.Keys`prev
    {
      Shown() && Ringed(sentinel, nodes, nx, pv) && Tagged()
    }

    ghost predicate Tagged()
      reads this, sentinel`queue, nodes`queue
    {
      length == |nodes| && sentinel.queue == null && forall e | e in nodes :: e.queue == this
    }

    constructor ()
      ensures Valid() && nodes == [] && fresh(sentinel) && nx.Keys == pv.Keys == {sentinel}
    {
      sentinel := new QueueElem();
      length, nodes := 0, [];
      new;
      nx, pv := map[sentinel := sentinel], map[sentinel := sentinel];
      sentinel.next, sentinel.prev := sentinel, sentinel;
    }

    method SetNext(e: QueueElem, to: QueueElem)
      requires Shown()
      modifies this`nx, e`next
      ensures Shown() && nx == old(nx)[e := to]
    {
      e.next := to;
      nx := nx[e := to];
    }

    method SetPrev(e: QueueElem, to: QueueElem)
      requires Shown()
      modifies this`pv, e`prev
      ensures Shown() && pv == old(pv)[e := to]
    {
      e.prev := to;
      pv := pv[e := to];
    }

    /** The four pointer updates of EnQueue. */
    method LinkAtTail(elem: QueueElem)
      requires Shown() && sentinel in nx && nx[sentinel] in nx && elem != sentinel
      modifies this`nx, this`pv, elem`next, elem`prev, sentinel`next, nx.Keys`prev
      ensures Shown() && nx == old(nx)[elem := old(nx)[sentinel]][sentinel := elem]
      ensures pv == old(pv)[elem := sentinel][old(nx)[sentinel] := elem]
    {
      var tail := sentinel.next;
      SetNext(elem, tail);
      SetPrev(elem, sentinel);
      SetPrev(tail, elem);
      SetNext(sentinel, elem);
    }

    /** The two pointer updates that take an element out of the ring. */
    method Unlink(elem: QueueElem)
      requires Shown() && elem in nx && elem in pv && nx[elem] in pv && pv[elem] in nx
      modifies this`nx, this`pv, nx.Keys`next, pv.Keys`prev
      ensures Shown() && nx.Keys <= old(nx.Keys)
      ensures nx == old(nx)[old(pv)[elem] := old(nx)[elem]] - {elem}
      ensures pv == old(pv)[old(nx)[elem] := old(pv)[elem]] - {elem}
    {
      var older, newer := elem.next, elem.prev;
      SetPrev(older, newer);
      SetNext(newer, older);
      nx, pv := nx - {elem}, pv - {elem};
    }

    method Attach(elem: QueueElem)
      requires Shown() && Ringed(sentinel, nodes, nx, pv) && elem !in nodes && elem != sentinel
      modifies this`nx, this`pv, elem`next, elem`prev, sentinel`next, nx.Keys`prev
      ensures Shown() && Ringed(sentinel, nodes + [elem], nx, pv)
    {
      RingAdd(sentinel, nodes, nx, pv, elem);
      LinkAtTail(elem);
    }

    /** Puts a new element at the tail; one that is queued here stays. */
    method EnQueue(elem: QueueElem)
      requires Valid() && elem != sentinel && (elem.queue == null || (elem.queue == this && elem in nodes))
      modifies this`length, this`nodes, this`nx, this`pv, sentinel`next, elem, nx.Keys`prev
      ensures Valid() && nodes == if old(elem.queue) == this then old(nodes) else old(nodes) + [elem]
    {
      if elem.queue == this {
        return;
      }
      Attach(elem);
      Enrol(elem);
    }

    method Enrol(elem: QueueElem)
      requires Tagged() && elem != sentinel
      modifies this`length, this`nodes, elem`queue
      ensures Tagged() && nodes == old(nodes) + [elem]
    {
      elem.queue := this;
      length := length + 1;
      nodes := nodes + [elem];
    }

    method Strike(elem: QueueElem, ghost k: nat)
      requires Tagged() && Distinct(sentinel, nodes) && k < |nodes| && nodes[k] == elem
      modifies this`length, this`nodes, elem`queue
      ensures Tagged() && nodes == Omit(old(nodes), k) && elem !in nodes && elem.queue == null
    {
      CutDistinct(sentinel, nodes, k);
      elem.queue := null;
      length := length - 1;
      nodes := Omit(nodes, k);
    }

    method Detach(elem: QueueElem, ghost k: nat)
      requires Shown() && Ringed(sentinel, nodes, nx, pv) && k < |nodes| && nodes[k] == elem
      modifies this`nx, this`pv, nx.Keys`next, pv.Keys`prev
      ensures Shown() && Ringed(sentinel, Omit(nodes, k), nx, pv) && nx.Keys <= old(nx.Keys)
    {
      Neighbours(sentinel, nodes, nx, pv, k);
      RingRemove(sentinel, nodes, nx, pv, k);
      Unlink(elem);
    }

    /** Takes element k of the ring out. */
    method TakeOut(elem: QueueElem, ghost k: nat)
      requires Valid() && k < |nodes| && nodes[k] == elem
      modifies this`length, this`nodes, this`nx, this`pv, elem`queue, nx.Keys`next, pv.Keys`prev
      ensures Valid() && elem.queue == null && nodes == Omit(old(nodes), k) && elem !in nodes && nx.Keys <= old(nx.Keys)
    {
      Detach(elem, k);
      Strike(elem, k);
    }

    /** Takes the oldest element off. */
    method DeQueue() returns (elem: QueueElem?)
      requires Valid()
      modifies this`length, this`nodes, this`nx, this`pv, nodes`queue, nx.Keys`next, pv.Keys`prev
      ensures Valid() && (elem == null <==> old(nodes) == [])
      ensures elem == null ==> nodes == old(nodes)
      ensures elem != null ==> old(nodes) == [elem] + nodes && elem.queue == null
    {
      elem := null;
      if length > 0 {
        elem := sentinel.prev;
        TakeOut(elem, 0);
      }
    }

    /** Takes one element out wherever it stands; one that is not queued here is
        left alone. */
    method Remove(elem: QueueElem)
      requires Valid() && elem != sentinel && (elem.queue == this <==> elem in nodes)
      modifies this`length, this`nodes, this`nx, this`pv, elem`queue, nx.Keys`next, pv.Keys`prev
      ensures Valid() && elem !in nodes && nx.Keys <= old(nx.Keys)
      ensures elem in old(nodes) ==> elem.queue == null
      ensures elem in old(nodes) ==>
                exists k | 0 <= k < |old(nodes)| :: old(nodes)[k] == elem && nodes == Omit(old(nodes), k)
      ensures elem !in old(nodes) ==> nodes == old(nodes) && elem.queue == old(elem.queue)
    {
      if elem.queue == this {
        ghost var k :| 0 <= k < |nodes| && nodes[k] == elem;
        TakeOut(elem, k);
      }
    }

    method GetHead() returns (e: QueueElem?)
      requires Valid()
      ensures if nodes == [] then e == null else e == nodes[0]
    {
      e := if length > 0 then sentinel.prev else null;
    }

    method GetTail() returns (e: QueueElem?)
      requires Valid()
      ensures if nodes == [] then e == null else e == nodes[|nodes| - 1]
    {
      e := if length > 0 then sentinel.next else null;
    }
  }

  /** QueueIter::Next: to the next newer element, or to none behind the tail. */
  method Next(q: Queue, current: QueueElem, ghost k: nat) returns (e: QueueElem?)
    requires q.Valid() && k < |q.nodes| && q.nodes[k] == current
    ensures if k + 1 == |q.nodes| then e == null else e == q.nodes[k + 1]
  {
    var tail := q.GetTail();
    if current == tail {
      e := null;
    } else {
      e := current.prev;
    }
  }

  /** A walk with QueueIter sees every element once, from the oldest on. */
  method Walk(q: Queue) returns (seen: seq<QueueElem>)
    requires q.Valid()
    ensures seen == q.nodes
  {
    seen := [];
    var current := q.GetHead();
    while current != null
      invariant |seen| <= |q.nodes| && seen == q.nodes[..|seen|]
      invariant if |seen| == |q.nodes| then current == null else current == q.nodes[|seen|]
      decreases |q.nodes| - |seen|
    {
      var e := Next(q, current, |seen|);
      seen := seen + [current];
      current := e;
    }
  }
}
