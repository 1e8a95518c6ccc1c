/** The queue side of FileBlockPool (CFCore/FileSource.cpp) over the linked queue of
    CFCore/Queue.cpp: each buffer is known by its queue element. */
module BlockPools {
  import opened Queues
  import opened Sequences
  import FileCache
  import FileSources

  /** What Queue::Remove leaves is the queue without the element. */
  lemma RemovedIs(s: QueueElem, nodes: seq<QueueElem>, now: seq<QueueElem>, e: QueueElem)
    requires Distinct(s, nodes)
    requires e in nodes ==> exists k | 0 <= k < |nodes| :: nodes[k] == e && now == Omit(nodes, k)
    requires e !in nodes ==> now == nodes
    ensures now == FileCache.Without(nodes, e)
  {
    if e in nodes {
      var k :| 0 <= k < |nodes| && nodes[k] == e && now == Omit(nodes, k);
      assert FileCache.Distinct(nodes);
      FileCache.WithoutAt(nodes, k);
    } else {
      FileCache.WithoutNone(nodes, e);
    }
  }

  class FileBlockPool {
    const queue: Queue                     // fQueue
    var num: nat                           // fNumCurrentBuffers
    var max: nat                           // fMaxBuffers

    ghost predicate Valid()
      reads this, queue, queue.sentinel`queue, queue.nodes`queue, queue.nx.Keys`next, queue.pv.Keys`prev
    {
      queue.Valid() && num == |queue.nodes| && max >= 1
    }

    constructor (max: nat)
      requires max >= 1
      ensures Valid() && this.max == max && num == 0 && fresh(queue)
    {
      queue := new Queue();
      num, this.max := 0, max;
    }

    /** MarkUsed on the pointers does to the queue what Marked does to a sequence. */
    method MarkUsed(e: QueueElem)
      requires queue.Valid() && e != queue.sentinel && (e.queue == queue <==> e in queue.nodes)
      requires (e.queue == null || e.queue == queue)
      modifies queue, queue.sentinel`next, e, queue.nx.Keys`next, queue.nx.Keys`prev, queue.pv.Keys`prev
      ensures queue.Valid() && queue.nodes == FileSources.Marked(old(queue.nodes), e)
    {
      var tail := queue.GetTail();
      if tail != e {
        Unqueue(e);
        queue.EnQueue(e);
      }
    }

    method Unqueue(e: QueueElem)
      requires queue.Valid() && e != queue.sentinel && (e.queue == queue <==> e in queue.nodes)
      requires (e.queue == null || e.queue == queue)
      modifies queue`length, queue`nodes, queue`nx, queue`pv, e`queue, queue.nx.Keys`next, queue.pv.Keys`prev
      ensures queue.Valid() && e.queue == null && queue.nodes == FileCache.Without(old(queue.nodes), e)
      ensures queue.nx.Keys <= old(queue.nx.Keys)
    {
      ghost var nodes := queue.nodes;
      assert Distinct(queue.sentinel, nodes);
      queue.Remove(e);
      RemovedIs(queue.sentinel, nodes, queue.nodes, e);
    }

    /** GetBufferElement: a new element at the tail below the limit, else the head. */
    method GetBufferElement() returns (e: QueueElem)
      requires Valid()
      modifies this`num, queue, queue.sentinel`next, queue.nodes`queue, queue.nx.Keys`next, queue.nx.Keys`prev,
               queue.pv.Keys`prev
      ensures queue.Valid() && max == old(max)
      ensures old(num) < max ==> fresh(e) && queue.nodes == old(queue.nodes) + [e] && num == old(num) + 1
      ensures old(num) >= max ==> old(queue.nodes) == [e] + queue.nodes && e.queue == null && num == old(num)
    {
      if num < max {
        e := new QueueElem();
        num := num + 1;
        queue.EnQueue(e);
      } else {
        var head := queue.DeQueue();
        e := head;
      }
    }
  }
}
