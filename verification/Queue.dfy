/** lib/queue.c: a queue of pointers in a circular list. */
module Queues {
  import opened NodeLists
  import opened Options

  class Queue<T(!new)> {
    const list: NodeList<T>
    var length: int
    ghost var nodes: seq<T>

    ghost predicate Valid()
      reads this, list, list.ram
    {
      list.Valid() && nodes == list.items && length == |nodes|
    }

    /** queue_init */
    constructor (head: int)
      ensures Valid() && nodes == [] && fresh(list) && fresh(list.ram)
    {
      list := new NodeList(head);
      nodes, length := [], 0;
    }

    /** queue_isempty */
    method IsEmpty() returns (empty: bool)
      requires Valid()
      ensures empty <==> nodes == []
    {
      empty := length == 0;
    }

    /** queue_enqueue: the new node goes before the list head, so it is the last one. */
    method Enqueue(content: T)
      requires Valid()
      modifies this, list, list.ram
      ensures Valid() && nodes == old(nodes) + [content]
    {
      list.AddLast(content);
      nodes := list.items;
      length := length + 1;
    }

    /** queue_dequeue: what the node after the list head carries, or NULL. */
    method Dequeue() returns (content: Option<T>)
      requires Valid()
      modifies this, list, list.ram
      ensures Valid() && content.None? == (old(nodes) == [])
      ensures old(nodes) == match content { case None => [] case Some(value) => [value] + nodes }
      ensures content.None? ==> nodes == old(nodes)
    {
      var empty := IsEmpty();
      if empty {
        return None;
      }
      var value := list.RemoveFirst();
      content := Some(value);
      nodes := list.items;
      length := length - 1;
    }
  }

  // ----- Any interleaving of its two operations -----

  datatype Call<T> = Put(content: T) | Get

  /** What the calls enqueue, in order. */
  ghost function Puts<T>(calls: seq<Call<T>>): seq<T> {
    if calls == [] then []
    else
      var last := calls[|calls| - 1];
      Puts(calls[..|calls| - 1]) + if last.Put? then [last.content] else []
  }

  /** First in, first out: what was dequeued is the beginning of what was enqueued, and the rest of it is in the
      queue. */
  method Run<T(!new)>(queue: Queue<T>, calls: seq<Call<T>>) returns (taken: seq<T>)
    requires queue.Valid() && queue.nodes == []
    modifies queue, queue.list, queue.list.ram
    ensures queue.Valid() && Puts(calls) == taken + queue.nodes
  {
    taken := [];
    for i := 0 to |calls|
      invariant queue.Valid() && Puts(calls[..i]) == taken + queue.nodes
    {
      assert calls[..i + 1][..i] == calls[..i];
      match calls[i] {
        case Put(content) => queue.Enqueue(content);
        case Get =>
          var content := queue.Dequeue();
          if content.Some? {
            taken := taken + [content.value];
          }
      }
    }
    assert calls[..|calls|] == calls;
  }
}
