/** Lists of include/list.h whose nodes are allocated one at a time, each carrying a pointer to what it is for: the
    ready queue of lib/queue.c and the memory maps of mm/vm_map.c. */
module NodeLists {
  import opened Memory
  import opened RamObject
  import Lists

  /** Each node of the ring carries its item. */
  ghost predicate Carries<T(!new)>(content: map<int, T>, nodes: seq<int>, items: seq<T>) {
    |nodes| == |items| && forall i | 0 <= i < |nodes| :: nodes[i] in content && content[nodes[i]] == items[i]
  }

  class NodeList<T(!new)> {
    const ram: Ram
    const head: int
    var content: map<int, T>
    var nextNode: int       // where malloc takes the next node from
    ghost var nodes: seq<int>
    ghost var items: seq<T>

    ghost predicate Valid()
      reads this, ram
    {
      && Lists.Ring(ram.w, head, nodes) && Carries(content, nodes, items)
      && head + Lists.NODE_SIZE <= nextNode && forall i | 0 <= i < |nodes| :: nodes[i] + Lists.NODE_SIZE <= nextNode
    }

    /** list_init of the head. */
    constructor (head: int)
      ensures Valid() && items == [] && fresh(ram)
    {
      ram := new Ram();
      this.head, content, nextNode := head, map[], head + Lists.NODE_SIZE;
      nodes, items := [], [];
      new;
      Lists.InitRing(ram.w, head);
      ram.ListInit(head);
    }

    /** list_empty */
    method IsEmpty() returns (empty: bool)
      requires Valid()
      ensures empty <==> items == []
    {
      Lists.EmptyTest(ram.w, head, nodes);
      empty := Lists.Next(ram.w, head) == head;
    }

    /** malloc of a node, list_init and list_add_before: the item comes last. */
    method AddLast(item: T)
      requires Valid()
      modifies this, ram
      ensures Valid() && items == old(items) + [item]
    {
      var node := nextNode;
      nextNode := node + Lists.NODE_SIZE;
      InitKeepsRing(ram.w, head, nodes, node);
      ram.ListInit(node);
      content := content[node := item];
      Lists.Ends(ram.w, head, nodes);
      Lists.AddKeepsRing(ram.w, head, nodes, |nodes|, node);
      ram.ListAddBefore(head, node);
      nodes, items := Lists.Insert(nodes, |nodes|, node), items + [item];
    }

    /** list_del of the node after the head. */
    method RemoveFirst() returns (item: T)
      requires Valid() && items != []
      modifies this, ram
      ensures Valid() && old(items) == [item] + items
    {
      Lists.Ends(ram.w, head, nodes);
      var node := Lists.Next(ram.w, head);
      item := content[node];
      Lists.DelKeepsRing(ram.w, head, nodes, 0);
      ram.ListDel(node);
      nodes, items := Lists.Remove(nodes, 0), items[1..];
    }

    /** Where list_for_each stands after `i` nodes; it is back at the head behind the last one. */
    ghost predicate Stands(it: int, i: nat)
      reads this, ram
    {
      && i <= |items| == |nodes| && it == Lists.At(head, nodes, i + 1) && (it == head <==> i == |items|)
      && (i < |items| ==> it in content && content[it] == items[i])
    }

    lemma StandsAt(i: nat)
      requires Valid() && i <= |items|
      ensures Stands(Lists.At(head, nodes, i + 1), i)
    {
      if i < |items| {
        assert Lists.Apart(head, nodes[i]);
      }
    }

    /** The start of list_for_each. */
    method First() returns (it: int)
      requires Valid()
      ensures Stands(it, 0)
    {
      Lists.Ends(ram.w, head, nodes);
      it := Lists.Next(ram.w, head);
      StandsAt(0);
    }

    /** One step of list_for_each. */
    method After(it: int, ghost i: nat) returns (next: int)
      requires Valid() && i < |items| && Stands(it, i)
      ensures Stands(next, i + 1)
    {
      Lists.Neighbours(ram.w, head, nodes, i);
      next := Lists.Next(ram.w, it);
      StandsAt(i + 1);
    }
  }

  /** Preparing a node that is in no list changes none. */
  lemma InitKeepsRing(m: Mem, head: int, nodes: seq<int>, node: int)
    requires Lists.Ring(m, head, nodes) && Lists.Apart(head, node)
    requires forall i | 0 <= i < |nodes| :: Lists.Apart(nodes[i], node)
    ensures Lists.Ring(Lists.Init(m, node), head, nodes)
  {
    Lists.RingFrame(m, Lists.Init(m, node), head, nodes);
  }
}
