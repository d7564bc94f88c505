/** Word-granular memory and the circular doubly linked lists of include/list.h that live in it.

    Addresses are byte addresses of 8-byte words. A word that was never written reads as 0. */
module Memory {

  type Mem = map<int, int>

  function Ld(m: Mem, a: int): int {
    if a in m then m[a] else 0
  }

  /** memset(dest, 0, 8 * count) on whole words. */
  function Zeroed(m: Mem, dest: int, count: nat): Mem {
    if count == 0 then m else Zeroed(m, dest, count - 1)[dest + 8 * (count - 1) := 0]
  }

  lemma {:induction false} ZeroedAt(m: Mem, dest: int, count: nat, a: int)
    ensures Ld(Zeroed(m, dest, count), a) ==
            if dest <= a < dest + 8 * count && (a - dest) % 8 == 0 then 0 else Ld(m, a)
  {
    if count > 0 {
      ZeroedAt(m, dest, count - 1, a);
    }
  }
}

/** include/list.h: `next` is the word at a node's address, `prev` the word after it. */
module Lists {
  import opened Memory

  const NODE_SIZE := 16

  function Next(m: Mem, node: int): int { Ld(m, node) }

  function Prev(m: Mem, node: int): int { Ld(m, node + 8) }

  function Init(m: Mem, node: int): Mem {
    m[node := node][node + 8 := node]
  }

  /** __list_add: link `node` between the neighbours `prev` and `next`. */
  function AddBetween(m: Mem, prev: int, next: int, node: int): Mem {
    m[node + 8 := prev][prev := node][node := next][next + 8 := node]
  }

  function AddAfter(m: Mem, list: int, node: int): Mem {
    AddBetween(m, list, Next(m, list), node)
  }

  function AddBefore(m: Mem, list: int, node: int): Mem {
    AddBetween(m, Prev(m, list), list, node)
  }

  /** list_del: the neighbours of `node` are linked to each other, `node` keeps its own words. */
  function Del(m: Mem, node: int): Mem {
    m[Prev(m, node) := Next(m, node)][Next(m, node) + 8 := Prev(m, node)]
  }

  /** The node at position `i` when the ring is read from its head at 0 back to its head at `|s| + 1`. */
  function At(head: int, s: seq<int>, i: int): int
    requires 0 <= i <= |s| + 1
  {
    if 1 <= i <= |s| then s[i - 1] else head
  }

  /** Two list nodes share no word. */
  predicate Apart(a: int, b: int) {
    a + NODE_SIZE <= b || b + NODE_SIZE <= a
  }

  ghost predicate AllApart(head: int, s: seq<int>) {
    && (forall i | 0 <= i < |s| :: Apart(head, s[i]))
    && (forall i, j {:trigger Apart(s[i], s[j])} | 0 <= i < j < |s| :: Apart(s[i], s[j]))
  }

  /** The nodes at positions `i` and `i + 1` point to each other. */
  predicate Link(m: Mem, head: int, s: seq<int>, i: int)
    requires 0 <= i <= |s|
  {
    Next(m, At(head, s, i)) == At(head, s, i + 1) && Prev(m, At(head, s, i + 1)) == At(head, s, i)
  }

  ghost predicate Linked(m: Mem, head: int, s: seq<int>) {
    forall i | 0 <= i <= |s| :: Link(m, head, s, i)
  }

  /** The nodes of `s`, in order, are exactly the list headed by `head`. */
  ghost predicate Ring(m: Mem, head: int, s: seq<int>) {
    AllApart(head, s) && Linked(m, head, s)
  }

  function Insert<T>(s: seq<T>, k: nat, node: T): (r: seq<T>)
    requires k <= |s|
    ensures |r| == |s| + 1
    ensures forall j {:trigger r[j]} | 0 <= j < |r| :: r[j] == if j < k then s[j] else if j == k then node else s[j - 1]
  {
    s[..k] + [node] + s[k..]
  }

  function Remove<T>(s: seq<T>, k: nat): (r: seq<T>)
    requires k < |s|
    ensures |r| == |s| - 1
    ensures forall j {:trigger r[j]} | 0 <= j < |r| :: r[j] == if j < k then s[j] else s[j + 1]
  {
    s[..k] + s[k + 1..]
  }

  /** What the ring says about the node at position `k` of the sequence. */
  lemma Neighbours(m: Mem, head: int, s: seq<int>, k: nat)
    requires Ring(m, head, s) && k < |s|
    ensures Prev(m, s[k]) == At(head, s, k) && Next(m, s[k]) == At(head, s, k + 2)
    ensures Next(m, At(head, s, k)) == s[k] && Prev(m, At(head, s, k + 2)) == s[k]
  {
    assert Link(m, head, s, k) && Link(m, head, s, k + 1);
  }

  /** Where the head points: to the first node, and back to the last one. */
  lemma Ends(m: Mem, head: int, s: seq<int>)
    requires Ring(m, head, s)
    ensures Next(m, head) == At(head, s, 1) && Prev(m, head) == At(head, s, |s|)
  {
    assert Link(m, head, s, 0) && Link(m, head, s, |s|);
  }

  lemma InitRing(m: Mem, head: int)
    ensures Ring(Init(m, head), head, [])
  {
  }

  /** A ring is empty exactly when its head points to itself, which is what list_empty tests. */
  lemma EmptyTest(m: Mem, head: int, s: seq<int>)
    requires Ring(m, head, s)
    ensures Next(m, head) == head <==> s == []
  {
    Ends(m, head, s);
  }

  /** Linking a fresh node at position `k` inserts it there in the sequence the ring stands for. */
  lemma AddKeepsRing(m: Mem, head: int, s: seq<int>, k: nat, node: int)
    requires Ring(m, head, s) && k <= |s|
    requires Apart(head, node) && forall i | 0 <= i < |s| :: Apart(s[i], node)
    ensures Ring(AddBetween(m, At(head, s, k), At(head, s, k + 1), node), head, Insert(s, k, node))
  {
    var t := Insert(s, k, node);
    forall i, j {:trigger Apart(t[i], t[j])} | 0 <= i < j < |t| ensures Apart(t[i], t[j]) {
      if i != k && j != k {
        assert Apart(s[if i < k then i else i - 1], s[if j < k then j else j - 1]);
      }
    }
    var n := AddBetween(m, At(head, s, k), At(head, s, k + 1), node);
    forall i | 0 <= i <= |t| ensures Link(n, head, t, i) {
      AddedLink(m, head, s, k, node, i);
    }
  }

  lemma AddedLink(m: Mem, head: int, s: seq<int>, k: nat, node: int, i: nat)
    requires Ring(m, head, s) && k <= |s| && i <= |s| + 1
    requires Apart(head, node) && forall j | 0 <= j < |s| :: Apart(s[j], node)
    ensures Link(AddBetween(m, At(head, s, k), At(head, s, k + 1), node), head, Insert(s, k, node), i)
  {
    var t := Insert(s, k, node);
    if i < k {
      assert At(head, t, i) == At(head, s, i) && At(head, t, i + 1) == At(head, s, i + 1);
      KeptLink(m, head, s, i, k, node);
    } else if i > k + 1 {
      assert At(head, t, i) == At(head, s, i - 1) && At(head, t, i + 1) == At(head, s, i);
      KeptLink(m, head, s, i - 1, k, node);
    } else {
      assert At(head, t, k + 1) == node;
      assert At(head, t, k) == At(head, s, k) && At(head, t, k + 2) == At(head, s, k + 1);
    }
  }

  lemma KeptLink(m: Mem, head: int, s: seq<int>, i: nat, k: nat, node: int)
    requires Ring(m, head, s) && i <= |s| && k <= |s| && i != k
    requires Apart(head, node) && forall j | 0 <= j < |s| :: Apart(s[j], node)
    ensures Link(AddBetween(m, At(head, s, k), At(head, s, k + 1), node), head, s, i)
  {
    OtherLinkApart(m, head, s, i, k);
    assert Apart(At(head, s, i), node) && Apart(At(head, s, i + 1), node);
  }

  lemma PositionsApart(head: int, s: seq<int>, i: nat, j: nat)
    requires AllApart(head, s) && i <= |s| && j <= |s| && i != j
    ensures Apart(At(head, s, i), At(head, s, j))
  {
    if 0 < i < j {
      assert Apart(s[i - 1], s[j - 1]);
    } else if 0 < j < i {
      assert Apart(s[j - 1], s[i - 1]);
    }
  }

  /** A link of the ring other than the one at `k` shares no word with it. */
  lemma OtherLinkApart(m: Mem, head: int, s: seq<int>, i: nat, k: nat)
    requires Ring(m, head, s) && i <= |s| && k <= |s| && i != k
    ensures Link(m, head, s, i)
    ensures Apart(At(head, s, i), At(head, s, k)) && Apart(At(head, s, i + 1), At(head, s, k + 1))
    ensures At(head, s, i) != At(head, s, k + 1) + 8 && At(head, s, i + 1) + 8 != At(head, s, k)
  {
    var i1, k1 := if i < |s| then i + 1 else 0, if k < |s| then k + 1 else 0;
    PositionsApart(head, s, i, k);
    PositionsApart(head, s, i1, k1);
    if i != k1 { PositionsApart(head, s, i, k1); }
    if i1 != k { PositionsApart(head, s, i1, k); }
  }

  /** Unlinking the node at position `k` removes it from the sequence the ring stands for. */
  lemma DelKeepsRing(m: Mem, head: int, s: seq<int>, k: nat)
    requires Ring(m, head, s) && k < |s|
    ensures Ring(Del(m, s[k]), head, Remove(s, k))
  {
    var t := Remove(s, k);
    forall i, j | 0 <= i < j < |t| ensures Apart(t[i], t[j]) {
      assert Apart(s[if i < k then i else i + 1], s[if j < k then j else j + 1]);
    }
    forall i | 0 <= i <= |t| ensures Link(Del(m, s[k]), head, t, i) {
      LeftLink(m, head, s, k, i);
    }
  }

  lemma LeftLink(m: Mem, head: int, s: seq<int>, k: nat, i: nat)
    requires Ring(m, head, s) && k < |s| && i < |s|
    ensures Link(Del(m, s[k]), head, Remove(s, k), i)
  {
    var t := Remove(s, k);
    Neighbours(m, head, s, k);
    if i < k {
      assert At(head, t, i) == At(head, s, i) && At(head, t, i + 1) == At(head, s, i + 1);
      OtherLinkApart(m, head, s, i, k);
      OtherLinkApart(m, head, s, i, k + 1);
    } else if i > k {
      assert At(head, t, i) == At(head, s, i + 1) && At(head, t, i + 1) == At(head, s, i + 2);
      OtherLinkApart(m, head, s, i + 1, k);
      OtherLinkApart(m, head, s, i + 1, k + 1);
    } else {
      assert At(head, t, k) == At(head, s, k) && At(head, t, k + 1) == At(head, s, k + 2);
      OtherLinkApart(m, head, s, k + 1, k);
    }
  }

  /** Adding a node and deleting it again gives back the ring and every word of its nodes. */
  lemma DelUndoesAdd(m: Mem, head: int, s: seq<int>, k: nat, node: int, a: int)
    requires Ring(m, head, s) && k <= |s|
    requires Apart(head, node) && forall i | 0 <= i < |s| :: Apart(s[i], node)
    requires a != node && a != node + 8
    ensures Ld(Del(AddBetween(m, At(head, s, k), At(head, s, k + 1), node), node), a) == Ld(m, a)
  {
    assert Link(m, head, s, k);
  }

  /** Only the words of the nodes matter. */
  lemma RingFrame(m: Mem, n: Mem, head: int, s: seq<int>)
    requires Ring(m, head, s)
    requires forall i | 0 <= i <= |s| :: Ld(m, At(head, s, i)) == Ld(n, At(head, s, i))
                                      && Ld(m, At(head, s, i) + 8) == Ld(n, At(head, s, i) + 8)
    ensures Ring(n, head, s)
  {
    forall i | 0 <= i <= |s| ensures Link(n, head, s, i) {
      assert Link(m, head, s, i);
      assert i == |s| ==> At(head, s, i + 1) == At(head, s, 0);
    }
  }
}

/** The machine's memory as one object; its methods are the stores the C code performs. */
module RamObject {
  import opened Memory
  import Lists

  class Ram {
    var w: Mem

    constructor ()
      ensures w == map[]
    {
      w := map[];
    }

    method Store(a: int, v: int)
      modifies this
      ensures w == old(w)[a := v]
    {
      w := w[a := v];
    }

    method ListInit(node: int)
      modifies this
      ensures w == Lists.Init(old(w), node)
    {
      Store(node, node);
      Store(node + 8, node);
    }

    method ListAddBetween(prev: int, next: int, node: int)
      modifies this
      ensures w == Lists.AddBetween(old(w), prev, next, node)
    {
      Store(node + 8, prev);
      Store(prev, node);
      Store(node, next);
      Store(next + 8, node);
    }

    method ListAddAfter(list: int, node: int)
      modifies this
      ensures w == Lists.AddAfter(old(w), list, node)
    {
      ListAddBetween(list, Lists.Next(w, list), node);
    }

    method ListAddBefore(list: int, node: int)
      modifies this
      ensures w == Lists.AddBefore(old(w), list, node)
    {
      ListAddBetween(Lists.Prev(w, list), list, node);
    }

    method ListDel(node: int)
      modifies this
      ensures w == Lists.Del(old(w), node)
    {
      var prev, next := Lists.Prev(w, node), Lists.Next(w, node);
      Store(prev, next);
      Store(next + 8, prev);
    }

    method MemsetZero(dest: int, count: nat)
      modifies this
      ensures w == Zeroed(old(w), dest, count)
    {
      var i := 0;
      while i < count
        invariant 0 <= i <= count
        invariant w == Zeroed(old(w), dest, i)
      {
        Store(dest + 8 * i, 0);
        i := i + 1;
      }
    }
  }
}
