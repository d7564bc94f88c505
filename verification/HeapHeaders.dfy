/** The block headers that mm/malloc.c keeps in front of every block, inside the heap itself. */
module HeapHeaders {
  import opened Memory
  import opened HeapBlocks
  import Lists

  // struct mm_block: a list node, then `length` and `used`.
  const LENGTH := 16
  const USED := 24

  function Addrs(bs: seq<Blk>): (r: seq<int>)
    ensures |r| == |bs|
    ensures forall i {:trigger r[i]} | 0 <= i < |bs| :: r[i] == bs[i].addr
  {
    seq(|bs|, i requires 0 <= i < |bs| => bs[i].addr)
  }

  function Flag(used: bool): int { if used then 1 else 0 }

  /** The length and the flag of a block are in words 2 and 3 of its header, behind the list node. */
  predicate Stored(m: Mem, b: Blk) {
    Ld(m, b.addr + 16) == b.length && Ld(m, b.addr + 24) == Flag(b.used)
  }

  ghost predicate AllStored(m: Mem, bs: seq<Blk>) {
    forall i {:trigger Stored(m, bs[i])} | 0 <= i < |bs| :: Stored(m, bs[i])
  }

  /** The list headed at `head` is `bs`: its nodes in order, each with its length and its flag. */
  ghost predicate Holds(m: Mem, head: int, bs: seq<Blk>) {
    Lists.Ring(m, head, Addrs(bs)) && AllStored(m, bs)
  }

  predicate Clear(b: Blk, c: Blk) { b.addr + HEADER <= c.addr }

  predicate ClearOfHead(head: int, b: Blk) { head + Lists.NODE_SIZE <= b.addr || b.addr + HEADER <= head }

  /** No header overlaps another or the list head. */
  ghost predicate Spaced(head: int, bs: seq<Blk>) {
    && (forall i {:trigger ClearOfHead(head, bs[i])} | 0 <= i < |bs| :: ClearOfHead(head, bs[i]))
    && (forall i, j {:trigger Clear(bs[i], bs[j])} | 0 <= i < j < |bs| :: Clear(bs[i], bs[j]))
  }

  predicate HeadOutside(head: int, base: int, limit: int) { head + Lists.NODE_SIZE <= base || limit <= head }

  lemma TiledIsSpaced(head: int, bs: seq<Blk>, base: int, limit: int)
    requires Tiles(bs, base, limit) && HeadOutside(head, base, limit)
    ensures Spaced(head, bs)
  {
    forall i | 0 <= i < |bs| ensures ClearOfHead(head, bs[i]) {
      InHeap(bs, base, limit, i);
    }
    forall i, j {:trigger Clear(bs[i], bs[j])} | 0 <= i < j < |bs| ensures Clear(bs[i], bs[j]) {
      InOrder(bs, base, limit, i, j);
      assert Sized(bs[i]);
    }
  }

  predicate InHeader(b: Blk, a: int) { b.addr <= a < b.addr + HEADER }

  predicate OnHead(head: int, a: int) { head <= a < head + Lists.NODE_SIZE }

  /** Address `a` belongs to the list head or to the header of a block of `bs`. */
  ghost predicate Meta(head: int, bs: seq<Blk>, a: int) {
    OnHead(head, a) || exists i :: 0 <= i < |bs| && InHeader(bs[i], a)
  }

  /** `m` and `n` differ only in the list head and the headers of `bs`. */
  ghost predicate OnlyMeta(m: Mem, n: Mem, head: int, bs: seq<Blk>) {
    forall a | !Meta(head, bs, a) :: Ld(n, a) == Ld(m, a)
  }

  /** A node of the ring is at a distance from the two fields of any block. */
  lemma FieldsApart(head: int, bs: seq<Blk>, k: nat, i: nat)
    requires Spaced(head, bs) && k <= |bs| + 1 && i < |bs|
    ensures var a := Lists.At(head, Addrs(bs), k); var f := bs[i].addr;
            a != f + LENGTH && a + 8 != f + LENGTH && a != f + USED && a + 8 != f + USED
  {
    if 1 <= k <= |bs| {
      if k - 1 < i {
        assert Clear(bs[k - 1], bs[i]);
      } else if k - 1 > i {
        assert Clear(bs[i], bs[k - 1]);
      }
    } else {
      assert ClearOfHead(head, bs[i]);
    }
  }

  lemma NodeIsMeta(head: int, bs: seq<Blk>, k: nat)
    requires k <= |bs| + 1
    ensures var a := Lists.At(head, Addrs(bs), k); Meta(head, bs, a) && Meta(head, bs, a + 8)
  {
  }

  /** Writing a field of one block keeps the list and the fields of every other block. */
  lemma WriteField(m: Mem, head: int, bs: seq<Blk>, i: nat, field: int, value: int)
    requires Holds(m, head, bs) && Spaced(head, bs) && i < |bs| && (field == LENGTH || field == USED)
    ensures var n := m[bs[i].addr + field := value];
            && Lists.Ring(n, head, Addrs(bs)) && OnlyMeta(m, n, head, bs)
            && forall j | 0 <= j < |bs| && j != i :: Stored(n, bs[j])
  {
    var n := m[bs[i].addr + field := value];
    var s := Addrs(bs);
    forall k | 0 <= k <= |s|
      ensures Ld(m, Lists.At(head, s, k)) == Ld(n, Lists.At(head, s, k))
           && Ld(m, Lists.At(head, s, k) + 8) == Ld(n, Lists.At(head, s, k) + 8)
    {
      FieldsApart(head, bs, k, i);
    }
    Lists.RingFrame(m, n, head, s);
    forall j | 0 <= j < |bs| && j != i ensures Stored(n, bs[j]) {
      assert Stored(m, bs[j]);
      assert if j < i then Clear(bs[j], bs[i]) else Clear(bs[i], bs[j]);
    }
    assert InHeader(bs[i], bs[i].addr + field);
  }

  lemma SetUsed(m: Mem, head: int, bs: seq<Blk>, i: nat, used: bool)
    requires Holds(m, head, bs) && Spaced(head, bs) && i < |bs|
    ensures var n := m[bs[i].addr + USED := Flag(used)];
            Holds(n, head, bs[i := bs[i].(used := used)]) && OnlyMeta(m, n, head, bs)
  {
    var n, cs := m[bs[i].addr + USED := Flag(used)], bs[i := bs[i].(used := used)];
    WriteField(m, head, bs, i, USED, Flag(used));
    assert Addrs(cs) == Addrs(bs);
    assert Stored(m, bs[i]);
    forall j | 0 <= j < |cs| ensures Stored(n, cs[j]) {
      assert j != i ==> Stored(n, bs[j]);
    }
  }

  lemma SetLength(m: Mem, head: int, bs: seq<Blk>, i: nat, length: int)
    requires Holds(m, head, bs) && Spaced(head, bs) && i < |bs|
    ensures var n := m[bs[i].addr + LENGTH := length];
            Holds(n, head, bs[i := bs[i].(length := length)]) && OnlyMeta(m, n, head, bs)
  {
    var n, cs := m[bs[i].addr + LENGTH := length], bs[i := bs[i].(length := length)];
    WriteField(m, head, bs, i, LENGTH, length);
    assert Addrs(cs) == Addrs(bs);
    assert Stored(m, bs[i]);
    forall j | 0 <= j < |cs| ensures Stored(n, cs[j]) {
      assert j != i ==> Stored(n, bs[j]);
    }
  }

  /** Two memories with the same list words and fields hold the same list. */
  lemma HoldsFrame(m: Mem, n: Mem, head: int, bs: seq<Blk>)
    requires Holds(m, head, bs) && forall a | Meta(head, bs, a) :: Ld(n, a) == Ld(m, a)
    ensures Holds(n, head, bs)
  {
    var s := Addrs(bs);
    forall k | 0 <= k <= |s|
      ensures Ld(m, Lists.At(head, s, k)) == Ld(n, Lists.At(head, s, k))
           && Ld(m, Lists.At(head, s, k) + 8) == Ld(n, Lists.At(head, s, k) + 8)
    {
      NodeIsMeta(head, bs, k);
    }
    Lists.RingFrame(m, n, head, s);
    forall j | 0 <= j < |bs| ensures Stored(n, bs[j]) {
      assert Stored(m, bs[j]);
      assert InHeader(bs[j], bs[j].addr + LENGTH) && InHeader(bs[j], bs[j].addr + USED);
    }
  }

  /** Linking two nodes of the ring to each other touches no field and nothing but headers. */
  lemma RelinkKeeps(m: Mem, head: int, bs: seq<Blk>, i: nat, j: nat)
    requires Spaced(head, bs) && i <= |bs| + 1 && j <= |bs| + 1
    ensures var x, y := Lists.At(head, Addrs(bs), i), Lists.At(head, Addrs(bs), j);
            var n := m[x := y][y + 8 := x];
            && (AllStored(m, bs) ==> AllStored(n, bs)) && OnlyMeta(m, n, head, bs)
  {
    var x, y := Lists.At(head, Addrs(bs), i), Lists.At(head, Addrs(bs), j);
    forall k | 0 <= k < |bs| && Stored(m, bs[k]) ensures Stored(m[x := y][y + 8 := x], bs[k]) {
      FieldsApart(head, bs, i, k);
      FieldsApart(head, bs, j, k);
    }
    NodeIsMeta(head, bs, i);
    NodeIsMeta(head, bs, j);
  }

  lemma StoredRemove(m: Mem, bs: seq<Blk>, i: nat)
    requires AllStored(m, bs) && i < |bs|
    ensures AllStored(m, Lists.Remove(bs, i)) && Addrs(Lists.Remove(bs, i)) == Lists.Remove(Addrs(bs), i)
  {
  }

  /** list_del of block `i` drops it from the list. */
  lemma DelBlock(m: Mem, head: int, bs: seq<Blk>, i: nat)
    requires Holds(m, head, bs) && Spaced(head, bs) && i < |bs|
    ensures Holds(Lists.Del(m, bs[i].addr), head, Lists.Remove(bs, i))
    ensures OnlyMeta(m, Lists.Del(m, bs[i].addr), head, bs)
  {
    Lists.Neighbours(m, head, Addrs(bs), i);
    Lists.DelKeepsRing(m, head, Addrs(bs), i);
    RelinkKeeps(m, head, bs, i, i + 2);
    StoredRemove(Lists.Del(m, bs[i].addr), bs, i);
  }

  /** What the four stores of __list_add keep. */
  lemma AddKeepsFields(m: Mem, head: int, cs: seq<Blk>, k: nat)
    requires Spaced(head, cs) && k < |cs|
    ensures var x, y := Lists.At(head, Addrs(cs), k), Lists.At(head, Addrs(cs), k + 2);
            var n := Lists.AddBetween(m, x, y, cs[k].addr);
            && (AllStored(m, cs) ==> AllStored(n, cs)) && OnlyMeta(m, n, head, cs)
  {
    var x, y := Lists.At(head, Addrs(cs), k), Lists.At(head, Addrs(cs), k + 2);
    forall j | 0 <= j < |cs| && Stored(m, cs[j]) ensures Stored(Lists.AddBetween(m, x, y, cs[k].addr), cs[j]) {
      FieldsApart(head, cs, k, j);
      FieldsApart(head, cs, k + 1, j);
      FieldsApart(head, cs, k + 2, j);
    }
    NodeIsMeta(head, cs, k);
    NodeIsMeta(head, cs, k + 1);
    NodeIsMeta(head, cs, k + 2);
  }

  lemma NewNodeApart(head: int, cs: seq<Blk>, k: nat)
    requires Spaced(head, cs) && k < |cs|
    ensures Lists.Apart(head, cs[k].addr)
    ensures forall j | 0 <= j < |cs| && j != k :: Lists.Apart(cs[j].addr, cs[k].addr)
  {
    assert ClearOfHead(head, cs[k]);
    forall j | 0 <= j < |cs| && j != k ensures Lists.Apart(cs[j].addr, cs[k].addr) {
      assert if j < k then Clear(cs[j], cs[k]) else Clear(cs[k], cs[j]);
    }
  }

  /** Linking in a block whose fields are already written inserts it in the list. */
  lemma AddBlock(m: Mem, head: int, bs: seq<Blk>, k: nat, b: Blk)
    requires Holds(m, head, bs) && k <= |bs| && Spaced(head, Lists.Insert(bs, k, b)) && Stored(m, b)
    ensures var s := Addrs(bs);
            var n := Lists.AddBetween(m, Lists.At(head, s, k), Lists.At(head, s, k + 1), b.addr);
            Holds(n, head, Lists.Insert(bs, k, b)) && OnlyMeta(m, n, head, Lists.Insert(bs, k, b))
  {
    var s, cs := Addrs(bs), Lists.Insert(bs, k, b);
    NewNodeApart(head, cs, k);
    forall j | 0 <= j < |s| ensures Lists.Apart(s[j], b.addr) {
      assert s[j] == cs[if j < k then j else j + 1].addr;
    }
    Lists.AddKeepsRing(m, head, s, k, b.addr);
    assert Addrs(cs) == Lists.Insert(s, k, b.addr);
    assert Lists.At(head, s, k) == Lists.At(head, Addrs(cs), k);
    assert Lists.At(head, s, k + 1) == Lists.At(head, Addrs(cs), k + 2);
    forall j | 0 <= j < |cs| ensures Stored(m, cs[j]) {
      assert j != k ==> Stored(m, bs[if j < k then j else j - 1]);
    }
    AddKeepsFields(m, head, cs, k);
  }

  /** Zeroing a header that no longer belongs to a block leaves the list alone. */
  lemma ClearHeader(m: Mem, head: int, bs: seq<Blk>, gone: Blk)
    requires Holds(m, head, bs) && ClearOfHead(head, gone)
    requires forall i | 0 <= i < |bs| :: Clear(bs[i], gone) || Clear(gone, bs[i])
    ensures Holds(Zeroed(m, gone.addr, 4), head, bs)
    ensures forall a | !InHeader(gone, a) :: Ld(Zeroed(m, gone.addr, 4), a) == Ld(m, a)
  {
    var n := Zeroed(m, gone.addr, 4);
    forall a | !InHeader(gone, a) ensures Ld(n, a) == Ld(m, a) {
      ZeroedAt(m, gone.addr, 4, a);
    }
    HoldsFrame(m, n, head, bs);
  }

  // ----- what clients hold -----

  /** Address `a` lies in the payload of a block that is handed out. */
  ghost predicate LiveWord(bs: seq<Blk>, a: int) {
    exists i :: 0 <= i < |bs| && bs[i].used && Payload(bs[i]) <= a < End(bs[i])
  }

  /** Every word that clients hold is the same in `m` and `n`. */
  ghost predicate KeepsLive(m: Mem, n: Mem, bs: seq<Blk>) {
    forall a | LiveWord(bs, a) :: Ld(n, a) == Ld(m, a)
  }

  /** No word that clients hold is a header word or a word of the list head. */
  lemma LiveIsNotMeta(head: int, bs: seq<Blk>, base: int, limit: int, a: int)
    requires Tiles(bs, base, limit) && HeadOutside(head, base, limit) && LiveWord(bs, a)
    ensures !Meta(head, bs, a) && base <= a < limit
  {
    var i :| 0 <= i < |bs| && bs[i].used && Payload(bs[i]) <= a < End(bs[i]);
    InHeap(bs, base, limit, i);
    forall j | 0 <= j < |bs| ensures !InHeader(bs[j], a) {
      if j != i {
        AddressesDiffer(bs, base, limit, i, j);
        assert Sized(bs[j]);
      }
    }
  }

  lemma MetaKeepsLive(m: Mem, n: Mem, head: int, bs: seq<Blk>, base: int, limit: int)
    requires Tiles(bs, base, limit) && HeadOutside(head, base, limit) && OnlyMeta(m, n, head, bs)
    ensures KeepsLive(m, n, bs)
  {
    forall a | LiveWord(bs, a) ensures Ld(n, a) == Ld(m, a) {
      LiveIsNotMeta(head, bs, base, limit, a);
    }
  }
}
