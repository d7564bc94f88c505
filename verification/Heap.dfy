/** What the stores of mm/malloc.c make of the block list. */
module HeapSteps {
  import opened Memory
  import opened HeapBlocks
  import opened HeapHeaders
  import Lists

  lemma SameMeta(head: int, bs: seq<Blk>, i: nat, b: Blk, a: int)
    requires i < |bs| && b.addr == bs[i].addr
    ensures Meta(head, bs[i := b], a) <==> Meta(head, bs, a)
  {
    var cs := bs[i := b];
    if Meta(head, cs, a) && !OnHead(head, a) {
      var j :| 0 <= j < |cs| && InHeader(cs[j], a);
      assert InHeader(bs[j], a);
    }
    if Meta(head, bs, a) && !OnHead(head, a) {
      var j :| 0 <= j < |bs| && InHeader(bs[j], a);
      assert InHeader(cs[j], a);
    }
  }

  lemma MetaInserted(head: int, bs: seq<Blk>, k: nat, b: Blk, a: int)
    requires k <= |bs|
    ensures Meta(head, Lists.Insert(bs, k, b), a) <==> Meta(head, bs, a) || InHeader(b, a)
  {
    var cs := Lists.Insert(bs, k, b);
    if Meta(head, cs, a) && !OnHead(head, a) {
      var j :| 0 <= j < |cs| && InHeader(cs[j], a);
      assert j != k ==> InHeader(bs[if j < k then j else j - 1], a);
    }
    if Meta(head, bs, a) && !OnHead(head, a) {
      var j :| 0 <= j < |bs| && InHeader(bs[j], a);
      assert InHeader(cs[if j < k then j else j + 1], a);
    }
    assert cs[k] == b;
  }

  lemma SameMetaWords(m: Mem, n: Mem, head: int, bs: seq<Blk>, i: nat, b: Blk)
    requires OnlyMeta(m, n, head, bs) && i < |bs| && b.addr == bs[i].addr
    ensures OnlyMeta(m, n, head, bs[i := b])
  {
    forall a | !Meta(head, bs[i := b], a) ensures Ld(n, a) == Ld(m, a) {
      SameMeta(head, bs, i, b, a);
    }
  }

  /** The header of a new block, filled in before it is linked. */
  function NewHeader(m: Mem, b: Blk): Mem {
    Lists.Init(m, b.addr)[b.addr + LENGTH := b.length][b.addr + USED := Flag(b.used)]
  }

  lemma NewHeaderKeeps(m: Mem, head: int, bs: seq<Blk>, k: nat, b: Blk)
    requires Holds(m, head, bs) && k <= |bs| && Spaced(head, Lists.Insert(bs, k, b))
    ensures Holds(NewHeader(m, b), head, bs) && Stored(NewHeader(m, b), b)
    ensures forall a | !InHeader(b, a) :: Ld(NewHeader(m, b), a) == Ld(m, a)
  {
    var cs := Lists.Insert(bs, k, b);
    forall a | Meta(head, bs, a) ensures !InHeader(b, a) {
      NewHeaderIsApart(head, bs, k, b, a);
    }
    HoldsFrame(m, NewHeader(m, b), head, bs);
  }

  lemma NewHeaderIsApart(head: int, bs: seq<Blk>, k: nat, b: Blk, a: int)
    requires k <= |bs| && Spaced(head, Lists.Insert(bs, k, b)) && Meta(head, bs, a)
    ensures !InHeader(b, a)
  {
    var cs := Lists.Insert(bs, k, b);
    assert cs[k] == b && ClearOfHead(head, cs[k]);
    if !OnHead(head, a) {
      var j :| 0 <= j < |bs| && InHeader(bs[j], a);
      if j < k {
        assert Clear(cs[j], cs[k]);
      } else {
        assert Clear(cs[k], cs[j + 1]);
      }
    }
  }

  /** All the stores of a split: shorten the block, fill in the new header, link it in. */
  function Split(m: Mem, b: Blk, size: int): Mem {
    Lists.AddAfter(NewHeader(m[b.addr + LENGTH := b.length - size - HEADER], Tail(b, size)), b.addr, Tail(b, size).addr)
  }

  /** The memory before the new header is linked in: the shortened block and the list are there. */
  lemma SplitPrepared(m: Mem, head: int, bs: seq<Blk>, i: nat, size: int)
    requires Holds(m, head, bs) && Spaced(head, bs) && i < |bs| && Fits(bs[i], size) && !Whole(bs[i], size)
    requires Spaced(head, Take(bs, i, size))
    ensures var b := bs[i]; var bs1 := bs[i := Rest(b, size)];
            var m2 := NewHeader(m[b.addr + LENGTH := b.length - size - HEADER], Tail(b, size));
            && Holds(m2, head, bs1) && Stored(m2, Tail(b, size))
            && Take(bs, i, size) == Lists.Insert(bs1, i + 1, Tail(b, size))
            && OnlyMeta(m, m2, head, Take(bs, i, size))
  {
    var b, t := bs[i], Tail(bs[i], size);
    var bs1 := bs[i := Rest(b, size)];
    SetLength(m, head, bs, i, b.length - size - HEADER);
    NewHeaderKeeps(m[b.addr + LENGTH := b.length - size - HEADER], head, bs1, i + 1, t);
    forall a ensures Meta(head, Take(bs, i, size), a) <==> Meta(head, bs, a) || InHeader(t, a) {
      MetaInserted(head, bs1, i + 1, t, a);
      SameMeta(head, bs, i, Rest(b, size), a);
    }
  }

  /** The whole split: the list is that of the new blocks, and no word outside the headers changes. */
  lemma SplitStep(m: Mem, head: int, bs: seq<Blk>, i: nat, size: int)
    requires Holds(m, head, bs) && Spaced(head, bs) && i < |bs| && Fits(bs[i], size) && !Whole(bs[i], size)
    requires Spaced(head, Take(bs, i, size))
    ensures Holds(Split(m, bs[i], size), head, Take(bs, i, size))
    ensures OnlyMeta(m, Split(m, bs[i], size), head, Take(bs, i, size))
  {
    var b, t := bs[i], Tail(bs[i], size);
    var bs1 := bs[i := Rest(b, size)];
    SplitPrepared(m, head, bs, i, size);
    var m2 := NewHeader(m[b.addr + LENGTH := b.length - size - HEADER], t);
    Lists.Neighbours(m2, head, Addrs(bs1), i);
    AddBlock(m2, head, bs1, i + 1, t);
  }

  /** All the stores of one join: lengthen the block, unlink its neighbour, zero the neighbour's header. */
  function Joined(m: Mem, b: Blk, c: Blk): Mem {
    Zeroed(Lists.Del(m[b.addr + LENGTH := Join(b, c).length], c.addr), c.addr, 4)
  }

  lemma JoinStep(m: Mem, head: int, bs: seq<Blk>, i: nat)
    requires Holds(m, head, bs) && Spaced(head, bs) && i + 1 < |bs|
    ensures Holds(Joined(m, bs[i], bs[i + 1]), head, JoinAt(bs, i))
    ensures OnlyMeta(m, Joined(m, bs[i], bs[i + 1]), head, bs)
  {
    var b, c := bs[i], bs[i + 1];
    var bs1 := bs[i := Join(b, c)];
    var m1 := m[b.addr + LENGTH := Join(b, c).length];
    SetLength(m, head, bs, i, Join(b, c).length);
    SameSpacing(head, bs, i, Join(b, c));
    DelBlock(m1, head, bs1, i + 1);
    GoneIsClear(head, bs1, i + 1);
    ClearHeader(Lists.Del(m1, c.addr), head, JoinAt(bs, i), c);
    forall a | !Meta(head, bs, a) ensures Ld(m, a) == Ld(Joined(m, b, c), a) {
      SameMeta(head, bs, i, Join(b, c), a);
      assert !InHeader(c, a);
    }
  }

  lemma SameSpacing(head: int, bs: seq<Blk>, i: nat, b: Blk)
    requires Spaced(head, bs) && i < |bs| && b.addr == bs[i].addr
    ensures Spaced(head, bs[i := b])
  {
    var cs := bs[i := b];
    forall j | 0 <= j < |cs| ensures ClearOfHead(head, cs[j]) {
      assert ClearOfHead(head, bs[j]);
    }
    forall j, k {:trigger Clear(cs[j], cs[k])} | 0 <= j < k < |cs| ensures Clear(cs[j], cs[k]) {
      assert Clear(bs[j], bs[k]);
    }
  }

  lemma GoneIsClear(head: int, bs: seq<Blk>, i: nat)
    requires Spaced(head, bs) && i < |bs|
    ensures ClearOfHead(head, bs[i])
    ensures var cs := Lists.Remove(bs, i);
            forall j | 0 <= j < |cs| :: Clear(cs[j], bs[i]) || Clear(bs[i], cs[j])
  {
  }
}

/** The kernel heap of mm/malloc.c. */
module Heap {
  import opened Memory
  import opened HeapBlocks
  import opened HeapHeaders
  import opened HeapSteps
  import opened RamObject
  import Lists

  const KERNEL_HEAP_BASE := 0xffff_f800_0000_0000
  const NULL := 0
  const MAX_REQUEST := 0xffff_ffff_ffff_fff0   // up to here rounding does not wrap

  /** roundsize: up to a multiple of 16. */
  function RoundSize(size: nat): (r: nat)
    ensures size <= r < size + 16 && r % 16 == 0
  {
    if size % 16 != 0 then size - size % 16 + 16 else size
  }

  /** Walking the ring from its head comes back to the head exactly after the last block. */
  lemma WalkEnds(m: Mem, head: int, bs: seq<Blk>, i: nat)
    requires Holds(m, head, bs) && Spaced(head, bs) && i <= |bs|
    ensures Lists.At(head, Addrs(bs), i + 1) == head <==> i == |bs|
    ensures i < |bs| ==> && Lists.At(head, Addrs(bs), i + 1) == bs[i].addr && Stored(m, bs[i])
                         && Lists.Next(m, bs[i].addr) == Lists.At(head, Addrs(bs), i + 2)
  {
    if i < |bs| {
      assert ClearOfHead(head, bs[i]) && Stored(m, bs[i]);
      Lists.Neighbours(m, head, Addrs(bs), i);
    }
  }

  /** The pairs of neighbours before block `i` are not both free. */
  ghost predicate JoinedUpTo(bs: seq<Blk>, i: nat) {
    forall j | 0 <= j < i && j + 1 < |bs| :: bs[j].used || bs[j + 1].used
  }

  lemma JoinKeepsDone(bs: seq<Blk>, i: nat)
    requires i + 1 < |bs| && JoinedUpTo(bs, i)
    ensures JoinedUpTo(JoinAt(bs, i), i)
  {
  }

  lemma LengthsNext(bs: seq<Blk>, i: nat)
    requires i < |bs|
    ensures Lengths(bs[..i + 1]) == Lengths(bs[..i]) + bs[i].length
  {
    assert bs[..i + 1] == bs[..i] + [bs[i]];
    AvailableSplit(bs[..i], [bs[i]]);
  }

  /** Joining has changed neither what is handed out, nor which addresses are taken, nor a word that clients hold. */
  ghost predicate MergedFrom(w0: Mem, bs0: seq<Blk>, w: Mem, bs: seq<Blk>) {
    Live(bs) == Live(bs0) && (forall a :: Taken(bs, a) <==> Taken(bs0, a)) && KeepsLive(w0, w, bs0)
  }

  lemma LiveWordOfLive(bs: seq<Blk>, a: int)
    ensures LiveWord(bs, a) <==> exists p :: p in Live(bs) && p.0 <= a < p.0 + p.1
  {
    if LiveWord(bs, a) {
      var i :| 0 <= i < |bs| && bs[i].used && Payload(bs[i]) <= a < End(bs[i]);
      LiveMember(bs, i);
    }
  }

  lemma MergedFurther(w0: Mem, bs0: seq<Blk>, w1: Mem, bs1: seq<Blk>, w2: Mem, bs2: seq<Blk>)
    requires MergedFrom(w0, bs0, w1, bs1) && MergedFrom(w1, bs1, w2, bs2)
    ensures MergedFrom(w0, bs0, w2, bs2)
  {
    forall a | LiveWord(bs0, a) ensures Ld(w2, a) == Ld(w0, a) {
      LiveWordOfLive(bs0, a);
      LiveWordOfLive(bs1, a);
    }
  }

  /** The block that is handed out is new, aligned, long enough, and not much longer. */
  lemma GivenIsHandedOut(bs: seq<Blk>, base: int, limit: int, i: nat, size: int)
    requires Tiles(bs, base, limit) && base % 16 == 0
    requires i < |bs| && Fits(bs[i], size) && size >= 16 && size % 16 == 0
    ensures var ptr := Payload(Given(bs[i], size)); HandedOut(bs, Take(bs, i, size), ptr, size) && ptr > base
  {
    var cs, g := Take(bs, i, size), Given(bs[i], size);
    TakeTiles(bs, base, limit, i, size);
    TakeLive(bs, i, size);
    var k := if Whole(bs[i], size) then i else i + 1;
    assert cs[k] == g;
    Aligned(cs, base, limit, k);
    InHeap(cs, base, limit, k);
    GivenIsNew(bs, base, limit, i, size);
    GivenIsTail(bs[i], size);
    TakenWith(bs, cs, Payload(g), g.length);
    assert GivesOut(bs, cs, Payload(g), g.length);
  }

  /** Everything a caller of __malloc needs to know about the block it hands out. */
  lemma TakeDone(m: Mem, n: Mem, head: int, bs: seq<Blk>, base: int, limit: int, i: nat, size: int)
    requires Tiles(bs, base, limit) && HeadOutside(head, base, limit) && base % 16 == 0
    requires i < |bs| && Fits(bs[i], size) && size >= 16 && size % 16 == 0
    requires OnlyMeta(m, n, head, Take(bs, i, size))
    ensures Tiles(Take(bs, i, size), base, limit) && KeepsLive(m, n, bs)
    ensures var ptr := Payload(Given(bs[i], size)); HandedOut(bs, Take(bs, i, size), ptr, size) && ptr > base
  {
    var cs := Take(bs, i, size);
    TakeTiles(bs, base, limit, i, size);
    GivenIsHandedOut(bs, base, limit, i, size);
    TakeLive(bs, i, size);
    MetaKeepsLive(m, n, head, cs, base, limit);
    forall a | LiveWord(bs, a) ensures LiveWord(cs, a) {
      LiveWordOfLive(bs, a);
      LiveWordOfLive(cs, a);
    }
  }

  lemma GivenIsNew(bs: seq<Blk>, base: int, limit: int, i: nat, size: int)
    requires Tiles(bs, base, limit) && i < |bs| && Fits(bs[i], size) && size >= 0
    ensures var g := Given(bs[i], size); (Payload(g), g.length) !in Live(bs)
  {
    var g := Given(bs[i], size);
    forall j | 0 <= j < |bs| && bs[j].used ensures bs[j].addr != g.addr {
      AddressesDiffer(bs, base, limit, i, j);
      assert Sized(bs[i]) && Sized(bs[j]);
    }
  }

  /** One more block is handed out: at `ptr`, aligned, long enough, longer by less than a header of 32 bytes and the
      smallest block of 16, and not held by anyone before. Nothing but this block and its header is taken that was
      free. */
  ghost predicate HandedOut(bs: seq<Blk>, cs: seq<Blk>, ptr: int, size: int) {
    exists length :: GivesOut(bs, cs, ptr, length) && size <= length < size + 48 && ptr % 16 == 0
  }

  ghost predicate GivesOut(bs: seq<Blk>, cs: seq<Blk>, ptr: int, length: int) {
    && (ptr, length) !in Live(bs) && Live(cs) == Live(bs) + {(ptr, length)}
    && forall a :: Taken(cs, a) <==> Taken(bs, a) || ptr - 32 <= a < ptr + length
  }

  lemma {:induction false} FirstFitIs(bs: seq<Blk>, size: int, i: nat)
    requires i <= |bs| && (forall j | 0 <= j < i :: !Fits(bs[j], size)) && (i < |bs| ==> Fits(bs[i], size))
    ensures FirstFit(bs, size) == i
  {
  }

  /** The words of the `size` bytes at `ptr` are all zero. */
  ghost predicate ZeroBytes(m: Mem, ptr: int, size: nat) {
    forall k: nat | 8 * k < size :: Ld(m, ptr + 8 * k) == 0
  }

  lemma SameSpans(bs: seq<Blk>, cs: seq<Blk>, base: int, limit: int, size: int)
    requires forall a :: Taken(cs, a) <==> Taken(bs, a)
    ensures forall x :: FreeSpan(cs, base, limit, x, size) <==> FreeSpan(bs, base, limit, x, size)
  {
  }

  lemma KeepsLiveTwice(w0: Mem, bs0: seq<Blk>, w1: Mem, bs1: seq<Blk>, w2: Mem)
    requires KeepsLive(w0, w1, bs0) && KeepsLive(w1, w2, bs1) && Live(bs0) == Live(bs1)
    ensures KeepsLive(w0, w2, bs0)
  {
    forall a | LiveWord(bs0, a) ensures Ld(w2, a) == Ld(w0, a) {
      LiveWordOfLive(bs0, a);
      LiveWordOfLive(bs1, a);
    }
  }

  lemma KeepsLiveThen(w0: Mem, bs: seq<Blk>, w1: Mem, w2: Mem)
    requires KeepsLive(w0, w1, bs) && KeepsLive(w1, w2, bs)
    ensures KeepsLive(w0, w2, bs)
  {
  }

  lemma HandedOutFrom(bs0: seq<Blk>, bs1: seq<Blk>, bs: seq<Blk>, ptr: int, size: int)
    requires HandedOut(bs1, bs, ptr, size) && Live(bs0) == Live(bs1)
    ensures HandedOut(bs0, bs, ptr, size)
  {
    var length :| GivesOut(bs1, bs, ptr, length) && size <= length < size + 48 && ptr % 16 == 0;
    TakenWith(bs0, bs, ptr, length);
    assert GivesOut(bs0, bs, ptr, length);
  }

  /** The memset of a block just handed out stays inside it. */
  lemma ZeroNew(m: Mem, head: int, bs: seq<Blk>, cs: seq<Blk>, base: int, limit: int, ptr: int, size: nat)
    requires Holds(m, head, cs) && Tiles(cs, base, limit) && HeadOutside(head, base, limit)
    requires HandedOut(bs, cs, ptr, size) && size % 8 == 0
    ensures Holds(Zeroed(m, ptr, size / 8), head, cs) && KeepsLive(m, Zeroed(m, ptr, size / 8), bs)
    ensures ZeroBytes(Zeroed(m, ptr, size / 8), ptr, size)
  {
    var n := Zeroed(m, ptr, size / 8);
    var length :| GivesOut(bs, cs, ptr, length) && size <= length < size + 48 && ptr % 16 == 0;
    forall a | Meta(head, cs, a) ensures Ld(n, a) == Ld(m, a) {
      ZeroedAt(m, ptr, size / 8, a);
      if ptr <= a < ptr + size {
        LiveWordOfLive(cs, a);
        assert (ptr, length) in Live(cs);
        LiveIsNotMeta(head, cs, base, limit, a);
        assert false;
      }
    }
    HoldsFrame(m, n, head, cs);
    forall a | LiveWord(bs, a) ensures Ld(n, a) == Ld(m, a) {
      ZeroedAt(m, ptr, size / 8, a);
      LiveWordOfLive(bs, a);
      var p :| p in Live(bs) && p.0 <= a < p.0 + p.1;
      LiveApart(cs, base, limit, p, (ptr, length));
    }
    forall k: nat | 8 * k < size ensures Ld(n, ptr + 8 * k) == 0 {
      ZeroedAt(m, ptr, size / 8, ptr + 8 * k);
    }
  }

  // ----- The memset that follows a failed allocation -----

  /** Where the heap and the head of its list are: in the kernel's address space, and in physical memory. */
  datatype Layout = Layout(base: int, limit: int, head: int, heapAt: nat, headAt: nat)
  {
    predicate Placed() {
      && 0 < base && limit <= head && base % 8 == 0 && head % 8 == 0 && heapAt % 8 == 0 && headAt % 8 == 0
    }

    /** The physical address behind a word of the heap or of the head; low addresses are mapped to themselves. */
    function Phys(a: int): int {
      if base <= a < limit then heapAt + (a - base)
      else if OnHead(head, a) then headAt + (a - head)
      else a
    }

    /** Clearing `size` bytes from physical address 0 on reaches neither the heap nor the head. */
    predicate Spared(size: int) { size <= heapAt && size <= headAt }
  }

  /** One word of the memset at address 0: it is zero from then on at every address it is mapped at. */
  function StoreLow(m: Mem, l: Layout, pa: int): Mem {
    var m1 := if l.Phys(pa) == pa then m[pa := 0] else m;
    var m2 := if l.heapAt <= pa < l.heapAt + (l.limit - l.base) then m1[l.base + (pa - l.heapAt) := 0] else m1;
    if l.headAt <= pa < l.headAt + Lists.NODE_SIZE then m2[l.head + (pa - l.headAt) := 0] else m2
  }

  /** memset(0, 0, 8 * count) */
  function Wiped(m: Mem, l: Layout, count: nat): Mem {
    if count == 0 then m else StoreLow(Wiped(m, l, count - 1), l, 8 * (count - 1))
  }

  lemma StoreLowAt(m: Mem, l: Layout, pa: int, a: int)
    requires l.Placed()
    ensures Ld(StoreLow(m, l, pa), a) == if l.Phys(a) == pa then 0 else Ld(m, a)
  {
  }

  /** A word is wiped exactly when its physical address is among those cleared. */
  lemma {:induction false} WipedAt(m: Mem, l: Layout, count: nat, a: int, k: int)
    requires l.Placed() && l.Phys(a) == 8 * k
    ensures Ld(Wiped(m, l, count), a) == if 0 <= k < count then 0 else Ld(m, a)
  {
    if count > 0 {
      WipedAt(m, l, count - 1, a, k);
      StoreLowAt(Wiped(m, l, count - 1), l, 8 * (count - 1), a);
    }
  }

  /** When both tries have failed, malloc clears `size` bytes at address 0, which is mapped to physical address 0: the
      heap and the head of its list are left alone exactly when `size` reaches the physical address of neither. */
  lemma FailedMallocWipes(m: Mem, l: Layout, bs: seq<Blk>, size: nat)
    requires l.Placed() && Holds(m, l.head, bs) && Tiles(bs, l.base, l.limit) && size % 8 == 0
    ensures Holds(Wiped(m, l, size / 8), l.head, bs) <==> l.Spared(size)
    ensures l.Spared(size) ==> KeepsLive(m, Wiped(m, l, size / 8), bs)
  {
    var n := Wiped(m, l, size / 8);
    if l.Spared(size) {
      SparedIsKept(m, l, bs, size);
    } else if Holds(n, l.head, bs) {
      TiledIsSpaced(l.head, bs, l.base, l.limit);
      WalkEnds(n, l.head, bs, 0);
      NextIsNotNull(l.head, bs, l.base, l.limit);
      InHeap(bs, l.base, l.limit, 0);
      WipedAt(m, l, size / 8, l.base, l.heapAt / 8);
      WipedAt(m, l, size / 8, l.head, l.headAt / 8);
      Lists.Ends(n, l.head, Addrs(bs));
      assert false;
    }
  }

  lemma SparedIsKept(m: Mem, l: Layout, bs: seq<Blk>, size: nat)
    requires l.Placed() && Holds(m, l.head, bs) && Tiles(bs, l.base, l.limit) && size % 8 == 0 && l.Spared(size)
    ensures Holds(Wiped(m, l, size / 8), l.head, bs) && KeepsLive(m, Wiped(m, l, size / 8), bs)
  {
    var n := Wiped(m, l, size / 8);
    forall a | l.base <= a < l.limit || OnHead(l.head, a) ensures Ld(n, a) == Ld(m, a) {
      SparedWord(m, l, size / 8, a);
    }
    forall a | Meta(l.head, bs, a) ensures l.base <= a < l.limit || OnHead(l.head, a) {
      MetaIsInHeap(l.head, bs, l.base, l.limit, a);
    }
    HoldsFrame(m, n, l.head, bs);
    forall a | LiveWord(bs, a) ensures l.base <= a < l.limit {
      LiveIsNotMeta(l.head, bs, l.base, l.limit, a);
    }
  }

  lemma {:induction false} SparedWord(m: Mem, l: Layout, count: nat, a: int)
    requires l.Placed() && l.Spared(8 * count) && (l.base <= a < l.limit || OnHead(l.head, a))
    ensures Ld(Wiped(m, l, count), a) == Ld(m, a)
  {
    if count > 0 {
      SparedWord(m, l, count - 1, a);
    }
  }

  /** The heap as malloc_init leaves it: one free block. */
  function InitialHeap(l: Layout): seq<Blk> { [Blk(l.base, l.limit - l.base - HEADER, false)] }

  /** malloc of as many bytes as the initial heap has fails, and wipes the heap if its pages begin below that size: here
      2^28 bytes, the size malloc_init asks for. */
  lemma FailingRequest(m: Mem, l: Layout)
    requires l.Placed() && l.limit == l.base + 0x1000_0000 && l.heapAt < 0x1000_0000
    requires Holds(m, l.head, InitialHeap(l))
    ensures !exists x :: FreeSpan(InitialHeap(l), l.base, l.limit, x, RoundSize(0x1000_0000))
    ensures !Holds(Wiped(m, l, RoundSize(0x1000_0000) / 8), l.head, InitialHeap(l))
  {
    FailedMallocWipes(m, l, InitialHeap(l), 0x1000_0000);
  }

  lemma MetaIsInHeap(head: int, bs: seq<Blk>, base: int, limit: int, a: int)
    requires Tiles(bs, base, limit) && limit <= head && Meta(head, bs, a)
    ensures base <= a < limit || OnHead(head, a)
  {
    InHeap(bs, base, limit, 0);
    if !OnHead(head, a) {
      var i :| 0 <= i < |bs| && InHeader(bs[i], a);
      InHeap(bs, base, limit, i);
    }
  }

  lemma NextIsNotNull(head: int, bs: seq<Blk>, base: int, limit: int)
    requires Tiles(bs, base, limit) && limit <= head && base > 0
    ensures Lists.At(head, Addrs(bs), 2) != NULL
  {
    InHeap(bs, base, limit, 0);
    if |bs| > 1 {
      InHeap(bs, base, limit, 1);
    }
  }

  class KernelHeap {
    const ram: Ram
    const head: int         // &vm_heap.mm_list
    const total: int
    const heapAt: nat       // the physical addresses of the heap's pages and of the list head
    const headAt: nat
    var available: int
    var blockCount: int
    ghost var blocks: seq<Blk>

    ghost function Limit(): int { KERNEL_HEAP_BASE + total }

    function Place(): Layout { Layout(KERNEL_HEAP_BASE, KERNEL_HEAP_BASE + total, head, heapAt, headAt) }

    ghost predicate Valid()
      reads this, ram
    {
      && Holds(ram.w, head, blocks) && Tiles(blocks, KERNEL_HEAP_BASE, Limit()) && Limit() <= head && Place().Placed()
      && available == Available(blocks) && blockCount == |blocks|
    }

    /** Heap set-up in malloc_init, once the heap's pages are mapped. */
    constructor (ram: Ram, head: int, total: int, heapAt: nat, headAt: nat)
      requires total >= HEADER + 16 && total % 16 == 0 && KERNEL_HEAP_BASE + total <= head
      requires head % 8 == 0 && heapAt % 8 == 0 && headAt % 8 == 0
      modifies ram
      ensures Valid() && this.ram == ram
      ensures Place() == Layout(KERNEL_HEAP_BASE, KERNEL_HEAP_BASE + total, head, heapAt, headAt)
      ensures blocks == [Blk(KERNEL_HEAP_BASE, total - HEADER, false)]
    {
      this.ram, this.head, this.total, this.heapAt, this.headAt := ram, head, total, heapAt, headAt;
      blockCount := 1;
      available := total - 1 * HEADER;
      var block := Blk(KERNEL_HEAP_BASE, total - HEADER, false);
      blocks := [block];
      new;
      ram.ListInit(head);
      Lists.InitRing(old(ram.w), head);
      assert Holds(ram.w, head, []);
      assert Lists.Insert([], 0, block) == [block];
      NewHeaderKeeps(ram.w, head, [], 0, block);
      ghost var m := NewHeader(ram.w, block);
      ram.ListInit(block.addr);
      ram.Store(block.addr + LENGTH, block.length);
      ram.Store(block.addr + USED, 0);
      assert ram.w == m;
      Lists.Ends(m, head, []);
      AddBlock(m, head, [], 0, block);
      ram.ListAddAfter(head, block.addr);
    }

    /** The tail of __malloc when the block is handed out whole. */
    method TakeWhole(entry: int, ghost i: nat, size: nat) returns (ptr: int)
      requires Valid() && i < |blocks| && entry == blocks[i].addr && Fits(blocks[i], size) && Whole(blocks[i], size)
      requires size >= 16 && size % 16 == 0
      modifies this`available, this`blocks, ram
      ensures Valid() && blocks == Take(old(blocks), i, size) && ptr == Payload(Given(old(blocks)[i], size))
      ensures HandedOut(old(blocks), blocks, ptr, size) && ptr > KERNEL_HEAP_BASE
      ensures KeepsLive(old(ram.w), ram.w, old(blocks))
    {
      TiledIsSpaced(head, blocks, KERNEL_HEAP_BASE, Limit());
      assert Stored(ram.w, blocks[i]);
      SetUsed(ram.w, head, blocks, i, true);
      TakeCounts(blocks, i, size);
      ram.Store(entry + USED, 1);
      available := available - Ld(ram.w, entry + LENGTH);
      blocks := Take(blocks, i, size);
      ptr := entry + HEADER;
      assert Stored(ram.w, blocks[i]);
      SameMetaWords(old(ram.w), ram.w, head, old(blocks), i, old(blocks)[i].(used := true));
      TakeDone(old(ram.w), ram.w, head, old(blocks), KERNEL_HEAP_BASE, Limit(), i, size);
    }

    /** The tail of __malloc when the block is split. */
    method TakeTail(entry: int, ghost i: nat, size: nat) returns (ptr: int)
      requires Valid() && i < |blocks| && entry == blocks[i].addr && Fits(blocks[i], size) && !Whole(blocks[i], size)
      requires size >= 16 && size % 16 == 0
      modifies this`available, this`blockCount, this`blocks, ram
      ensures Valid() && blocks == Take(old(blocks), i, size) && ptr == Payload(Given(old(blocks)[i], size))
      ensures HandedOut(old(blocks), blocks, ptr, size) && ptr > KERNEL_HEAP_BASE
      ensures KeepsLive(old(ram.w), ram.w, old(blocks))
    {
      TiledIsSpaced(head, blocks, KERNEL_HEAP_BASE, Limit());
      assert Stored(ram.w, blocks[i]);
      TakeTiles(blocks, KERNEL_HEAP_BASE, Limit(), i, size);
      TiledIsSpaced(head, Take(blocks, i, size), KERNEL_HEAP_BASE, Limit());
      SplitStep(ram.w, head, blocks, i, size);
      TakeCounts(blocks, i, size);
      var length := Ld(ram.w, entry + LENGTH) - (size + HEADER);
      ram.Store(entry + LENGTH, length);
      var newEntry := entry + HEADER + length;
      assert newEntry == Tail(blocks[i], size).addr;
      ghost var m1 := ram.w;
      ram.ListInit(newEntry);
      ram.Store(newEntry + LENGTH, size);
      ram.Store(newEntry + USED, 1);
      assert ram.w == NewHeader(m1, Tail(blocks[i], size));
      ram.ListAddAfter(entry, newEntry);
      available := available - (size + HEADER);
      blockCount := blockCount + 1;
      blocks := Take(blocks, i, size);
      ptr := newEntry + HEADER;
      assert ram.w == Split(old(ram.w), old(blocks)[i], size);
      TakeDone(old(ram.w), ram.w, head, old(blocks), KERNEL_HEAP_BASE, Limit(), i, size);
    }

    /** __malloc. */
    method TryMalloc(size: nat) returns (ptr: int)
      requires Valid() && size >= 16 && size % 16 == 0
      modifies this`available, this`blockCount, this`blocks, ram
      ensures Valid()
      ensures var i := FirstFit(old(blocks), size);
              if i == |old(blocks)| then ptr == NULL && blocks == old(blocks) && ram.w == old(ram.w)
              else ptr == Payload(Given(old(blocks)[i], size)) != NULL && blocks == Take(old(blocks), i, size)
      ensures ptr != NULL ==> HandedOut(old(blocks), blocks, ptr, size) && ptr > KERNEL_HEAP_BASE
      ensures KeepsLive(old(ram.w), ram.w, old(blocks))
    {
      TiledIsSpaced(head, blocks, KERNEL_HEAP_BASE, Limit());
      Lists.Ends(ram.w, head, Addrs(blocks));
      WalkEnds(ram.w, head, blocks, 0);
      if Lists.Next(ram.w, head) == head {
        return NULL;
      }
      var it := Lists.Next(ram.w, head);
      ghost var i := 0;
      while it != head
        invariant i <= |blocks| && it == Lists.At(head, Addrs(blocks), i + 1)
        invariant it == head <==> i == |blocks|
        invariant forall j | 0 <= j < i :: !Fits(blocks[j], size)
        invariant blocks == old(blocks) && ram.w == old(ram.w) && Valid()
        decreases |blocks| - i
      {
        WalkEnds(ram.w, head, blocks, i);
        if Ld(ram.w, it + USED) == 0 && Ld(ram.w, it + LENGTH) >= size {
          FirstFitIs(blocks, size, i);
          if Ld(ram.w, it + LENGTH) < size + HEADER + 16 {
            ptr := TakeWhole(it, i, size);
          } else {
            ptr := TakeTail(it, i, size);
          }
          return;
        }
        it := Lists.Next(ram.w, it);
        i := i + 1;
        WalkEnds(ram.w, head, blocks, i);
      }
      FirstFitIs(blocks, size, |blocks|);
      return NULL;
    }

    /** On a valid heap the check reports nothing. */
    method CheckHeap() returns (ok: bool)
      requires Valid()
      ensures ok
    {
      TiledIsSpaced(head, blocks, KERNEL_HEAP_BASE, Limit());
      TiledLengths(blocks, KERNEL_HEAP_BASE, Limit());
      ok := ConsistencyCheck();
    }

    /** One round of the inner loop of __merge_block. */
    method JoinNext(entry: int, nextEntry: int, ghost i: nat)
      requires Valid() && i + 1 < |blocks| && entry == blocks[i].addr && nextEntry == blocks[i + 1].addr
      requires Joinable(blocks[i], blocks[i + 1])
      modifies this`available, this`blockCount, this`blocks, ram
      ensures Valid() && blocks == JoinAt(old(blocks), i) && MergedFrom(old(ram.w), old(blocks), ram.w, blocks)
    {
      TiledIsSpaced(head, blocks, KERNEL_HEAP_BASE, Limit());
      assert Stored(ram.w, blocks[i]) && Stored(ram.w, blocks[i + 1]);
      JoinStep(ram.w, head, blocks, i);
      JoinTiles(blocks, KERNEL_HEAP_BASE, Limit(), i);
      JoinCounts(blocks, i);
      JoinLive(blocks, i);
      ram.Store(entry + LENGTH, Ld(ram.w, entry + LENGTH) + (Ld(ram.w, nextEntry + LENGTH) + HEADER));
      assert ram.w == old(ram.w)[entry + LENGTH := Join(blocks[i], blocks[i + 1]).length];
      ram.ListDel(nextEntry);
      ram.MemsetZero(nextEntry, 4);
      blockCount := blockCount - 1;
      available := available + HEADER;
      blocks := JoinAt(blocks, i);
      assert ram.w == Joined(old(ram.w), old(blocks)[i], old(blocks)[i + 1]);
      MetaKeepsLive(old(ram.w), ram.w, head, old(blocks), KERNEL_HEAP_BASE, Limit());
    }

    /** The inner loop of __merge_block: block `i` swallows the free blocks that follow it. */
    method JoinFollowing(it: int, ghost i: nat, ghost w0: Mem, ghost bs0: seq<Blk>)
      requires Valid() && i < |blocks| && it == blocks[i].addr
      requires JoinedUpTo(blocks, i) && MergedFrom(w0, bs0, ram.w, blocks)
      modifies this`available, this`blockCount, this`blocks, ram
      ensures Valid() && i < |blocks| && it == blocks[i].addr
      ensures JoinedUpTo(blocks, i + 1) && MergedFrom(w0, bs0, ram.w, blocks)
      ensures |blocks| <= old(|blocks|)
    {
      TiledIsSpaced(head, blocks, KERNEL_HEAP_BASE, Limit());
      WalkEnds(ram.w, head, blocks, i);
      WalkEnds(ram.w, head, blocks, i + 1);
      var next := Lists.Next(ram.w, it);
      while next != head && Ld(ram.w, it + USED) == 0 && Ld(ram.w, next + USED) == 0
        invariant Valid() && i < |blocks| <= old(|blocks|) && it == blocks[i].addr
        invariant next == head <==> i + 1 == |blocks|
        invariant next != head ==> next == blocks[i + 1].addr && Stored(ram.w, blocks[i + 1])
        invariant Stored(ram.w, blocks[i])
        invariant JoinedUpTo(blocks, i) && MergedFrom(w0, bs0, ram.w, blocks)
        decreases |blocks|
      {
        ghost var w1, bs1 := ram.w, blocks;
        JoinNext(it, next, i);
        MergedFurther(w0, bs0, w1, bs1, ram.w, blocks);
        JoinKeepsDone(bs1, i);
        TiledIsSpaced(head, blocks, KERNEL_HEAP_BASE, Limit());
        WalkEnds(ram.w, head, blocks, i);
        WalkEnds(ram.w, head, blocks, i + 1);
        next := Lists.Next(ram.w, it);
      }
    }

    /** __merge_block. */
    method MergeBlocks()
      requires Valid()
      modifies this`available, this`blockCount, this`blocks, ram
      ensures Valid() && NoFreeNeighbours(blocks) && MergedFrom(old(ram.w), old(blocks), ram.w, blocks)
    {
      TiledIsSpaced(head, blocks, KERNEL_HEAP_BASE, Limit());
      Lists.Ends(ram.w, head, Addrs(blocks));
      WalkEnds(ram.w, head, blocks, 0);
      var it := Lists.Next(ram.w, head);
      ghost var i := 0;
      while it != head
        invariant Valid() && i <= |blocks| && it == Lists.At(head, Addrs(blocks), i + 1)
        invariant it == head <==> i == |blocks|
        invariant JoinedUpTo(blocks, i) && MergedFrom(old(ram.w), old(blocks), ram.w, blocks)
        decreases |blocks| - i
      {
        JoinFollowing(it, i, old(ram.w), old(blocks));
        TiledIsSpaced(head, blocks, KERNEL_HEAP_BASE, Limit());
        WalkEnds(ram.w, head, blocks, i);
        it := Lists.Next(ram.w, it);
        i := i + 1;
        WalkEnds(ram.w, head, blocks, i);
      }
    }

    /** __mm_list_consistency_check: true when nothing is reported. */
    method ConsistencyCheck() returns (ok: bool)
      requires Holds(ram.w, head, blocks) && Spaced(head, blocks)
      ensures ok <==> Consistent(blocks, total, blockCount)
    {
      var sum := 0;
      ok := true;
      Lists.Ends(ram.w, head, Addrs(blocks));
      WalkEnds(ram.w, head, blocks, 0);
      var it := Lists.Next(ram.w, head);
      ghost var i := 0;
      while it != head
        invariant i <= |blocks| && it == Lists.At(head, Addrs(blocks), i + 1)
        invariant it == head <==> i == |blocks|
        invariant sum == Lengths(blocks[..i])
        invariant ok <==> forall j | 0 <= j < i && j < |blocks| - 1 :: Follows(blocks, j)
        decreases |blocks| - i
      {
        WalkEnds(ram.w, head, blocks, i);
        LengthsNext(blocks, i);
        sum := sum + Ld(ram.w, it + LENGTH);
        var next := Lists.Next(ram.w, it);
        WalkEnds(ram.w, head, blocks, i + 1);
        if next != head && it + Ld(ram.w, it + LENGTH) + HEADER != next {
          assert !Follows(blocks, i);
          ok := false;
        }
        it := next;
        i := i + 1;
      }
      assert blocks[..i] == blocks;
      ok := ok && sum + blockCount * HEADER == total;
    }

    /** The two tries of malloc. */
    method TryTwice(size: nat) returns (ptr: int)
      requires Valid() && size >= 16 && size % 16 == 0
      modifies this`available, this`blockCount, this`blocks, ram
      ensures Valid() && KeepsLive(old(ram.w), ram.w, old(blocks))
      ensures ptr == NULL <==> !exists x :: FreeSpan(old(blocks), KERNEL_HEAP_BASE, Limit(), x, size)
      ensures ptr == NULL ==> Live(blocks) == Live(old(blocks))
      ensures ptr != NULL ==> HandedOut(old(blocks), blocks, ptr, size) && ptr > KERNEL_HEAP_BASE
    {
      ptr := TryMalloc(size);
      if ptr != NULL {
        FreeBlockIsSpan(old(blocks), KERNEL_HEAP_BASE, Limit(), FirstFit(old(blocks), size), size);
        return;
      }
      MergeBlocks();
      ghost var w1, bs1 := ram.w, blocks;
      SameSpans(old(blocks), bs1, KERNEL_HEAP_BASE, Limit(), size);
      FirstFitIsComplete(bs1, KERNEL_HEAP_BASE, Limit(), size);
      ptr := TryMalloc(size);
      KeepsLiveTwice(old(ram.w), old(blocks), w1, bs1, ram.w);
      if ptr != NULL {
        HandedOutFrom(old(blocks), bs1, blocks, ptr, size);
      }
    }

    /** The memset of malloc when there is a block. */
    method ClearBlock(ptr: int, size: nat, ghost bs0: seq<Blk>)
      requires Valid() && Tiles(bs0, KERNEL_HEAP_BASE, Limit()) && size % 16 == 0 && HandedOut(bs0, blocks, ptr, size)
      modifies ram
      ensures Valid() && KeepsLive(old(ram.w), ram.w, bs0) && ZeroBytes(ram.w, ptr, size)
    {
      ZeroNew(ram.w, head, bs0, blocks, KERNEL_HEAP_BASE, Limit(), ptr, size);
      ram.MemsetZero(ptr, size / 8);
    }

    /** The memset of malloc when there is none: it begins at address 0. */
    method ClearLow(size: nat)
      requires Valid() && size % 8 == 0
      modifies ram
      ensures ram.w == Wiped(old(ram.w), Place(), size / 8)
      ensures Valid() <==> Place().Spared(size)
      ensures Valid() ==> KeepsLive(old(ram.w), ram.w, blocks)
    {
      FailedMallocWipes(ram.w, Place(), blocks, size);
      var i := 0;
      while i < size / 8
        invariant 0 <= i <= size / 8
        invariant ram.w == Wiped(old(ram.w), Place(), i)
      {
        ram.w := StoreLow(ram.w, Place(), 8 * i);
        i := i + 1;
      }
    }

    /** malloc of a rounded size: the two tries, the memset, the check. With `ok` false, the memset of a failed call has
        destroyed the list that the check then walks. */
    method MallocRounded(size: nat) returns (ptr: int, ok: bool)
      requires Valid() && size >= 16 && size % 16 == 0
      modifies this`available, this`blockCount, this`blocks, ram
      ensures ok <==> Valid()
      ensures ok <==> ptr != NULL || Place().Spared(size)
      ensures ptr == NULL <==> !exists x :: FreeSpan(old(blocks), KERNEL_HEAP_BASE, Limit(), x, size)
      ensures ok ==> KeepsLive(old(ram.w), ram.w, old(blocks))
      ensures ptr == NULL ==> Live(blocks) == Live(old(blocks))
      ensures ptr != NULL ==> HandedOut(old(blocks), blocks, ptr, size) && ZeroBytes(ram.w, ptr, size)
    {
      ptr := TryTwice(size);
      ok := ptr != NULL || Place().Spared(size);
      ghost var w1 := ram.w;
      if ptr == NULL {
        ClearLow(size);
        if !ok {
          return;
        }
        KeepsLiveTwice(old(ram.w), old(blocks), w1, blocks, ram.w);
      } else {
        ClearBlock(ptr, size, old(blocks));
        KeepsLiveThen(old(ram.w), old(blocks), w1, ram.w);
      }
      var checked := CheckHeap();
      assert checked;
    }

    /** malloc: first fit, and once more after joining free neighbours. It fails exactly when no span of the heap has
        room for the rounded size and a header. Clients and the heap itself survive, unless the call fails and the
        rounded size reaches the physical address of the heap or of the list head. */
    method Malloc(size: nat) returns (ptr: int, ok: bool)
      requires Valid() && size <= MAX_REQUEST
      modifies this`available, this`blockCount, this`blocks, ram
      ensures ok <==> Valid()
      ensures ok <==> size == 0 || ptr != NULL || Place().Spared(RoundSize(size))
      ensures ptr == NULL <==>
              size == 0 || !exists x :: FreeSpan(old(blocks), KERNEL_HEAP_BASE, Limit(), x, RoundSize(size))
      ensures ok ==> KeepsLive(old(ram.w), ram.w, old(blocks))
      ensures ptr == NULL ==> Live(blocks) == Live(old(blocks))
      ensures ptr != NULL ==> HandedOut(old(blocks), blocks, ptr, RoundSize(size))
      ensures ptr != NULL ==> ZeroBytes(ram.w, ptr, RoundSize(size))
    {
      if size == 0 {
        return NULL, true;
      }
      ptr, ok := MallocRounded(RoundSize(size));
    }

    /** free: the block goes back, or its having gone back already is reported. */
    method Free(ptr: int, ghost i: nat) returns (ok: bool)
      requires Valid() && i < |blocks| && ptr == Payload(blocks[i])
      modifies this`available, this`blocks, ram
      ensures Valid() && ok == old(blocks)[i].used
      ensures !ok ==> blocks == old(blocks) && ram.w == old(ram.w)
      ensures ok ==> Live(blocks) == Live(old(blocks)) - {(ptr, old(blocks)[i].length)}
      ensures ok ==> forall a :: Taken(old(blocks), a) <==>
                                 Taken(blocks, a) || ptr - 32 <= a < ptr + old(blocks)[i].length
      ensures KeepsLive(old(ram.w), ram.w, old(blocks))
    {
      var entry := ptr - HEADER;
      TiledIsSpaced(head, blocks, KERNEL_HEAP_BASE, Limit());
      assert Stored(ram.w, blocks[i]);
      ok := Ld(ram.w, entry + USED) == 1;
      if ok {
        SetUsed(ram.w, head, blocks, i, false);
        ReleaseKeeps(blocks, KERNEL_HEAP_BASE, Limit(), i);
        ReleaseLive(blocks, KERNEL_HEAP_BASE, Limit(), i);
        MetaKeepsLive(ram.w, ram.w[entry + USED := 0], head, blocks, KERNEL_HEAP_BASE, Limit());
        ram.Store(entry + USED, 0);
        blocks := Release(blocks, i);
        TakenWith(blocks, old(blocks), ptr, old(blocks)[i].length);
        assert Stored(ram.w, blocks[i]);
        available := available + Ld(ram.w, entry + LENGTH);
      }
      var checked := CheckHeap();
      assert checked;
    }
  }
}
