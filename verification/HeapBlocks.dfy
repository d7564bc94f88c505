/** The block list of the kernel heap, mm/malloc.c, as a sequence, and what its operations do to it. */
module HeapBlocks {
  import Lists

  const HEADER := 32      // sizeof(struct mm_block)

  /** A block: the address of its header, the length of what follows the header, and whether it is handed out. */
  datatype Blk = Blk(addr: int, length: int, used: bool)

  function Payload(b: Blk): int { b.addr + HEADER }

  function End(b: Blk): int { b.addr + HEADER + b.length }

  predicate Spans(b: Blk, a: int) { b.addr <= a < End(b) }

  /** Block `i` ends where the next one starts. */
  predicate Follows(bs: seq<Blk>, i: int)
    requires 0 <= i < |bs| - 1
  {
    bs[i + 1].addr == End(bs[i])
  }

  predicate Sized(b: Blk) { b.length >= 16 && b.length % 16 == 0 }

  /** The blocks fill `[base, limit)` in order and without a gap. */
  ghost predicate Tiles(bs: seq<Blk>, base: int, limit: int) {
    && bs != [] && bs[0].addr == base && End(bs[|bs| - 1]) == limit
    && (forall i | 0 <= i < |bs| :: Sized(bs[i]))
    && (forall i | 0 <= i < |bs| - 1 :: Follows(bs, i))
  }

  lemma {:induction false} InOrder(bs: seq<Blk>, base: int, limit: int, i: nat, j: nat)
    requires Tiles(bs, base, limit) && i < j < |bs|
    ensures End(bs[i]) <= bs[j].addr
    decreases j
  {
    assert Follows(bs, j - 1);
    if i < j - 1 {
      InOrder(bs, base, limit, i, j - 1);
      assert Sized(bs[j - 1]);
    }
  }

  lemma InHeap(bs: seq<Blk>, base: int, limit: int, i: nat)
    requires Tiles(bs, base, limit) && i < |bs|
    ensures base <= bs[i].addr && End(bs[i]) <= limit && Sized(bs[i])
  {
    if i > 0 {
      InOrder(bs, base, limit, 0, i);
      assert Sized(bs[0]);
    }
    if i < |bs| - 1 {
      InOrder(bs, base, limit, i, |bs| - 1);
      assert Sized(bs[|bs| - 1]);
    }
  }

  /** Every address of the heap lies in exactly one block. */
  lemma {:induction false} BlockAt(bs: seq<Blk>, base: int, limit: int, a: int) returns (i: nat)
    requires Tiles(bs, base, limit) && base <= a < limit
    ensures i < |bs| && Spans(bs[i], a)
  {
    i := 0;
    while End(bs[i]) <= a
      invariant i < |bs| && bs[i].addr <= a
      decreases |bs| - i
    {
      assert i < |bs| - 1;
      assert Follows(bs, i);
      i := i + 1;
    }
  }

  lemma SpanUnique(bs: seq<Blk>, base: int, limit: int, i: nat, j: nat, a: int)
    requires Tiles(bs, base, limit) && i < |bs| && j < |bs| && Spans(bs[i], a) && Spans(bs[j], a)
    ensures i == j
  {
    if i < j {
      InOrder(bs, base, limit, i, j);
    } else if j < i {
      InOrder(bs, base, limit, j, i);
    }
  }

  /** Address `a` belongs to a block that is handed out. */
  ghost predicate Taken(bs: seq<Blk>, a: int) {
    exists i :: 0 <= i < |bs| && bs[i].used && Spans(bs[i], a)
  }

  /** What is handed out: the payloads by address and length. */
  ghost function Live(bs: seq<Blk>): set<(int, int)> {
    set i | 0 <= i < |bs| && bs[i].used :: (Payload(bs[i]), bs[i].length)
  }

  /** Sum of the lengths of the blocks that are not handed out. */
  function Available(bs: seq<Blk>): int {
    if bs == [] then 0 else (if bs[0].used then 0 else bs[0].length) + Available(bs[1..])
  }

  function Lengths(bs: seq<Blk>): int {
    if bs == [] then 0 else bs[0].length + Lengths(bs[1..])
  }

  // ----- first fit -----

  predicate Fits(b: Blk, size: int) { !b.used && b.length >= size }

  function FirstFit(bs: seq<Blk>, size: int): (i: nat)
    ensures i <= |bs|
    ensures i < |bs| ==> Fits(bs[i], size)
    ensures forall j | 0 <= j < i :: !Fits(bs[j], size)
  {
    if bs == [] then 0
    else if Fits(bs[0], size) then 0
    else 1 + FirstFit(bs[1..], size)
  }

  /** The block is handed out whole unless a header and 16 bytes would be left over. */
  predicate Whole(b: Blk, size: int) { b.length < size + HEADER + 16 }

  function Rest(b: Blk, size: int): Blk { Blk(b.addr, b.length - size - HEADER, false) }

  function Tail(b: Blk, size: int): Blk { Blk(End(b) - size - HEADER, size, true) }

  /** __malloc on a block list: block `i` is handed out, or split so that its tail is. */
  function Take(bs: seq<Blk>, i: nat, size: int): seq<Blk>
    requires i < |bs|
  {
    if Whole(bs[i], size) then bs[i := bs[i].(used := true)]
    else Lists.Insert(bs[i := Rest(bs[i], size)], i + 1, Tail(bs[i], size))
  }

  /** The block that is handed out. */
  function Given(b: Blk, size: int): Blk {
    if Whole(b, size) then b.(used := true) else Tail(b, size)
  }

  /** It ends where the block ended, is long enough, and longer than asked for only by less than a header and 16
      bytes. */
  lemma GivenIsTail(b: Blk, size: int)
    requires Fits(b, size)
    ensures var g := Given(b, size); End(g) == End(b) && size <= g.length < size + 48
  {
  }

  lemma TakeTiles(bs: seq<Blk>, base: int, limit: int, i: nat, size: int)
    requires Tiles(bs, base, limit) && i < |bs| && Fits(bs[i], size) && size >= 16 && size % 16 == 0
    ensures Tiles(Take(bs, i, size), base, limit)
  {
    var cs := Take(bs, i, size);
    assert Sized(bs[i]);
    forall j | 0 <= j < |cs| - 1 ensures Follows(cs, j) {
      if j < i || Whole(bs[i], size) {
        assert Follows(bs, j);
      } else if j > i {
        assert Follows(bs, j - 1);
      }
    }
  }

  lemma AvailableSplit(xs: seq<Blk>, ys: seq<Blk>)
    ensures Available(xs + ys) == Available(xs) + Available(ys) && Lengths(xs + ys) == Lengths(xs) + Lengths(ys)
  {
    if xs == [] {
      assert xs + ys == ys;
    } else {
      assert (xs + ys)[1..] == xs[1..] + ys;
      AvailableSplit(xs[1..], ys);
    }
  }

  function Free(b: Blk): int { if b.used then 0 else b.length }

  lemma SumsAt(bs: seq<Blk>, i: nat)
    requires i < |bs|
    ensures Available(bs) == Available(bs[..i]) + Free(bs[i]) + Available(bs[i + 1..])
    ensures Lengths(bs) == Lengths(bs[..i]) + bs[i].length + Lengths(bs[i + 1..])
  {
    assert bs == bs[..i] + ([bs[i]] + bs[i + 1..]);
    AvailableSplit(bs[..i], [bs[i]] + bs[i + 1..]);
    AvailableSplit([bs[i]], bs[i + 1..]);
  }

  /** Handing a block out takes its length off the available sum, and a header too when the block is split. */
  lemma TakeCounts(bs: seq<Blk>, i: nat, size: int)
    requires i < |bs| && Fits(bs[i], size)
    ensures Available(Take(bs, i, size)) ==
            Available(bs) - if Whole(bs[i], size) then bs[i].length else size + HEADER
  {
    var cs := Take(bs, i, size);
    SumsAt(bs, i);
    SumsAt(cs, i);
    assert cs[..i] == bs[..i];
    if Whole(bs[i], size) {
      assert cs[i + 1..] == bs[i + 1..];
    } else {
      assert cs[i + 1..] == [Tail(bs[i], size)] + bs[i + 1..];
      AvailableSplit([Tail(bs[i], size)], bs[i + 1..]);
    }
  }

  lemma LiveMember(bs: seq<Blk>, i: nat)
    requires i < |bs| && bs[i].used
    ensures (Payload(bs[i]), bs[i].length) in Live(bs)
  {
  }

  /** Handing a block out adds exactly that block to what is handed out. */
  lemma TakeLive(bs: seq<Blk>, i: nat, size: int)
    requires i < |bs| && Fits(bs[i], size)
    ensures var g := Given(bs[i], size); Live(Take(bs, i, size)) == Live(bs) + {(Payload(g), g.length)}
  {
    var cs, g := Take(bs, i, size), Given(bs[i], size);
    forall p ensures p in Live(cs) <==> p in Live(bs) || p == (Payload(g), g.length) {
      if p in Live(cs) {
        var j :| 0 <= j < |cs| && cs[j].used && p == (Payload(cs[j]), cs[j].length);
        if cs[j] != g {
          LiveMember(bs, if j <= i then j else j - (|cs| - |bs|));
        }
      }
      if p in Live(bs) {
        var j :| 0 <= j < |bs| && bs[j].used && p == (Payload(bs[j]), bs[j].length);
        LiveMember(cs, if j <= i then j else j + (|cs| - |bs|));
      }
      LiveMember(cs, if Whole(bs[i], size) then i else i + 1);
    }
  }

  /** What is taken are the blocks handed out, with their headers. */
  lemma TakenIsLive(bs: seq<Blk>, a: int)
    ensures Taken(bs, a) <==> exists p :: p in Live(bs) && p.0 - 32 <= a < p.0 + p.1
  {
    if Taken(bs, a) {
      var i :| 0 <= i < |bs| && bs[i].used && Spans(bs[i], a);
      LiveMember(bs, i);
    }
  }

  /** One block more, or less, and nothing else: of a longer block that was split, the rest is as free as it was. */
  lemma TakenWith(bs: seq<Blk>, cs: seq<Blk>, ptr: int, length: int)
    requires Live(cs) == Live(bs) + {(ptr, length)}
    ensures forall a :: Taken(cs, a) <==> Taken(bs, a) || ptr - 32 <= a < ptr + length
  {
    forall a ensures Taken(cs, a) <==> Taken(bs, a) || ptr - 32 <= a < ptr + length {
      TakenIsLive(bs, a);
      TakenIsLive(cs, a);
      assert (ptr, length) in Live(cs);
    }
  }

  // ----- giving back -----

  /** __free on a block list. */
  function Release(bs: seq<Blk>, i: nat): seq<Blk>
    requires i < |bs|
  {
    bs[i := bs[i].(used := false)]
  }

  lemma ReleaseKeeps(bs: seq<Blk>, base: int, limit: int, i: nat)
    requires Tiles(bs, base, limit) && i < |bs| && bs[i].used
    ensures Tiles(Release(bs, i), base, limit)
    ensures Available(Release(bs, i)) == Available(bs) + bs[i].length
  {
    var cs := Release(bs, i);
    forall j | 0 <= j < |cs| - 1 ensures Follows(cs, j) {
      assert Follows(bs, j);
    }
    SumsAt(bs, i);
    SumsAt(cs, i);
    assert cs[..i] == bs[..i] && cs[i + 1..] == bs[i + 1..];
  }

  lemma ReleaseLive(bs: seq<Blk>, base: int, limit: int, i: nat)
    requires Tiles(bs, base, limit) && i < |bs| && bs[i].used
    ensures Live(Release(bs, i)) == Live(bs) - {(Payload(bs[i]), bs[i].length)}
  {
    var cs := Release(bs, i);
    forall p ensures p in Live(cs) <==> p in Live(bs) && p != (Payload(bs[i]), bs[i].length) {
      if p in Live(cs) {
        var j :| 0 <= j < |cs| && cs[j].used && p == (Payload(cs[j]), cs[j].length);
        LiveMember(bs, j);
        AddressesDiffer(bs, base, limit, i, j);
      }
      if p in Live(bs) && p != (Payload(bs[i]), bs[i].length) {
        var j :| 0 <= j < |bs| && bs[j].used && p == (Payload(bs[j]), bs[j].length);
        LiveMember(cs, j);
      }
    }
  }

  lemma AddressesDiffer(bs: seq<Blk>, base: int, limit: int, i: nat, j: nat)
    requires Tiles(bs, base, limit) && i < |bs| && j < |bs| && i != j
    ensures End(bs[i]) <= bs[j].addr || End(bs[j]) <= bs[i].addr
    ensures bs[i].addr != bs[j].addr
  {
    assert Sized(bs[i]) && Sized(bs[j]);
    if i < j {
      InOrder(bs, base, limit, i, j);
    } else {
      InOrder(bs, base, limit, j, i);
    }
  }

  // ----- lazy merge -----

  predicate Joinable(b: Blk, c: Blk) { !b.used && !c.used }

  function Join(b: Blk, c: Blk): Blk { Blk(b.addr, b.length + c.length + HEADER, b.used) }

  /** No two neighbours are both free. */
  ghost predicate NoFreeNeighbours(bs: seq<Blk>) {
    forall i | 0 <= i < |bs| - 1 :: bs[i].used || bs[i + 1].used
  }

  /** One join: block `i` takes over its neighbour. */
  function JoinAt(bs: seq<Blk>, i: nat): seq<Blk>
    requires i + 1 < |bs|
  {
    Lists.Remove(bs[i := Join(bs[i], bs[i + 1])], i + 1)
  }

  lemma JoinTiles(bs: seq<Blk>, base: int, limit: int, i: nat)
    requires Tiles(bs, base, limit) && i + 1 < |bs| && Joinable(bs[i], bs[i + 1])
    ensures Tiles(JoinAt(bs, i), base, limit)
  {
    var cs := JoinAt(bs, i);
    assert Follows(bs, i) && Sized(bs[i]) && Sized(bs[i + 1]);
    forall j | 0 <= j < |cs| - 1 ensures Follows(cs, j) {
      assert Follows(bs, if j < i then j else j + 1);
    }
    forall j | 0 <= j < |cs| ensures Sized(cs[j]) {
      assert j != i ==> Sized(bs[if j < i then j else j + 1]);
    }
  }

  lemma JoinCounts(bs: seq<Blk>, i: nat)
    requires i + 1 < |bs| && Joinable(bs[i], bs[i + 1])
    ensures Available(JoinAt(bs, i)) == Available(bs) + HEADER
  {
    var cs := JoinAt(bs, i);
    SumsAt(bs, i);
    SumsAt(cs, i);
    assert cs[..i] == bs[..i];
    assert cs[i + 1..] == bs[i + 1..][1..];
  }

  /** Joining free blocks changes neither what is handed out nor which addresses are taken. */
  lemma JoinLive(bs: seq<Blk>, i: nat)
    requires i + 1 < |bs| && Joinable(bs[i], bs[i + 1])
    ensures Live(JoinAt(bs, i)) == Live(bs)
    ensures forall a :: Taken(JoinAt(bs, i), a) <==> Taken(bs, a)
  {
    var cs := JoinAt(bs, i);
    forall p ensures p in Live(cs) <==> p in Live(bs) {
      if p in Live(cs) {
        var j :| 0 <= j < |cs| && cs[j].used && p == (Payload(cs[j]), cs[j].length);
        LiveMember(bs, if j <= i then j else j + 1);
      }
      if p in Live(bs) {
        var j :| 0 <= j < |bs| && bs[j].used && p == (Payload(bs[j]), bs[j].length);
        LiveMember(cs, if j <= i then j else j - 1);
      }
    }
    forall a ensures Taken(cs, a) <==> Taken(bs, a) {
      JoinTaken(bs, i, a);
    }
  }

  lemma JoinTaken(bs: seq<Blk>, i: nat, a: int)
    requires i + 1 < |bs| && Joinable(bs[i], bs[i + 1])
    ensures Taken(JoinAt(bs, i), a) <==> Taken(bs, a)
  {
    var cs := JoinAt(bs, i);
    if Taken(cs, a) {
      var j :| 0 <= j < |cs| && cs[j].used && Spans(cs[j], a);
      assert bs[if j <= i then j else j + 1] == cs[j];
    }
    if Taken(bs, a) {
      var j :| 0 <= j < |bs| && bs[j].used && Spans(bs[j], a);
      assert cs[if j <= i then j else j - 1] == bs[j];
    }
  }

  // ----- when a request cannot be met -----

  /** From `x` on there is room for a header and `size` bytes that nobody holds. */
  ghost predicate FreeSpan(bs: seq<Blk>, base: int, limit: int, x: int, size: int) {
    base <= x && x + HEADER + size <= limit && forall a | x <= a < x + HEADER + size :: !Taken(bs, a)
  }

  lemma FreeBlockIsSpan(bs: seq<Blk>, base: int, limit: int, i: nat, size: int)
    requires Tiles(bs, base, limit) && i < |bs| && Fits(bs[i], size)
    ensures FreeSpan(bs, base, limit, bs[i].addr, size)
  {
    InHeap(bs, base, limit, i);
    forall a | bs[i].addr <= a < bs[i].addr + HEADER + size ensures !Taken(bs, a) {
      if Taken(bs, a) {
        var j :| 0 <= j < |bs| && bs[j].used && Spans(bs[j], a);
        SpanUnique(bs, base, limit, i, j, a);
        assert false;
      }
    }
  }

  /** What follows a free block is the end of the heap or a block that is handed out. */
  lemma AfterFreeBlock(bs: seq<Blk>, base: int, limit: int, i: nat)
    requires Tiles(bs, base, limit) && NoFreeNeighbours(bs) && i < |bs| && !bs[i].used
    ensures End(bs[i]) == limit || Taken(bs, End(bs[i]))
  {
    if i < |bs| - 1 {
      assert Follows(bs, i) && Sized(bs[i + 1]);
      assert bs[i + 1].used && Spans(bs[i + 1], End(bs[i]));
    }
  }

  /** With no free neighbours, a free span lies inside one free block. */
  lemma SpanInOneBlock(bs: seq<Blk>, base: int, limit: int, x: int, size: int) returns (i: nat)
    requires Tiles(bs, base, limit) && NoFreeNeighbours(bs) && FreeSpan(bs, base, limit, x, size) && size >= 0
    ensures i < |bs| && Fits(bs[i], size)
  {
    i := BlockAt(bs, base, limit, x);
    assert !Taken(bs, x);
    AfterFreeBlock(bs, base, limit, i);
    assert End(bs[i]) >= x + HEADER + size;
  }

  /** Once free neighbours are joined, first fit fails exactly when no span of the heap has room for the request. */
  lemma FirstFitIsComplete(bs: seq<Blk>, base: int, limit: int, size: int)
    requires Tiles(bs, base, limit) && NoFreeNeighbours(bs) && size >= 0
    ensures FirstFit(bs, size) == |bs| <==> !exists x :: FreeSpan(bs, base, limit, x, size)
  {
    var i := FirstFit(bs, size);
    if i < |bs| {
      FreeBlockIsSpan(bs, base, limit, i, size);
    }
    forall x | FreeSpan(bs, base, limit, x, size) ensures i < |bs| {
      var j := SpanInOneBlock(bs, base, limit, x, size);
    }
  }

  /** When nothing is handed out, joining leaves a single block that fills the heap. */
  lemma NothingLive(bs: seq<Blk>, base: int, limit: int)
    requires Tiles(bs, base, limit) && NoFreeNeighbours(bs) && Live(bs) == {}
    ensures bs == [Blk(base, limit - base - HEADER, false)]
  {
    NotLive(bs);
    assert |bs| == 1 by { TwoFreeNeighbours(bs); }
  }

  lemma TwoFreeNeighbours(bs: seq<Blk>)
    requires forall i | 0 <= i < |bs| :: !bs[i].used
    ensures |bs| > 1 ==> !NoFreeNeighbours(bs)
  {
    if |bs| > 1 {
      assert !(bs[0].used || bs[0 + 1].used);
    }
  }

  lemma NotLive(bs: seq<Blk>)
    requires Live(bs) == {}
    ensures forall i | 0 <= i < |bs| :: !bs[i].used
  {
    forall i | 0 <= i < |bs| ensures bs[i].used ==> (Payload(bs[i]), bs[i].length) in Live(bs) {
    }
  }

  // ----- the run-time check -----

  /** What __mm_list_consistency_check tests. */
  ghost predicate Consistent(bs: seq<Blk>, total: int, count: int) {
    (forall i | 0 <= i < |bs| - 1 :: Follows(bs, i)) && Lengths(bs) + count * HEADER == total
  }

  lemma {:induction false} TiledLengths(bs: seq<Blk>, base: int, limit: int)
    requires Tiles(bs, base, limit)
    ensures Lengths(bs) + |bs| * HEADER == limit - base
  {
    if |bs| > 1 {
      assert Follows(bs, 0);
      forall i | 0 <= i < |bs[1..]| - 1 ensures Follows(bs[1..], i) {
        assert Follows(bs, i + 1);
      }
      TiledLengths(bs[1..], bs[1].addr, limit);
    }
  }

  /** Blocks that are handed out are aligned, as long as their blocks, and share no address. */
  lemma LiveApart(bs: seq<Blk>, base: int, limit: int, p: (int, int), q: (int, int))
    requires Tiles(bs, base, limit) && p in Live(bs) && q in Live(bs) && p != q
    ensures p.0 + p.1 + HEADER <= q.0 || q.0 + q.1 + HEADER <= p.0
  {
    var i :| 0 <= i < |bs| && bs[i].used && p == (Payload(bs[i]), bs[i].length);
    var j :| 0 <= j < |bs| && bs[j].used && q == (Payload(bs[j]), bs[j].length);
    AddressesDiffer(bs, base, limit, i, j);
  }

  lemma {:induction false} Aligned(bs: seq<Blk>, base: int, limit: int, i: nat)
    requires Tiles(bs, base, limit) && base % 16 == 0 && i < |bs|
    ensures bs[i].addr % 16 == 0
  {
    if i > 0 {
      Aligned(bs, base, limit, i - 1);
      assert Follows(bs, i - 1) && Sized(bs[i - 1]);
    }
  }
}
