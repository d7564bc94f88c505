/** The free-page list of arch/x86/paging.c as a sequence of blocks, and what its operations do to it. */
module PageBlocks {
  import Lists

  const PAGE_SIZE := 0x1000
  const PHY_MAP_BASE := 0xffff_8000_0000_0000
  const PHYS_LIMIT := 0x1000_0000_0000    // 16 TB of direct map
  const INVALID_ADDR := 0xffff_ffff_ffff_ffff

  /** A free block: the direct-map address of its first page, and its length in pages. */
  datatype Block = Block(base: int, length: int)

  function End(b: Block): int { b.base + b.length * PAGE_SIZE }

  /** Address `a` lies in block `b`. */
  predicate In(b: Block, a: int) { b.base <= a < End(b) }

  /** Address `a` lies in some block of `bs`. */
  ghost predicate Covers(bs: seq<Block>, a: int) {
    exists i :: 0 <= i < |bs| && In(bs[i], a)
  }

  predicate WellPlaced(b: Block) {
    b.length > 0 && PHY_MAP_BASE < b.base && End(b) <= PHY_MAP_BASE + PHYS_LIMIT
  }

  /** Blocks in address order, none empty, none overlapping. */
  ghost predicate Sorted(bs: seq<Block>) {
    && (forall i | 0 <= i < |bs| :: WellPlaced(bs[i]))
    && (forall i, j | 0 <= i < j < |bs| :: End(bs[i]) <= bs[j].base)
  }

  ghost predicate PageAligned(bs: seq<Block>) {
    forall i | 0 <= i < |bs| :: bs[i].base % PAGE_SIZE == 0
  }

  function Sum(bs: seq<Block>): int {
    if bs == [] then 0 else bs[0].length + Sum(bs[1..])
  }

  /** The pages (by their first address) that the blocks cover. */
  ghost function FreePages(bs: seq<Block>): (r: set<int>)
    ensures forall p :: p in r <==> PHY_MAP_BASE < p < PHY_MAP_BASE + PHYS_LIMIT && p % PAGE_SIZE == 0 && Covers(bs, p)
  {
    set p: int | PHY_MAP_BASE < p < PHY_MAP_BASE + PHYS_LIMIT && p % PAGE_SIZE == 0 && Covers(bs, p)
  }

  /** `size` pages from address `a` on are all free. */
  ghost predicate FreeRun(bs: seq<Block>, a: int, size: int) {
    a % PAGE_SIZE == 0 && forall p | a <= p < a + size * PAGE_SIZE :: Covers(bs, p)
  }

  // ----- first fit -----

  /** The first block of at least `size` pages, or `|bs|`. */
  function FirstFit(bs: seq<Block>, size: int): (i: nat)
    ensures i <= |bs|
    ensures i < |bs| ==> bs[i].length >= size
    ensures forall j | 0 <= j < i :: bs[j].length < size
  {
    if bs == [] then 0
    else if bs[0].length >= size then 0
    else 1 + FirstFit(bs[1..], size)
  }

  /** __page_alloc on a block list: what is left when `size` pages are cut from the tail of block `i`. */
  function Cut(bs: seq<Block>, i: nat, size: int): seq<Block>
    requires i < |bs|
  {
    if bs[i].length == size then Lists.Remove(bs, i)
    else bs[i := Block(bs[i].base, bs[i].length - size)]
  }

  function CutAddress(bs: seq<Block>, i: nat, size: int): int
    requires i < |bs|
  {
    bs[i].base + (bs[i].length - size) * PAGE_SIZE
  }

  lemma {:induction false} SumSplit(xs: seq<Block>, ys: seq<Block>)
    ensures Sum(xs + ys) == Sum(xs) + Sum(ys)
  {
    if xs == [] {
      assert xs + ys == ys;
    } else {
      assert (xs + ys)[1..] == xs[1..] + ys;
      SumSplit(xs[1..], ys);
    }
  }

  lemma SumAt(bs: seq<Block>, i: nat)
    requires i < |bs|
    ensures Sum(bs) == Sum(bs[..i]) + bs[i].length + Sum(bs[i + 1..])
  {
    assert bs == bs[..i] + ([bs[i]] + bs[i + 1..]);
    SumSplit(bs[..i], [bs[i]] + bs[i + 1..]);
    SumSplit([bs[i]], bs[i + 1..]);
  }

  lemma CutKeepsAlignment(bs: seq<Block>, i: nat, size: int)
    requires PageAligned(bs) && i < |bs|
    ensures PageAligned(Cut(bs, i, size)) && CutAddress(bs, i, size) % PAGE_SIZE == 0
  {
  }

  lemma CutKeepsOrder(bs: seq<Block>, i: nat, size: int)
    requires Sorted(bs) && i < |bs| && 0 < size <= bs[i].length
    ensures Sorted(Cut(bs, i, size))
    ensures WellPlaced(Block(CutAddress(bs, i, size), size))
  {
  }

  lemma CutSum(bs: seq<Block>, i: nat, size: int)
    requires i < |bs|
    ensures Sum(Cut(bs, i, size)) == Sum(bs) - size
  {
    var cs := Cut(bs, i, size);
    SumAt(bs, i);
    if bs[i].length == size {
      SumSplit(bs[..i], bs[i + 1..]);
    } else {
      SumAt(cs, i);
      assert cs[..i] == bs[..i] && cs[i + 1..] == bs[i + 1..];
    }
  }

  lemma CutLeaves(bs: seq<Block>, i: nat, size: int, a: int)
    requires Sorted(bs) && i < |bs| && 0 < size <= bs[i].length
    requires Covers(bs, a) && !In(Block(CutAddress(bs, i, size), size), a)
    ensures Covers(Cut(bs, i, size), a)
  {
    var cs := Cut(bs, i, size);
    var j :| 0 <= j < |bs| && In(bs[j], a);
    assert In(cs[if bs[i].length == size && j > i then j - 1 else j], a);
  }

  lemma CutLeavesOnly(bs: seq<Block>, i: nat, size: int, a: int)
    requires Sorted(bs) && i < |bs| && 0 < size <= bs[i].length && Covers(Cut(bs, i, size), a)
    ensures Covers(bs, a) && !In(Block(CutAddress(bs, i, size), size), a)
  {
  }

  lemma SumNotNegative(bs: seq<Block>)
    requires Sorted(bs)
    ensures Sum(bs) >= 0
  {
  }

  /** Cutting hands out `size` pages that were free, and leaves exactly the other free pages. */
  lemma CutTakesPages(bs: seq<Block>, i: nat, size: int)
    requires Sorted(bs) && i < |bs| && 0 < size <= bs[i].length
    ensures forall a :: Covers(Cut(bs, i, size), a) <==> Covers(bs, a) && !In(Block(CutAddress(bs, i, size), size), a)
    ensures forall a :: In(Block(CutAddress(bs, i, size), size), a) ==> Covers(bs, a)
  {
    forall a ensures Covers(Cut(bs, i, size), a) <==> Covers(bs, a) && !In(Block(CutAddress(bs, i, size), size), a) {
      if Covers(Cut(bs, i, size), a) {
        CutLeavesOnly(bs, i, size, a);
      } else if Covers(bs, a) && !In(Block(CutAddress(bs, i, size), size), a) {
        CutLeaves(bs, i, size, a);
      }
    }
    forall a | In(Block(CutAddress(bs, i, size), size), a) ensures Covers(bs, a) {
      assert In(bs[i], a);
    }
  }

  // ----- release -----

  /** The first block that starts after `addr`, or `|bs|`: where __page_free links the block in. */
  function InsertPos(bs: seq<Block>, addr: int): (i: nat)
    ensures i <= |bs|
    ensures i < |bs| ==> bs[i].base > addr
    ensures forall j | 0 <= j < i :: bs[j].base <= addr
  {
    if bs == [] then 0
    else if bs[0].base > addr then 0
    else 1 + InsertPos(bs[1..], addr)
  }

  function Release(bs: seq<Block>, b: Block): seq<Block> {
    Lists.Insert(bs, InsertPos(bs, b.base), b)
  }

  /** Releasing a block nothing of which is free adds exactly its pages and keeps the order. */
  lemma ReleaseAddsPages(bs: seq<Block>, b: Block)
    requires Sorted(bs) && WellPlaced(b)
    requires forall a | In(b, a) :: !Covers(bs, a)
    ensures Sorted(Release(bs, b))
    ensures Sum(Release(bs, b)) == Sum(bs) + b.length
    ensures forall a :: Covers(Release(bs, b), a) <==> Covers(bs, a) || In(b, a)
  {
    ReleaseSum(bs, b);
    ReleaseKeepsOrder(bs, b);
    forall a ensures Covers(Release(bs, b), a) <==> Covers(bs, a) || In(b, a) {
      ReleaseCovers(bs, b, a);
    }
  }

  lemma ReleaseSum(bs: seq<Block>, b: Block)
    ensures Sum(Release(bs, b)) == Sum(bs) + b.length
  {
    var i := InsertPos(bs, b.base);
    var cs := Release(bs, b);
    SumAt(cs, i);
    assert cs[..i] == bs[..i] && cs[i + 1..] == bs[i..] && bs == bs[..i] + bs[i..];
    SumSplit(bs[..i], bs[i..]);
  }

  lemma ReleaseKeepsOrder(bs: seq<Block>, b: Block)
    requires Sorted(bs) && WellPlaced(b)
    requires forall a | In(b, a) :: !Covers(bs, a)
    ensures Sorted(Release(bs, b))
  {
    forall j | 0 <= j < |bs| ensures End(bs[j]) <= b.base || End(b) <= bs[j].base {
      OutsideIsApart(bs, b, j);
    }
    var cs := Release(bs, b);
    forall j, k | 0 <= j < k < |cs| ensures End(cs[j]) <= cs[k].base {
    }
  }

  lemma OutsideIsApart(bs: seq<Block>, b: Block, j: nat)
    requires Sorted(bs) && WellPlaced(b) && j < |bs|
    requires forall a | In(b, a) :: !Covers(bs, a)
    ensures End(bs[j]) <= b.base || End(b) <= bs[j].base
  {
    if bs[j].base <= b.base < End(bs[j]) {
      assert In(b, b.base) && In(bs[j], b.base);
    }
    if b.base <= bs[j].base < End(b) {
      assert In(b, bs[j].base) && In(bs[j], bs[j].base);
    }
  }

  lemma ReleaseCovers(bs: seq<Block>, b: Block, a: int)
    ensures Covers(Release(bs, b), a) <==> Covers(bs, a) || In(b, a)
  {
    var i := InsertPos(bs, b.base);
    var cs := Release(bs, b);
    if Covers(cs, a) {
      var j :| 0 <= j < |cs| && In(cs[j], a);
      assert j != i ==> In(bs[if j < i then j else j - 1], a);
    }
    if Covers(bs, a) {
      var j :| 0 <= j < |bs| && In(bs[j], a);
      assert In(cs[if j < i then j else j + 1], a);
    }
    assert cs[i] == b;
  }

  // ----- lazy merge -----

  predicate Adjacent(b: Block, c: Block) { End(b) == c.base }

  function Join(b: Block, c: Block): Block { Block(b.base, b.length + c.length) }

  /** __page_merge: every block swallows the blocks that follow it without a gap. */
  function Merge(bs: seq<Block>): seq<Block>
    decreases |bs|
  {
    if |bs| < 2 then bs
    else if Adjacent(bs[0], bs[1]) then Merge([Join(bs[0], bs[1])] + bs[2..])
    else [bs[0]] + Merge(bs[1..])
  }

  ghost predicate NoneAdjacent(bs: seq<Block>) {
    forall i | 0 <= i < |bs| - 1 :: !Adjacent(bs[i], bs[i + 1])
  }

  lemma JoinKeeps(bs: seq<Block>)
    requires |bs| >= 2 && Adjacent(bs[0], bs[1])
    ensures var cs := [Join(bs[0], bs[1])] + bs[2..];
            && Sum(cs) == Sum(bs)
            && (Sorted(bs) ==> Sorted(cs) && forall a :: Covers(cs, a) <==> Covers(bs, a))
  {
    var cs := [Join(bs[0], bs[1])] + bs[2..];
    assert cs[1..] == bs[2..] == bs[1..][1..];
    if Sorted(bs) {
      forall a ensures Covers(cs, a) <==> Covers(bs, a) {
        if Covers(cs, a) {
          var j :| 0 <= j < |cs| && In(cs[j], a);
          assert if j > 0 then In(bs[j + 1], a) else In(bs[0], a) || In(bs[1], a);
        }
        if Covers(bs, a) {
          var j :| 0 <= j < |bs| && In(bs[j], a);
          assert In(cs[if j < 2 then 0 else j - 1], a);
        }
      }
    }
  }

  lemma {:induction false} MergeKeepsAlignment(bs: seq<Block>)
    requires PageAligned(bs)
    ensures PageAligned(Merge(bs))
    decreases |bs|
  {
    if |bs| >= 2 {
      MergeKeepsAlignment(if Adjacent(bs[0], bs[1]) then [Join(bs[0], bs[1])] + bs[2..] else bs[1..]);
    }
  }

  /** Merging keeps the free pages, their number and the address order, and leaves no adjacent blocks. */
  lemma {:induction false} MergeKeepsPages(bs: seq<Block>)
    requires Sorted(bs)
    ensures Sorted(Merge(bs)) && NoneAdjacent(Merge(bs))
    ensures Sum(Merge(bs)) == Sum(bs)
    ensures forall a :: Covers(Merge(bs), a) <==> Covers(bs, a)
    ensures bs != [] ==> Merge(bs) != [] && Merge(bs)[0].base == bs[0].base
    decreases |bs|
  {
    if |bs| >= 2 {
      if Adjacent(bs[0], bs[1]) {
        JoinKeeps(bs);
        MergeKeepsPages([Join(bs[0], bs[1])] + bs[2..]);
      } else {
        MergeKeepsTail(bs);
      }
    }
  }

  lemma {:induction false} MergeKeepsTail(bs: seq<Block>)
    requires Sorted(bs) && |bs| >= 2 && !Adjacent(bs[0], bs[1])
    ensures Sorted(Merge(bs)) && NoneAdjacent(Merge(bs))
    ensures Sum(Merge(bs)) == Sum(bs)
    ensures forall a :: Covers(Merge(bs), a) <==> Covers(bs, a)
    decreases |bs|, 0
  {
    var t := bs[1..];
    var m := Merge(t);
    MergeKeepsPages(t);
    assert ([bs[0]] + m)[1..] == m;
    forall a ensures Covers(Merge(bs), a) <==> Covers(bs, a) {
      CoversCons(bs[0], m, a);
      assert bs == [bs[0]] + t;
      CoversCons(bs[0], t, a);
    }
    MergedComesAfter(bs, m);
    SortedCons(bs[0], m);
  }

  lemma MergedComesAfter(bs: seq<Block>, m: seq<Block>)
    requires Sorted(bs) && bs != [] && Sorted(m) && forall a :: Covers(m, a) ==> Covers(bs[1..], a)
    ensures forall j | 0 <= j < |m| :: End(bs[0]) <= m[j].base
  {
    forall j | 0 <= j < |m| ensures End(bs[0]) <= m[j].base {
      assert WellPlaced(m[j]);
      assert In(m[j], m[j].base);
      CoveredComesAfter(bs, m[j]);
    }
  }

  lemma SortedCons(b: Block, bs: seq<Block>)
    requires WellPlaced(b) && Sorted(bs) && forall j | 0 <= j < |bs| :: End(b) <= bs[j].base
    ensures Sorted([b] + bs)
  {
  }

  lemma CoveredComesAfter(bs: seq<Block>, b: Block)
    requires Sorted(bs) && bs != [] && WellPlaced(b) && Covers(bs[1..], b.base)
    ensures End(bs[0]) <= b.base
  {
  }

  lemma CoversCons(b: Block, bs: seq<Block>, a: int)
    ensures Covers([b] + bs, a) <==> In(b, a) || Covers(bs, a)
  {
    var cs := [b] + bs;
    if Covers(cs, a) {
      var j :| 0 <= j < |cs| && In(cs[j], a);
      assert j > 0 ==> cs[j] == bs[j - 1];
    }
    if In(b, a) { assert In(cs[0], a); }
    if Covers(bs, a) {
      var j :| 0 <= j < |bs| && In(bs[j], a);
      assert In(cs[j + 1], a);
    }
  }

  /** In a merged list a run of free pages lies inside one block. */
  lemma {:induction false} RunInOneBlock(bs: seq<Block>, a: int, size: int, i: nat)
    requires Sorted(bs) && NoneAdjacent(bs) && FreeRun(bs, a, size)
    requires i < |bs| && In(bs[i], a)
    ensures a + size * PAGE_SIZE <= End(bs[i])
  {
    if End(bs[i]) < a + size * PAGE_SIZE {
      var p := End(bs[i]);
      assert Covers(bs, p);
      var j :| 0 <= j < |bs| && In(bs[j], p);
      EndIsCovered(bs, i, j);
      assert false;
    }
  }

  /** The address where a block ends lies in no block unless the next one starts there. */
  lemma EndIsCovered(bs: seq<Block>, i: nat, j: nat)
    requires Sorted(bs) && i < |bs| && j < |bs| && (i + 1 < |bs| ==> !Adjacent(bs[i], bs[i + 1]))
    ensures !In(bs[j], End(bs[i]))
  {
  }

  /** On a merged list first fit fails exactly when no run of `size` free pages exists. */
  lemma FirstFitIsComplete(bs: seq<Block>, size: int)
    requires Sorted(bs) && NoneAdjacent(bs) && size > 0
    requires PageAligned(bs)
    ensures FirstFit(bs, size) == |bs| <==> !exists a :: FreeRun(bs, a, size)
  {
    var i := FirstFit(bs, size);
    if i < |bs| {
      forall p | bs[i].base <= p < bs[i].base + size * PAGE_SIZE ensures Covers(bs, p) {
        assert In(bs[i], p);
      }
      assert FreeRun(bs, bs[i].base, size);
    } else if exists a :: FreeRun(bs, a, size) {
      var a :| FreeRun(bs, a, size);
      assert Covers(bs, a);
      var j :| 0 <= j < |bs| && In(bs[j], a);
      RunInOneBlock(bs, a, size, j);
      assert false;
    }
  }

  // ----- counting -----

  lemma SubsetSize<T>(xs: set<T>, ys: set<T>)
    requires xs <= ys
    ensures |xs| <= |ys|
  {
    assert ys == xs + (ys - xs);
  }

  ghost function BlockPages(b: Block): (r: set<int>)
    ensures forall p :: p in r <==> In(b, p) && p % PAGE_SIZE == 0
  {
    set p: int | b.base <= p < End(b) && p % PAGE_SIZE == 0
  }

  lemma {:induction false} BlockPagesCount(b: Block)
    requires b.length >= 0 && b.base % PAGE_SIZE == 0
    ensures |BlockPages(b)| == b.length
    decreases b.length
  {
    if b.length == 0 {
      assert BlockPages(b) == {};
    } else {
      var c := Block(b.base, b.length - 1);
      BlockPagesCount(c);
      assert BlockPages(b) == BlockPages(c) + {End(c)};
    }
  }

  /** The number the free lengths add up to is the number of free pages. */
  lemma {:induction false} SumCountsPages(bs: seq<Block>)
    requires Sorted(bs) && PageAligned(bs)
    ensures |FreePages(bs)| == Sum(bs)
  {
    if bs == [] {
      assert FreePages(bs) == {};
    } else {
      var t := bs[1..];
      SumCountsPages(t);
      BlockPagesCount(bs[0]);
      FreePagesCons(bs);
    }
  }

  lemma FreePagesCons(bs: seq<Block>)
    requires Sorted(bs) && bs != []
    ensures FreePages(bs) == BlockPages(bs[0]) + FreePages(bs[1..])
    ensures BlockPages(bs[0]) !! FreePages(bs[1..])
  {
  }
}
