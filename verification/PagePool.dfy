/** The physical page pool of arch/x86/paging.c. */
module PagePool {
  import opened PageBlocks
  import Lists

  function VirtToPhy(addr: int): int
    requires addr > PHY_MAP_BASE
  {
    addr - PHY_MAP_BASE
  }

  function PhyToVirt(addr: int): int
    requires addr < PHY_MAP_BASE
  {
    addr + PHY_MAP_BASE
  }

  /** The pages of physical memory that start at `addr`, seen through the direct map. */
  function PhysBlock(addr: int, size: int): Block { Block(addr + PHY_MAP_BASE, size) }

  /** `size` pages at `addr` move out of the free list `bs`, which becomes `cs`. */
  ghost predicate Takes(bs: seq<Block>, cs: seq<Block>, addr: int, size: int) {
    && Sorted(cs) && PageAligned(cs) && Sum(cs) == Sum(bs) - size
    && WellPlaced(PhysBlock(addr, size)) && addr % PAGE_SIZE == 0
    && (forall a :: In(PhysBlock(addr, size), a) ==> Covers(bs, a))
    && (forall a :: Covers(cs, a) <==> Covers(bs, a) && !In(PhysBlock(addr, size), a))
  }

  /** The pages a successful page_alloc moves. */
  lemma TakesPages(bs: seq<Block>, cs: seq<Block>, addr: int, size: int)
    requires Takes(bs, cs, addr, size)
    ensures BlockPages(PhysBlock(addr, size)) <= FreePages(bs)
    ensures FreePages(cs) == FreePages(bs) - BlockPages(PhysBlock(addr, size))
  {
  }

  /** The pages page_free adds. */
  lemma ReleasePages(bs: seq<Block>, cs: seq<Block>, b: Block)
    requires WellPlaced(b) && forall a :: Covers(cs, a) <==> Covers(bs, a) || In(b, a)
    ensures FreePages(cs) == FreePages(bs) + BlockPages(b)
  {
  }

  /** The block is the end of the first block of `bs` that is long enough. */
  ghost predicate FirstTail(bs: seq<Block>, b: Block) {
    exists i :: 0 <= i < |bs| && End(b) == End(bs[i]) && b.length <= bs[i].length && NoneBefore(bs, i, b.length)
  }

  ghost predicate NoneBefore(bs: seq<Block>, i: int, size: int) {
    forall j | 0 <= j < i && j < |bs| :: bs[j].length < size
  }

  lemma CutPlaced(b: Block, size: int, base: int)
    requires WellPlaced(b) && b.base % PAGE_SIZE == 0 && 0 < size <= b.length
    requires base == b.base + (b.length - size) * PAGE_SIZE
    ensures WellPlaced(Block(base, size)) && (base - PHY_MAP_BASE) % PAGE_SIZE == 0
  {
  }

  lemma CutTakes(bs: seq<Block>, i: nat, size: int)
    requires Sorted(bs) && PageAligned(bs) && i < |bs| && 0 < size <= bs[i].length
    ensures Takes(bs, Cut(bs, i, size), CutAddress(bs, i, size) - PHY_MAP_BASE, size)
  {
    var addr := CutAddress(bs, i, size) - PHY_MAP_BASE;
    assert PhysBlock(addr, size) == Block(CutAddress(bs, i, size), size);
    assert WellPlaced(bs[i]);
    CutPlaced(bs[i], size, CutAddress(bs, i, size));
    CutTakesPages(bs, i, size);
    CutKeepsOrder(bs, i, size);
    CutKeepsAlignment(bs, i, size);
    CutSum(bs, i, size);
  }

  /** Everything a caller of __page_alloc needs to know about the cut it makes. */
  lemma CutDone(bs: seq<Block>, i: nat, size: int)
    requires Sorted(bs) && PageAligned(bs) && i < |bs| && 0 < size <= bs[i].length
    ensures var addr := CutAddress(bs, i, size) - PHY_MAP_BASE;
            Takes(bs, Cut(bs, i, size), addr, size) && 0 < addr < INVALID_ADDR
    ensures FreePages(Cut(bs, i, size)) <= FreePages(bs)
    ensures PHY_MAP_BASE < bs[i].base
  {
    CutTakes(bs, i, size);
    TakesKeepsFree(bs, Cut(bs, i, size), CutAddress(bs, i, size) - PHY_MAP_BASE, size);
    assert WellPlaced(bs[i]);
  }

  lemma TakesKeepsFree(bs: seq<Block>, cs: seq<Block>, addr: int, size: int)
    requires Takes(bs, cs, addr, size)
    ensures FreePages(cs) <= FreePages(bs)
  {
  }

  lemma TakenWasRun(bs: seq<Block>, cs: seq<Block>, addr: int, size: int)
    requires Takes(bs, cs, addr, size)
    ensures FreeRun(bs, addr + PHY_MAP_BASE, size)
  {
  }

  lemma TakenAfterMerge(bs: seq<Block>, cs: seq<Block>, addr: int, size: int)
    requires Sorted(bs) && Takes(Merge(bs), cs, addr, size)
    ensures Takes(bs, cs, addr, size)
  {
    MergeKeepsPages(bs);
  }

  /** When first fit fails on the merged list, no run of `size` free pages exists in the list before merging. */
  lemma MergedFailureIsExhaustion(bs: seq<Block>, size: int)
    requires Sorted(bs) && PageAligned(bs) && size > 0
    requires FirstFit(Merge(bs), size) == |Merge(bs)|
    ensures !exists a :: FreeRun(bs, a, size)
  {
    MergeKeepsPages(bs);
    MergeKeepsAlignment(bs);
    FirstFitIsComplete(Merge(bs), size);
    forall a ensures FreeRun(bs, a, size) <==> FreeRun(Merge(bs), a, size) {
    }
  }

  // ----- what the loops over the list compute -----

  lemma {:induction false} FirstFitIs(bs: seq<Block>, size: int, i: nat)
    requires i <= |bs| && (forall j | 0 <= j < i :: bs[j].length < size) && (i < |bs| ==> bs[i].length >= size)
    ensures FirstFit(bs, size) == i
  {
  }

  lemma {:induction false} InsertPosIs(bs: seq<Block>, addr: int, i: nat)
    requires i <= |bs| && (forall j | 0 <= j < i :: bs[j].base <= addr) && (i < |bs| ==> bs[i].base > addr)
    ensures InsertPos(bs, addr) == i
  {
  }

  /** One round of the inner merge loop: block `i` takes over the pages of its neighbour. */
  function JoinAt(bs: seq<Block>, i: nat): seq<Block>
    requires i + 1 < |bs|
  {
    Lists.Remove(bs[i := Join(bs[i], bs[i + 1])], i + 1)
  }

  /** `bs` is merged up to block `i`, and merging what follows gives what merging `was` gives. */
  ghost predicate MergedUpTo(was: seq<Block>, bs: seq<Block>, i: nat) {
    i <= |bs| && Merge(was) == bs[..i] + Merge(bs[i..])
  }

  lemma MergeJoins(was: seq<Block>, bs: seq<Block>, i: nat)
    requires MergedUpTo(was, bs, i) && i + 1 < |bs| && Adjacent(bs[i], bs[i + 1])
    ensures MergedUpTo(was, JoinAt(bs, i), i)
  {
    var cs := JoinAt(bs, i);
    assert cs[..i] == bs[..i];
    assert cs[i..] == [Join(bs[i..][0], bs[i..][1])] + bs[i..][2..];
  }

  lemma MergeAdvances(was: seq<Block>, bs: seq<Block>, i: nat)
    requires MergedUpTo(was, bs, i) && i < |bs| && (i + 1 < |bs| ==> !Adjacent(bs[i], bs[i + 1]))
    ensures MergedUpTo(was, bs, i + 1)
  {
  }

  lemma MergeDone(was: seq<Block>, bs: seq<Block>)
    requires Sorted(was) && PageAligned(was) && MergedUpTo(was, bs, |bs|)
    ensures bs == Merge(was) && Sorted(bs) && PageAligned(bs) && Sum(bs) == Sum(was) && FreePages(bs) == FreePages(was)
    ensures forall a :: Covers(bs, a) <==> Covers(was, a)
  {
    assert bs[..|bs|] == bs && bs[|bs|..] == [];
    MergeKeepsPages(was);
    MergeKeepsAlignment(was);
  }

  /** What __page_consistency_check tests. */
  ghost predicate Consistent(bs: seq<Block>, available: int, total: int) {
    && available <= total
    && (forall i | 0 <= i < |bs| - 1 :: End(bs[i]) <= End(bs[i + 1]))
    && Sum(bs) == available
  }

  /** The pool invariant is enough for the run-time check never to report. */
  lemma ValidIsConsistent(bs: seq<Block>, available: int, total: int, managed: set<int>)
    requires Sorted(bs) && PageAligned(bs) && available == Sum(bs) && total == |managed| && FreePages(bs) <= managed
    ensures Consistent(bs, available, total)
  {
    SumCountsPages(bs);
    SubsetSize(FreePages(bs), managed);
  }

  lemma {:induction false} SumPrefix(bs: seq<Block>, i: nat)
    requires i < |bs|
    ensures Sum(bs[..i + 1]) == Sum(bs[..i]) + bs[i].length
  {
    assert bs[..i + 1] == bs[..i] + [bs[i]];
    SumSplit(bs[..i], [bs[i]]);
  }

  // ----- giving pages back -----

  /** Pages that are all handed out hide no free address. */
  lemma HandedOutIsNotFree(bs: seq<Block>, b: Block, handed: set<int>)
    requires Sorted(bs) && PageAligned(bs) && WellPlaced(b) && b.base % PAGE_SIZE == 0
    requires BlockPages(b) <= handed && handed !! FreePages(bs)
    ensures forall a | In(b, a) :: !Covers(bs, a)
  {
    forall a | In(b, a) ensures !Covers(bs, a) {
      PageOf(b, a);
      assert a - a % PAGE_SIZE in handed;
      if Covers(bs, a) {
        CoveredPageIsFree(bs, a);
        assert false;
      }
    }
  }

  lemma CoveredPageIsFree(bs: seq<Block>, a: int)
    requires Sorted(bs) && PageAligned(bs) && Covers(bs, a)
    ensures a - a % PAGE_SIZE in FreePages(bs)
  {
  }

  lemma PageOf(b: Block, a: int)
    requires b.base % PAGE_SIZE == 0 && In(b, a)
    ensures In(b, a - a % PAGE_SIZE) && (a - a % PAGE_SIZE) % PAGE_SIZE == 0
  {
  }

  lemma ReleaseKeepsAlignment(bs: seq<Block>, b: Block)
    requires PageAligned(bs) && b.base % PAGE_SIZE == 0
    ensures PageAligned(Release(bs, b))
  {
  }

  lemma ReleasedWithin(bs: seq<Block>, b: Block, managed: set<int>)
    requires FreePages(bs) <= managed && BlockPages(b) <= managed
    requires forall a :: Covers(Release(bs, b), a) <==> Covers(bs, a) || In(b, a)
    ensures FreePages(Release(bs, b)) <= managed
  {
  }

  /** Everything page_free needs to know about a block of pages that were handed out. */
  lemma FreeDone(bs: seq<Block>, b: Block, managed: set<int>)
    requires Sorted(bs) && PageAligned(bs) && FreePages(bs) <= managed
    requires WellPlaced(b) && b.base % PAGE_SIZE == 0 && BlockPages(b) <= managed - FreePages(bs)
    ensures var cs := Release(bs, b);
      && Sorted(cs) && PageAligned(cs) && Sum(cs) == Sum(bs) + b.length && FreePages(cs) <= managed
      && forall a :: Covers(cs, a) <==> Covers(bs, a) || In(b, a)
  {
    HandedOutIsNotFree(bs, b, managed - FreePages(bs));
    ReleaseAddsPages(bs, b);
    ReleaseKeepsAlignment(bs, b);
    ReleasedWithin(bs, b, managed);
  }

  /** __page_free as it stands links the block in at the address `size`, not at `addr`:
      it returns the pages it was given exactly when the two numbers are equal. */
  lemma FreeAsWritten(bs: seq<Block>, addr: int, size: int)
    requires Sorted(bs) && size > 0
    requires forall a | In(PhysBlock(addr, size), a) :: !Covers(bs, a)
    ensures var freed := Release(bs, PhysBlock(size, size));
            (forall a :: Covers(freed, a) <==> Covers(bs, a) || In(PhysBlock(addr, size), a)) <==> addr == size
  {
    var given, linked := PhysBlock(addr, size), PhysBlock(size, size);
    forall a ensures Covers(Release(bs, linked), a) <==> Covers(bs, a) || In(linked, a) {
      ReleaseCovers(bs, linked, a);
    }
    if addr != size {
      assert In(given, given.base) && In(given, End(given) - 1);
      assert !In(linked, given.base) || !In(linked, End(given) - 1);
    }
  }

  /** Page 3 of the pool, freed as written: it is lost, and the page's worth of bytes from address 1 on, the rest of
      page 0 and the first byte of page 1, is wrongly made free, at an address that is no page. */
  lemma FreeAsWrittenLosesPages()
    ensures var linked := Release([], PhysBlock(1, 1));
      && !Covers(linked, 0x3000 + PHY_MAP_BASE) && Covers(linked, 0x1000 + PHY_MAP_BASE) && !PageAligned(linked)
  {
    assert In(Release([], PhysBlock(1, 1))[0], 0x1000 + PHY_MAP_BASE);
  }

  // ----- set-up from the firmware's memory map -----

  const EfiLoaderCode := 1
  const EfiLoaderData := 2
  const EfiBootServicesCode := 3
  const EfiBootServicesData := 4
  const EfiConventionalMemory := 7

  /** The fields of efi_memory_descriptor_t that the set-up reads. */
  datatype Region = Region(kind: int, physicalStart: int, numberOfPages: int)

  predicate Usable(r: Region) {
    r.kind in {EfiConventionalMemory, EfiBootServicesCode, EfiBootServicesData, EfiLoaderCode, EfiLoaderData}
  }

  function RegionEnd(r: Region): int { r.physicalStart + r.numberOfPages * PAGE_SIZE }

  /** The block a usable region is turned into; the page count wraps like the 64-bit subtraction it comes from. */
  function RegionBlock(r: Region, lowerbound: int): Block {
    var start := if r.physicalStart > lowerbound then r.physicalStart else lowerbound;
    PhysBlock(start, (RegionEnd(r) - start) % 0x1_0000_0000_0000_0000 / PAGE_SIZE)
  }

  function InitialBlocks(rs: seq<Region>, lowerbound: int): seq<Block> {
    if rs == [] then []
    else
      var front := InitialBlocks(rs[..|rs| - 1], lowerbound);
      var last := rs[|rs| - 1];
      if Usable(last) then front + [RegionBlock(last, lowerbound)] else front
  }

  /** The firmware's usable regions: aligned, in address order, not overlapping, inside the direct map. */
  ghost predicate RegionsInOrder(rs: seq<Region>) {
    && (forall i | 0 <= i < |rs| && Usable(rs[i]) :: RegionPlaced(rs[i]))
    && (forall i, j | 0 <= i < j < |rs| && Usable(rs[i]) && Usable(rs[j]) :: RegionEnd(rs[i]) <= rs[j].physicalStart)
  }

  ghost predicate EndAbove(rs: seq<Region>, lowerbound: int) {
    forall i | 0 <= i < |rs| && Usable(rs[i]) :: lowerbound < RegionEnd(rs[i])
  }

  predicate RegionPlaced(r: Region) {
    r.physicalStart >= 0 && r.physicalStart % PAGE_SIZE == 0 && r.numberOfPages > 0 && RegionEnd(r) <= PHYS_LIMIT
  }

  lemma EndAligned(r: Region)
    requires RegionPlaced(r)
    ensures RegionEnd(r) % PAGE_SIZE == 0
  {
  }

  /** The 64-bit difference of two page addresses, in pages. */
  lemma PagesBetween(start: int, end: int)
    requires 0 <= start < end <= PHYS_LIMIT && start % PAGE_SIZE == 0 && end % PAGE_SIZE == 0
    ensures var n := (end - start) % 0x1_0000_0000_0000_0000 / PAGE_SIZE; n > 0 && start + n * PAGE_SIZE == end
  {
    assert (end - start) % 0x1_0000_0000_0000_0000 == end - start;
  }

  /** A region that ends above `lowerbound` becomes the pages it has above it. */
  lemma RegionClipped(r: Region, lowerbound: int)
    requires RegionPlaced(r) && 0 < lowerbound < RegionEnd(r) && lowerbound % PAGE_SIZE == 0
    ensures var b := RegionBlock(r, lowerbound);
            && WellPlaced(b) && b.base % PAGE_SIZE == 0
            && End(b) == RegionEnd(r) + PHY_MAP_BASE
            && b.base == PHY_MAP_BASE + if r.physicalStart > lowerbound then r.physicalStart else lowerbound
  {
    EndAligned(r);
    StartBelowEnd(r);
    PagesBetween(if r.physicalStart > lowerbound then r.physicalStart else lowerbound, RegionEnd(r));
  }

  lemma StartBelowEnd(r: Region)
    requires RegionPlaced(r)
    ensures r.physicalStart < RegionEnd(r)
  {
  }

  /** A region that ends below `lowerbound` becomes a block that runs out of the direct map. */
  lemma RegionWraps(r: Region, lowerbound: int)
    requires RegionPlaced(r) && RegionEnd(r) <= lowerbound < PHYS_LIMIT && lowerbound % PAGE_SIZE == 0
    ensures !WellPlaced(RegionBlock(r, lowerbound))
  {
  }

  /** The set-up builds a well-formed free list exactly when every usable region ends above `lowerbound`. */
  lemma {:induction false} InitialBlocksSorted(rs: seq<Region>, lowerbound: int)
    requires RegionsInOrder(rs) && 0 < lowerbound < PHYS_LIMIT && lowerbound % PAGE_SIZE == 0
    ensures Sorted(InitialBlocks(rs, lowerbound)) <==> EndAbove(rs, lowerbound)
    ensures EndAbove(rs, lowerbound) ==> PageAligned(InitialBlocks(rs, lowerbound))
  {
    if rs != [] {
      var front, last := rs[..|rs| - 1], rs[|rs| - 1];
      var bs := InitialBlocks(front, lowerbound);
      InitialBlocksSorted(front, lowerbound);
      if EndAbove(rs, lowerbound) && Usable(last) {
        RegionClipped(last, lowerbound);
        InitialBlocksEnd(front, lowerbound, last.physicalStart);
        SortedMore(bs, RegionBlock(last, lowerbound));
      } else if EndAbove(front, lowerbound) && Usable(last) {
        RegionWraps(last, lowerbound);
        assert InitialBlocks(rs, lowerbound)[|bs|] == RegionBlock(last, lowerbound);
      } else {
        PrefixSorted(bs, InitialBlocks(rs, lowerbound));
      }
    }
  }

  /** A usable page below the lower bound, here the one at 0x1000 with the kernel ending at 1 MB: its length wraps. */
  lemma LowRegionWraps()
    ensures var rs := [Region(EfiConventionalMemory, 0x1000, 1)];
      && RegionsInOrder(rs) && !Sorted(InitialBlocks(rs, 0x10_0000))
      && InitialBlocks(rs, 0x10_0000) == [PhysBlock(0x10_0000, 0xF_FFFF_FFFF_FF02)]
  {
    var rs := [Region(EfiConventionalMemory, 0x1000, 1)];
    assert rs[..0] == [] && Usable(rs[0]);
    InitialBlocksSorted(rs, 0x10_0000);
  }

  lemma SortedMore(bs: seq<Block>, b: Block)
    requires Sorted(bs) && WellPlaced(b) && forall k | 0 <= k < |bs| :: End(bs[k]) <= b.base
    ensures Sorted(bs + [b])
    ensures PageAligned(bs) && b.base % PAGE_SIZE == 0 ==> PageAligned(bs + [b])
  {
  }

  lemma PrefixSorted(xs: seq<Block>, ys: seq<Block>)
    requires xs <= ys
    ensures Sorted(ys) ==> Sorted(xs)
  {
  }

  lemma {:induction false} InitialBlocksEnd(rs: seq<Region>, lowerbound: int, x: int)
    requires RegionsInOrder(rs) && 0 < lowerbound && lowerbound % PAGE_SIZE == 0 && EndAbove(rs, lowerbound)
    requires forall i | 0 <= i < |rs| && Usable(rs[i]) :: RegionEnd(rs[i]) <= x
    ensures forall k | 0 <= k < |InitialBlocks(rs, lowerbound)| ::
              End(InitialBlocks(rs, lowerbound)[k]) <= x + PHY_MAP_BASE
  {
    if rs != [] {
      InitialBlocksEnd(rs[..|rs| - 1], lowerbound, x);
      if Usable(rs[|rs| - 1]) {
        RegionClipped(rs[|rs| - 1], lowerbound);
      }
    }
  }

  /** The region of memory is the kernel's to use: of the UEFI memory types, loader code and data (1 and 2), boot
      services code and data (3 and 4), and conventional memory (7). */
  predicate Released(r: Region) {
    1 <= r.kind <= 4 || r.kind == 7
  }

  /** Address `a` lies in `r`, which is such a region, and not below `lowerbound`. */
  ghost predicate UsableIn(r: Region, lowerbound: int, a: int) {
    Released(r) && lowerbound <= a && r.physicalStart <= a < r.physicalStart + 0x1000 * r.numberOfPages
  }

  ghost predicate UsableAt(rs: seq<Region>, lowerbound: int, a: int) {
    exists i :: 0 <= i < |rs| && UsableIn(rs[i], lowerbound, a)
  }

  /** A region that ends above `lowerbound` becomes exactly its bytes at and above it. */
  lemma RegionCovers(r: Region, lowerbound: int, a: int)
    requires RegionPlaced(r) && 0 < lowerbound < RegionEnd(r) && lowerbound % PAGE_SIZE == 0
    ensures In(RegionBlock(r, lowerbound), a + PHY_MAP_BASE) <==> lowerbound <= a && r.physicalStart <= a < RegionEnd(r)
  {
    RegionClipped(r, lowerbound);
  }

  lemma CoversMore(bs: seq<Block>, b: Block, a: int)
    ensures Covers(bs + [b], a) <==> Covers(bs, a) || In(b, a)
  {
    assert (bs + [b])[|bs|] == b;
    if Covers(bs, a) {
      var i :| 0 <= i < |bs| && In(bs[i], a);
      assert (bs + [b])[i] == bs[i];
    }
  }

  lemma UsableMore(rs: seq<Region>, lowerbound: int, a: int)
    requires rs != []
    ensures var front := rs[..|rs| - 1];
      UsableAt(rs, lowerbound, a) <==> (UsableAt(front, lowerbound, a) || UsableIn(rs[|rs| - 1], lowerbound, a))
  {
    var front := rs[..|rs| - 1];
    if UsableAt(front, lowerbound, a) {
      var i :| 0 <= i < |front| && UsableIn(front[i], lowerbound, a);
      assert rs[i] == front[i];
    }
    if UsableAt(rs, lowerbound, a) {
      var i :| 0 <= i < |rs| && UsableIn(rs[i], lowerbound, a);
      assert i < |front| ==> rs[i] == front[i];
    }
  }

  /** The set-up links in the usable memory above the kernel, all of it and nothing else. */
  lemma {:induction false} InitialBlocksCover(rs: seq<Region>, lowerbound: int, a: int)
    requires RegionsInOrder(rs) && EndAbove(rs, lowerbound)
    requires 0 < lowerbound < PHYS_LIMIT && lowerbound % PAGE_SIZE == 0
    ensures Covers(InitialBlocks(rs, lowerbound), a + PHY_MAP_BASE) <==> UsableAt(rs, lowerbound, a)
  {
    if rs != [] {
      var front, last := rs[..|rs| - 1], rs[|rs| - 1];
      InitialBlocksCover(front, lowerbound, a);
      UsableMore(rs, lowerbound, a);
      if Usable(last) {
        RegionCovers(last, lowerbound, a);
        CoversMore(InitialBlocks(front, lowerbound), RegionBlock(last, lowerbound), a + PHY_MAP_BASE);
      }
    }
  }

  /** The pages of physical memory that a pool set up with these regions manages. */
  ghost predicate ManagesUsable(managed: set<int>, rs: seq<Region>, lowerbound: int) {
    forall p :: p + PHY_MAP_BASE in managed <==> p % 0x1000 == 0 && UsableAt(rs, lowerbound, p)
  }

  lemma InitialPages(rs: seq<Region>, lowerbound: int)
    requires RegionsInOrder(rs) && EndAbove(rs, lowerbound)
    requires 0 < lowerbound < PHYS_LIMIT && lowerbound % PAGE_SIZE == 0
    ensures ManagesUsable(FreePages(InitialBlocks(rs, lowerbound)), rs, lowerbound)
  {
    var pages := FreePages(InitialBlocks(rs, lowerbound));
    forall p ensures p + PHY_MAP_BASE in pages <==> p % 0x1000 == 0 && UsableAt(rs, lowerbound, p) {
      InitialBlocksCover(rs, lowerbound, p);
    }
  }

  class Pool {
    var blocks: seq<Block>
    var available: int
    var total: int
    ghost const managed: set<int>    // every page the pool was set up with

    ghost predicate Valid()
      reads this
    {
      && Sorted(blocks) && PageAligned(blocks)
      && available == Sum(blocks)
      && total == |managed|
      && FreePages(blocks) <= managed
    }

    /** Pages that are handed out: under management and not free. */
    ghost function Handed(): set<int>
      reads this
    {
      managed - FreePages(blocks)
    }

    /** page_alloc_init. */
    constructor (rs: seq<Region>, lowerbound: int)
      requires RegionsInOrder(rs) && 0 < lowerbound < PHYS_LIMIT && lowerbound % PAGE_SIZE == 0
      requires EndAbove(rs, lowerbound)
      ensures Valid() && blocks == InitialBlocks(rs, lowerbound) && total == available
      ensures managed == FreePages(blocks) && ManagesUsable(managed, rs, lowerbound)
    {
      managed := FreePages(InitialBlocks(rs, lowerbound));
      blocks, available, total := [], 0, 0;
      new;
      InitialBlocksSorted(rs, lowerbound);
      var i := 0;
      while i < |rs|
        invariant 0 <= i <= |rs|
        invariant blocks == InitialBlocks(rs[..i], lowerbound) && available == Sum(blocks)
      {
        assert rs[..i + 1][..i] == rs[..i];
        if Usable(rs[i]) {
          var block := RegionBlock(rs[i], lowerbound);
          SumSplit(blocks, [block]);
          blocks := blocks + [block];
          available := available + block.length;
        }
        i := i + 1;
      }
      assert rs[..i] == rs;
      SumCountsPages(blocks);
      InitialPages(rs, lowerbound);
      total := available;
    }

    /** __page_alloc: cut `size` pages from the tail of the first block that is long enough. */
    method AllocFirstFit(size: int) returns (addr: int)
      requires Valid() && size > 0
      modifies this
      ensures var i := FirstFit(old(blocks), size);
              if i == |old(blocks)| then addr == INVALID_ADDR && blocks == old(blocks)
              else addr == CutAddress(old(blocks), i, size) - PHY_MAP_BASE && blocks == Cut(old(blocks), i, size)
      ensures addr != INVALID_ADDR ==> Takes(old(blocks), blocks, addr, size)
      ensures addr != INVALID_ADDR ==> FirstTail(old(blocks), PhysBlock(addr, size))
      ensures Valid() && total == old(total)
    {
      if blocks == [] {
        return INVALID_ADDR;
      }
      var i := 0;
      while i < |blocks|
        invariant 0 <= i <= |blocks|
        invariant forall j | 0 <= j < i :: blocks[j].length < size
        invariant blocks == old(blocks) && available == old(available) && total == old(total)
      {
        if blocks[i].length >= size {
          FirstFitIs(blocks, size, i);
          CutDone(blocks, i, size);
          if blocks[i].length == size {
            addr := VirtToPhy(blocks[i].base);
            blocks := Lists.Remove(blocks, i);
          } else {
            var length := blocks[i].length - size;
            addr := VirtToPhy(blocks[i].base + length * PAGE_SIZE);
            blocks := blocks[i := Block(blocks[i].base, length)];
          }
          available := available - size;
          return;
        }
        i := i + 1;
      }
      FirstFitIs(blocks, size, |blocks|);
      return INVALID_ADDR;
    }

    /** __page_merge. */
    method MergeBlocks()
      requires Valid()
      modifies this
      ensures Valid() && blocks == Merge(old(blocks)) && FreePages(blocks) == FreePages(old(blocks))
      ensures forall a :: Covers(blocks, a) <==> Covers(old(blocks), a)
      ensures available == old(available) && total == old(total)
    {
      var i := 0;
      assert blocks[0..] == blocks;
      while i < |blocks|
        invariant MergedUpTo(old(blocks), blocks, i)
        invariant available == old(available) && total == old(total)
        decreases |blocks| - i
      {
        while i + 1 < |blocks| && Adjacent(blocks[i], blocks[i + 1])
          invariant i < |blocks|
          invariant MergedUpTo(old(blocks), blocks, i)
          invariant available == old(available) && total == old(total)
          decreases |blocks|
        {
          MergeJoins(old(blocks), blocks, i);
          blocks := JoinAt(blocks, i);
        }
        MergeAdvances(old(blocks), blocks, i);
        i := i + 1;
      }
      MergeDone(old(blocks), blocks);
    }

    /** __page_consistency_check: true when nothing is reported. */
    method ConsistencyCheck() returns (ok: bool)
      ensures ok <==> Consistent(blocks, available, total)
    {
      ok := available <= total;
      var sum := 0;
      var i := 0;
      while i < |blocks|
        invariant 0 <= i <= |blocks|
        invariant sum == Sum(blocks[..i])
        invariant ok <==> available <= total
                          && forall j | 0 <= j < i && j + 1 < |blocks| :: End(blocks[j]) <= End(blocks[j + 1])
      {
        if i + 1 < |blocks| && End(blocks[i]) > End(blocks[i + 1]) {
          ok := false;
        }
        SumPrefix(blocks, i);
        sum := sum + blocks[i].length;
        i := i + 1;
      }
      assert blocks[..i] == blocks;
      ok := ok && sum == available;
    }

    /** page_alloc: first fit, and once more after a merge. Fails exactly when no run of `size` pages is free. */
    method PageAlloc(size: int) returns (addr: int)
      requires Valid() && size >= 0
      modifies this
      ensures Valid() && total == old(total)
      ensures addr == INVALID_ADDR <==> size == 0 || !exists a :: FreeRun(old(blocks), a, size)
      ensures addr == INVALID_ADDR ==>
                && available == old(available) && FreePages(blocks) == FreePages(old(blocks))
                && forall a :: Covers(blocks, a) <==> Covers(old(blocks), a)
      ensures addr != INVALID_ADDR ==> Takes(old(blocks), blocks, addr, size)
    {
      if size == 0 {
        return INVALID_ADDR;
      }
      addr := AllocFirstFit(size);
      if addr == INVALID_ADDR {
        MergeBlocks();
        addr := AllocFirstFit(size);
        if addr == INVALID_ADDR {
          MergedFailureIsExhaustion(old(blocks), size);
        } else {
          TakenAfterMerge(old(blocks), blocks, addr, size);
        }
      }
      if addr != INVALID_ADDR {
        TakenWasRun(old(blocks), blocks, addr, size);
      }
      ValidIsConsistent(blocks, available, total, managed);
      var ok := ConsistencyCheck();
      assert ok;
    }

    /** page_free, linking the block in at the address it is given (see FreeAsWritten). */
    method PageFree(addr: int, size: int)
      requires Valid() && WellPlaced(PhysBlock(addr, size)) && addr % PAGE_SIZE == 0
      requires BlockPages(PhysBlock(addr, size)) <= Handed()
      modifies this
      ensures Valid() && total == old(total) && available == old(available) + size
      ensures blocks == Release(old(blocks), PhysBlock(addr, size))
      ensures forall a :: Covers(blocks, a) <==> Covers(old(blocks), a) || In(PhysBlock(addr, size), a)
    {
      var block := Block(PhyToVirt(addr), size);
      var i := 0;
      while i < |blocks| && !(blocks[i].base > block.base)
        invariant 0 <= i <= |blocks|
        invariant forall j | 0 <= j < i :: blocks[j].base <= block.base
      {
        i := i + 1;
      }
      InsertPosIs(blocks, block.base, i);
      FreeDone(blocks, block, managed);
      blocks := Lists.Insert(blocks, i, block);
      available := available + size;
      ValidIsConsistent(blocks, available, total, managed);
      var ok := ConsistencyCheck();
      assert ok;
    }
  }
}
