/** What a process memory map of mm/vm_map.c says about the pages of the address space. */
module VmEntries {
  import opened Bits
  import opened Memory
  import opened Entries
  import opened Options
  import opened PageBlocks
  import opened TableTree
  import opened Ranges

  const USER_LIMIT := 0x0000_8000_0000_0000

  datatype VmEntry = VmEntry(virt: nat, phy: nat, pages: nat, flags: nat)

  // ----- what a map says about a page -----

  /** How many pages after the start of the entry page `vpn` comes; page numbers wrap at 36 bits. */
  function Offset(e: VmEntry, vpn: int): (r: int)
    ensures 0 <= r < VPN_LIMIT
  {
    (vpn - e.virt / 0x1000) % VPN_LIMIT
  }

  predicate CoversPage(e: VmEntry, vpn: int) { Offset(e, vpn) < e.pages }

  /** The mapping the last entry that covers the page gives it, or `was` when none does. */
  function LookUp(es: seq<VmEntry>, vpn: int, was: Option<Mapping>): Option<Mapping> {
    if es == [] then was
    else
      var last := es[|es| - 1];
      if CoversPage(last, vpn) then Some(Mapping(last.phy + 0x1000 * Offset(last, vpn), last.flags))
      else LookUp(es[..|es| - 1], vpn, was)
  }

  /** What vm_map_do_mapping asserts of an entry before it maps it; the sum is a 64-bit one. */
  predicate EntryAllowed(e: VmEntry) {
    And(e.flags, MASK_ADDR) == 0 && (e.virt + e.pages * 0x1000 % TWO64) % TWO64 <= USER_LIMIT
  }

  /** Of the entries with flags that can be read back, and whose end is a 64-bit number, the code allows exactly those
      that end in the lower half of the address space. */
  lemma UserEntryAllowed(e: VmEntry)
    requires FitsFlag(e.flags) && e.virt + 0x1000 * e.pages < TWO64
    ensures EntryAllowed(e) <==> e.virt + 0x1000 * e.pages <= 0x8000_0000_0000
  {
    AndAssociative(e.flags, MASK_FLAGS, MASK_ADDR);
    AndCommutes(MASK_FLAGS, MASK_ADDR);
    MasksApart();
    AndCommutes(e.flags, 0);
  }

  lemma OffsetFindsPage(e: VmEntry, vpn: int)
    requires 0 <= vpn < VPN_LIMIT
    ensures PageAt(e.virt, Offset(e, vpn)) == vpn
  {
    PageNumber(e.virt, Offset(e, vpn));
  }

  lemma OffsetOfPage(e: VmEntry, i: nat)
    ensures Offset(e, PageAt(e.virt, i)) <= i
  {
    PageNumber(e.virt, i);
    TurnsCancel(e.virt / 0x1000, i);
  }

  lemma TurnsCancel(x: int, i: nat)
    ensures ((x + i) % VPN_LIMIT - x) % VPN_LIMIT == i % VPN_LIMIT
  {
  }

  /** A mapped entry sends every page it covers to its physical page, and leaves the others alone. */
  lemma EntryMapped(w: Mem, w': Mem, root: int, e: VmEntry, vpn: int)
    requires Mappable(e.phy, e.pages, e.flags) && 0 <= vpn < VPN_LIMIT
    requires MapsRange(w, w', root, e.virt, e.phy, e.pages, e.flags)
    ensures Translate(w', root, vpn) == LookUp([e], vpn, Translate(w, root, vpn))
  {
    if CoversPage(e, vpn) {
      OffsetFindsPage(e, vpn);
    } else {
      forall i | 0 <= i < e.pages ensures PageAt(e.virt, i) != vpn {
        OffsetOfPage(e, i);
      }
    }
  }

  /** Mapping one more entry looks up one more entry. */
  lemma LookUpNext(es: seq<VmEntry>, e: VmEntry, vpn: int, was: Option<Mapping>)
    ensures LookUp(es + [e], vpn, was) == LookUp([e], vpn, LookUp(es, vpn, was))
  {
  }

  /** Every page translates as the entries say, or as it did in `w0` where they say nothing. */
  ghost predicate MapsLike(w0: Mem, w: Mem, root: int, es: seq<VmEntry>) {
    forall vpn | 0 <= vpn < VPN_LIMIT :: Translate(w, root, vpn) == LookUp(es, vpn, Translate(w0, root, vpn))
  }

  /** The processor finds every page where the entries say, with the rights of their flags. */
  ghost predicate GrantsLike(w0: Mem, w: Mem, root: int, es: seq<VmEntry>) {
    forall vpn | 0 <= vpn < VPN_LIMIT :: Access(w, root, vpn) == Granted(LookUp(es, vpn, Translate(w0, root, vpn)))
  }

  lemma MapsIsGranted(w0: Mem, w: Mem, root: int, tab: map<Key, int>, es: seq<VmEntry>)
    requires MapsLike(w0, w, root, es) && Tree(w, root, tab)
    ensures GrantsLike(w0, w, root, es)
  {
    forall vpn | 0 <= vpn < VPN_LIMIT
      ensures Access(w, root, vpn) == Granted(LookUp(es, vpn, Translate(w0, root, vpn)))
    {
      AccessIsLeaf(w, root, tab, vpn);
    }
  }

  lemma MapsLikeNext(w0: Mem, w1: Mem, w2: Mem, root: int, es: seq<VmEntry>, e: VmEntry)
    requires MapsLike(w0, w1, root, es) && Mappable(e.phy, e.pages, e.flags)
    requires MapsRange(w1, w2, root, e.virt, e.phy, e.pages, e.flags)
    ensures MapsLike(w0, w2, root, es + [e])
  {
    forall vpn | 0 <= vpn < VPN_LIMIT
      ensures Translate(w2, root, vpn) == LookUp(es + [e], vpn, Translate(w0, root, vpn))
    {
      EntryMapped(w1, w2, root, e, vpn);
      LookUpNext(es, e, vpn, Translate(w0, root, vpn));
    }
  }

  /** The tables below the root that mapping all the entries needs. */
  ghost function NeededBy(es: seq<VmEntry>): set<Key> {
    if es == [] then {} else NeededBy(es[..|es| - 1]) + Needed(es[|es| - 1].virt, es[|es| - 1].pages)
  }

  lemma {:induction false} NeededByGrows(es: seq<VmEntry>, i: nat)
    requires i <= |es|
    ensures NeededBy(es[..i]) <= NeededBy(es)
    decreases |es|
  {
    if i < |es| {
      NeededByGrows(es[..|es| - 1], i);
      assert es[..|es| - 1][..i] == es[..i];
    } else {
      assert es[..i] == es;
    }
  }

  /** Every entry passes the assertions made of it and can be read back. */
  ghost predicate AllMappable(es: seq<VmEntry>) {
    forall i | 0 <= i < |es| :: EntryAllowed(es[i]) && Mappable(es[i].phy, es[i].pages, es[i].flags)
  }

  lemma AllMappableNext(es: seq<VmEntry>, e: VmEntry)
    requires AllMappable(es) && EntryAllowed(e) && Mappable(e.phy, e.pages, e.flags)
    ensures AllMappable(es + [e])
  {
  }

  /** All entries can be mapped: each passes what is asked of it, and the pool has a page for every table that is
      missing for all of them together. */
  ghost predicate CanMap(es: seq<VmEntry>, tables: set<Key>, available: int) {
    AllMappable(es) && |NeededBy(es) - tables| <= available
  }

  /** With the entries before mapped, the pages do for the next one exactly when they did for all of them at the
      start. */
  lemma PagesDo(before: set<Key>, needed: set<Key>, tables: set<Key>, more: set<Key>, available: int, left: int)
    requires Took(before, needed, tables) && left + |tables| == available + |before|
    ensures |more - tables| <= left <==> |needed + more - before| <= available
  {
    var all := before + (needed + more);
    assert all == tables + (more - tables) && all == before + (needed + more - before);
  }

  /** One entry that cannot be mapped is enough. */
  lemma CannotMap(es: seq<VmEntry>, i: nat, tables: set<Key>, available: int)
    requires i <= |es| && !CanMap(es[..i], tables, available)
    ensures !CanMap(es, tables, available)
  {
    NeededByGrows(es, i);
    SubsetSize(NeededBy(es[..i]) - tables, NeededBy(es) - tables);
  }
}

/** Copying the pages of a map and giving them back, on memory and sets of pages. */
module VmPages {
  import opened Memory
  import opened PageBlocks
  import opened PagePool
  import opened TableTree
  import opened PagingSteps
  import opened VmEntries

  function Pages(e: VmEntry): Block { PhysBlock(e.phy, e.pages) }

  ghost predicate Placed(es: seq<VmEntry>) {
    forall i | 0 <= i < |es| :: WellPlaced(Pages(es[i])) && Pages(es[i]).base % PAGE_SIZE == 0
  }

  /** The pages of all entries. */
  ghost function PagesOf(es: seq<VmEntry>): set<int> {
    set i, p | 0 <= i < |es| && p in BlockPages(Pages(es[i])) :: p
  }

  predicate Separate(b: Block, c: Block) { End(b) <= c.base || End(c) <= b.base }

  /** No address belongs to two entries. */
  ghost predicate NoSharing(es: seq<VmEntry>) {
    forall i, j {:trigger Separate(Pages(es[i]), Pages(es[j]))} | 0 <= i < j < |es| ::
      Separate(Pages(es[i]), Pages(es[j]))
  }

  /** Aligned blocks that have no page in common are separate. */
  lemma PagesApart(b: Block, c: Block)
    requires b.length > 0 && c.length > 0 && b.base % PAGE_SIZE == 0 && c.base % PAGE_SIZE == 0
    requires BlockPages(b) !! BlockPages(c)
    ensures Separate(b, c)
  {
    assert b.base in BlockPages(b) && c.base in BlockPages(c);
  }

  /** memcpy of whole words. */
  function Copied(w: Mem, dst: int, src: int, n: nat): Mem {
    if n == 0 then w
    else
      var w' := Copied(w, dst, src, n - 1);
      w'[dst + 8 * (n - 1) := Ld(w', src + 8 * (n - 1))]
  }

  lemma {:induction false} CopiedAt(w: Mem, dst: int, src: int, n: nat, a: int)
    requires dst + 8 * n <= src || src + 8 * n <= dst
    ensures Ld(Copied(w, dst, src, n), a) ==
            if dst <= a < dst + 8 * n && (a - dst) % 8 == 0 then Ld(w, a - dst + src) else Ld(w, a)
  {
    if n > 0 {
      CopiedAt(w, dst, src, n - 1, a);
      CopiedAt(w, dst, src, n - 1, src + 8 * (n - 1));
    }
  }

  /** Entry `e` maps the same pages of the address space as `e0`, with the bytes `e0` had in `w0`. */
  ghost predicate CopyOf(w0: Mem, w: Mem, e0: VmEntry, e: VmEntry) {
    && e == e0.(phy := e.phy)
    && forall a | In(Pages(e), a) && (a - Pages(e).base) % 8 == 0 ::
         Ld(w, a) == Ld(w0, a - Pages(e).base + Pages(e0).base)
  }

  /** `w` and `w'` agree outside block `b`. */
  ghost predicate OnlyBlock(w: Mem, w': Mem, b: Block) {
    forall a | !In(b, a) :: Ld(w', a) == Ld(w, a)
  }

  const WORDS := 512

  lemma CopyMakesCopy(w: Mem, e0: VmEntry, e: VmEntry)
    requires e == e0.(phy := e.phy) && Separate(Pages(e), Pages(e0))
    ensures var w' := Copied(w, Pages(e).base, Pages(e0).base, e.pages * WORDS);
            CopyOf(w, w', e0, e) && OnlyBlock(w, w', Pages(e))
  {
    var w' := Copied(w, Pages(e).base, Pages(e0).base, e.pages * WORDS);
    forall a | !In(Pages(e), a) ensures Ld(w', a) == Ld(w, a) {
      CopiedAt(w, Pages(e).base, Pages(e0).base, e.pages * WORDS, a);
    }
    forall a | In(Pages(e), a) && (a - Pages(e).base) % 8 == 0
      ensures Ld(w', a) == Ld(w, a - Pages(e).base + Pages(e0).base)
    {
      CopiedAt(w, Pages(e).base, Pages(e0).base, e.pages * WORDS, a);
    }
  }

  /** Writing a block that holds no table keeps the tree and every translation. */
  lemma DataWriteKeepsTree(w: Mem, w': Mem, root: int, tab: map<Key, int>, b: Block)
    requires Tree(w, root, tab) && OnlyBlock(w, w', b) && b.base % PAGE_SIZE == 0
    requires forall k | k in tab :: !In(b, tab[k] + PHY_MAP_BASE)
    ensures Tree(w', root, tab)
    ensures forall vpn :: View(w', tab, vpn) == View(w, tab, vpn)
  {
    forall k, i | k in tab && 0 <= i < ENTRIES ensures Entry(w', tab[k], i) == Entry(w, tab[k], i) {
      TableOutside(b, tab[k], i);
    }
    forall k, i | k in tab && k.level > 1 && 0 <= i < ENTRIES ensures EntryOk(w', tab, k, i) {
      assert EntryOk(w, tab, k, i);
    }
  }

  lemma TableOutside(b: Block, table: int, i: int)
    requires b.base % PAGE_SIZE == 0 && table % PAGE_SIZE == 0 && 0 <= i < ENTRIES && !In(b, table + PHY_MAP_BASE)
    ensures !In(b, EntryAt(table, i))
  {
  }

  /** Pages that were free hold no table. */
  lemma CopiesAreData(bs: seq<Block>, tab: map<Key, int>, es: seq<VmEntry>)
    requires TablesHeld(bs, tab) && PagesOf(es) <= FreePages(bs)
    ensures PagesOf(es) !! TablePages(tab)
  {
  }

  /** Releasing pages that hold no table leaves every table out of the free list. */
  lemma ReleaseKeepsTables(bs: seq<Block>, cs: seq<Block>, b: Block, tab: map<Key, int>, data: set<int>)
    requires TablesHeld(bs, tab) && forall a :: Covers(cs, a) <==> Covers(bs, a) || In(b, a)
    requires BlockPages(b) <= data && data !! TablePages(tab) && forall k | k in tab :: tab[k] % PAGE_SIZE == 0
    ensures TablesHeld(cs, tab)
  {
  }

}

/** What vm_map_dup has done after its first `|news|` entries. */
module VmCopies {
  import opened Memory
  import opened PageBlocks
  import opened VmEntries
  import opened VmPages

  ghost predicate InEntries(es: seq<VmEntry>, a: int) {
    exists i :: 0 <= i < |es| && In(Pages(es[i]), a)
  }

  /** The first entries of `olds` are copied: `news` shares no address with itself or with `olds`, holds the same
      bytes, has taken its pages from `free0`, and no other page in use has changed. */
  ghost predicate CopiedSoFar(w0: Mem, free0: set<int>, olds: seq<VmEntry>, w: Mem, free: set<int>,
                              news: seq<VmEntry>) {
    && |news| <= |olds| && Placed(news) && NoSharing(news)
    && PagesOf(news) <= free0 && free == free0 - PagesOf(news)
    && (forall i | 0 <= i < |news| :: CopyOf(w0, w, olds[i], news[i]))
    && (forall a | !InEntries(news, a) :: Ld(w, a) == Ld(w0, a))
  }

  lemma PagesOfNext(es: seq<VmEntry>, e: VmEntry)
    ensures PagesOf(es + [e]) == PagesOf(es) + BlockPages(Pages(e))
  {
    var fs := es + [e];
    forall p ensures p in PagesOf(fs) <==> p in PagesOf(es) || p in BlockPages(Pages(e)) {
      if p in PagesOf(fs) {
        var i :| 0 <= i < |fs| && p in BlockPages(Pages(fs[i]));
        assert i < |es| ==> fs[i] == es[i];
      }
      if p in PagesOf(es) {
        var i :| 0 <= i < |es| && p in BlockPages(Pages(es[i]));
        assert fs[i] == es[i];
      }
      assert fs[|es|] == e;
    }
  }

  lemma EntryPages(es: seq<VmEntry>, i: nat)
    requires i < |es|
    ensures BlockPages(Pages(es[i])) <= PagesOf(es)
  {
  }

  lemma NoSharingNext(es: seq<VmEntry>, e: VmEntry)
    requires Placed(es) && NoSharing(es) && WellPlaced(Pages(e)) && Pages(e).base % PAGE_SIZE == 0
    requires BlockPages(Pages(e)) !! PagesOf(es)
    ensures Placed(es + [e]) && NoSharing(es + [e])
  {
    var fs := es + [e];
    forall i, j {:trigger Separate(Pages(fs[i]), Pages(fs[j]))} | 0 <= i < j < |fs|
      ensures Separate(Pages(fs[i]), Pages(fs[j]))
    {
      if j == |es| {
        EntryPages(es, i);
        PagesApart(Pages(es[i]), Pages(e));
      } else {
        assert Separate(Pages(es[i]), Pages(es[j]));
      }
    }
  }

  /** An aligned block none of whose pages belongs to the entries shares no address with them. */
  lemma OutsideEntries(es: seq<VmEntry>, b: Block, i: nat)
    requires Placed(es) && i < |es| && b.length > 0 && b.base % PAGE_SIZE == 0 && BlockPages(b) !! PagesOf(es)
    ensures Separate(Pages(es[i]), b)
  {
    EntryPages(es, i);
    PagesApart(Pages(es[i]), b);
  }

  lemma FirstEntry(es: seq<VmEntry>)
    requires Placed(es) && NoSharing(es) && es != []
    ensures PagesOf(es) == BlockPages(Pages(es[0])) + PagesOf(es[1..])
    ensures BlockPages(Pages(es[0])) !! PagesOf(es[1..])
    ensures Placed(es[1..]) && NoSharing(es[1..])
  {
    var t := es[1..];
    forall p ensures p in PagesOf(es) <==> p in BlockPages(Pages(es[0])) || p in PagesOf(t) {
      if p in PagesOf(es) {
        var i :| 0 <= i < |es| && p in BlockPages(Pages(es[i]));
        assert i > 0 ==> es[i] == t[i - 1];
      }
      if p in PagesOf(t) {
        var i :| 0 <= i < |t| && p in BlockPages(Pages(t[i]));
        assert t[i] == es[i + 1];
      }
    }
    forall p | p in PagesOf(t) ensures p !in BlockPages(Pages(es[0])) {
      var i :| 0 <= i < |t| && p in BlockPages(Pages(t[i]));
      assert Separate(Pages(es[0]), Pages(es[i + 1]));
    }
    forall i, j {:trigger Separate(Pages(t[i]), Pages(t[j]))} | 0 <= i < j < |t|
      ensures Separate(Pages(t[i]), Pages(t[j]))
    {
      assert Separate(Pages(es[i + 1]), Pages(es[j + 1]));
    }
  }

  /** One more entry is copied into pages that were free. */
  lemma CopyNext(w0: Mem, free0: set<int>, olds: seq<VmEntry>, w: Mem, free: set<int>, news: seq<VmEntry>,
                 w': Mem, free': set<int>, e: VmEntry)
    requires CopiedSoFar(w0, free0, olds, w, free, news) && |news| < |olds|
    requires WellPlaced(Pages(e)) && Pages(e).base % PAGE_SIZE == 0
    requires WellPlaced(Pages(olds[|news|])) && Pages(olds[|news|]).base % PAGE_SIZE == 0
    requires BlockPages(Pages(olds[|news|])) !! free0
    requires BlockPages(Pages(e)) <= free && free' == free - BlockPages(Pages(e))
    requires CopyOf(w, w', olds[|news|], e) && OnlyBlock(w, w', Pages(e))
    ensures CopiedSoFar(w0, free0, olds, w', free', news + [e])
  {
    var fs := news + [e];
    PagesOfNext(news, e);
    NoSharingNext(news, e);
    forall i | 0 <= i < |fs| ensures CopyOf(w0, w', olds[i], fs[i]) {
      if i < |news| {
        OutsideEntries(news, Pages(e), i);
        assert CopyOf(w0, w, olds[i], news[i]);
      } else {
        SourceUntouched(w0, free0, olds, w, free, news);
      }
    }
    forall a | !InEntries(fs, a) ensures Ld(w', a) == Ld(w0, a) {
      assert fs[|news|] == e;
      assert !InEntries(news, a) by { InMoreEntries(news, e, a); }
    }
  }

  lemma InMoreEntries(es: seq<VmEntry>, e: VmEntry, a: int)
    ensures InEntries(es, a) ==> InEntries(es + [e], a)
  {
    if InEntries(es, a) {
      var i :| 0 <= i < |es| && In(Pages(es[i]), a);
      assert (es + [e])[i] == es[i];
    }
  }

  /** The pages of the next original entry still hold what they held at the start. */
  lemma SourceUntouched(w0: Mem, free0: set<int>, olds: seq<VmEntry>, w: Mem, free: set<int>, news: seq<VmEntry>)
    requires CopiedSoFar(w0, free0, olds, w, free, news) && |news| < |olds|
    requires WellPlaced(Pages(olds[|news|])) && Pages(olds[|news|]).base % PAGE_SIZE == 0
    requires BlockPages(Pages(olds[|news|])) !! free0
    ensures forall a | In(Pages(olds[|news|]), a) :: Ld(w, a) == Ld(w0, a)
  {
    var b := Pages(olds[|news|]);
    forall a | In(b, a) ensures !InEntries(news, a) {
      if InEntries(news, a) {
        var i :| 0 <= i < |news| && In(Pages(news[i]), a);
        OutsideEntries(news, b, i);
        assert false;
      }
    }
  }
}

/** Process memory maps of mm/vm_map.c: mapping them, copying them with their pages, and giving the pages back. */
module VmMaps {
  import opened Memory
  import opened NodeLists
  import opened Options
  import opened PageBlocks
  import opened PagePool
  import opened TableTree
  import opened PagingSteps
  import opened Ranges
  import opened Paging
  import opened VmEntries
  import opened VmPages
  import opened VmCopies

  /** From `w0` and `tab0` on, exactly the entries `es` have been mapped. */
  ghost predicate MappedThrough(w0: Mem, tab0: map<Key, int>, available0: int, w: Mem, tab: map<Key, int>,
                                available: int, root: int, es: seq<VmEntry>)
  {
    && AllMappable(es) && MapsLike(w0, w, root, es)
    && Took(tab0.Keys, NeededBy(es), tab.Keys) && available + |tab| == available0 + |tab0|
  }

  /** Where vm_map_do_mapping stands with the entries `es`: all of them mapped, or the last one not to be mapped. Only
      table pages were written. */
  ghost predicate Reached(w0: Mem, tab0: map<Key, int>, available0: int, w: Mem, tab: map<Key, int>, available: int,
                          root: int, es: seq<VmEntry>, done: bool)
  {
    && Extends(tab0, tab) && OnlyTables(w0, w, tab)
    && (if done then MappedThrough(w0, tab0, available0, w, tab, available, root, es)
        else !AllMappable(es) || |NeededBy(es) - tab0.Keys| > available0)
  }

  lemma TakeMore(es: seq<VmEntry>, i: nat)
    requires i < |es|
    ensures es[..i + 1] == es[..i] + [es[i]]
  {
  }

  lemma LastOf(es: seq<VmEntry>, e: VmEntry)
    ensures (es + [e])[|es|] == e && (es + [e])[..|es|] == es
  {
  }

  /** One entry further: it was mapped, or could not be for itself, or for want of pages. */
  lemma ReachedNext(w0: Mem, tab0: map<Key, int>, available0: int, w1: Mem, tab1: map<Key, int>, available1: int,
                    w2: Mem, tab2: map<Key, int>, available2: int, root: int, es: seq<VmEntry>, e: VmEntry, done: bool)
    requires Reached(w0, tab0, available0, w1, tab1, available1, root, es, true)
    requires Extends(tab1, tab2) && OnlyTables(w1, w2, tab2)
    requires done == (EntryAllowed(e) && Mappable(e.phy, e.pages, e.flags)
                      && |Needed(e.virt, e.pages) - tab1.Keys| <= available1)
    requires done ==> && Took(tab1.Keys, Needed(e.virt, e.pages), tab2.Keys)
                      && available2 + |tab2| == available1 + |tab1|
                      && MapsRange(w1, w2, root, e.virt, e.phy, e.pages, e.flags)
    ensures Reached(w0, tab0, available0, w2, tab2, available2, root, es + [e], done)
  {
    LastOf(es, e);
    GrewTwiceOutside(w0, w1, tab1, w2, tab2);
    PagesDo(tab0.Keys, NeededBy(es), tab1.Keys, Needed(e.virt, e.pages), available0, available1);
    if done {
      AllMappableNext(es, e);
      MapsLikeNext(w0, w1, w2, root, es, e);
    }
  }

  /** The outcome is the one decided beforehand. */
  lemma ReachedAll(w0: Mem, tab0: map<Key, int>, available0: int, w: Mem, tab: map<Key, int>, available: int,
                   root: int, es: seq<VmEntry>, i: nat, done: bool)
    requires i <= |es| && Reached(w0, tab0, available0, w, tab, available, root, es[..i], done)
    requires available >= 0 && (done ==> i == |es|)
    ensures done <==> CanMap(es, tab0.Keys, available0)
    ensures done ==> MapsLike(w0, w, root, es)
  {
    if done {
      assert es[..i] == es;
      KeysTaken(tab0, tab, NeededBy(es));
    } else {
      CannotMap(es, i, tab0.Keys, available0);
    }
  }

  class VmMap {
    const list: NodeList<VmEntry>
    const space: AddressSpace

    /** vm_map_init; `head` is the address of the list head. */
    constructor (space: AddressSpace, head: int)
      ensures list.Valid() && list.items == [] && this.space == space && fresh(list) && fresh(list.ram)
    {
      this.space := space;
      list := new NodeList(head);
    }

    /** vm_map_add: from now on the new entry decides for every page it covers, and for no other. */
    method Add(e: VmEntry)
      requires list.Valid()
      modifies list, list.ram
      ensures list.Valid() && list.items == old(list.items) + [e]
      ensures forall vpn, was :: LookUp(list.items, vpn, was) ==
                if CoversPage(e, vpn) then Some(Mapping(e.phy + 0x1000 * Offset(e, vpn), e.flags))
                else LookUp(old(list.items), vpn, was)
    {
      list.AddLast(e);
    }

    /** How far the mapping of the entries `es` has come since `w0`. */
    ghost predicate Mapped(w0: Mem, tab0: map<Key, int>, available0: int, es: seq<VmEntry>, done: bool)
      reads space, space.pool
    {
      Reached(w0, tab0, available0, space.w, space.tab, space.pool.available, space.root, es, done)
    }

    /** One round of vm_map_do_mapping. */
    method MapEntry(e: VmEntry, ghost w0: Mem, ghost tab0: map<Key, int>, ghost available0: int, ghost es: seq<VmEntry>)
      returns (r: Outcome)
      requires space.Valid() && e.virt < TWO64 && e.phy < TWO64 && Mapped(w0, tab0, available0, es, true)
      modifies space`w, space`tab, space.pool
      ensures space.Valid() && space.DataPages() == old(space.DataPages())
      ensures Mapped(w0, tab0, available0, es + [e], r.Done?)
    {
      r := Halted;
      if EntryAllowed(e) {
        r := space.ModifyChunkMapping(e.virt, e.phy, e.pages, e.flags);
      }
      ReachedNext(w0, tab0, available0, old(space.w), old(space.tab), old(space.pool.available),
                  space.w, space.tab, space.pool.available, space.root, es, e, r.Done?);
    }

    /** The loop of vm_map_do_mapping. */
    method MapEntries() returns (r: Outcome, ghost i: nat)
      requires list.Valid() && space.Valid() && forall e | e in list.items :: e.virt < TWO64 && e.phy < TWO64
      requires Mapped(space.w, space.tab, space.pool.available, [], true)
      modifies space`w, space`tab, space.pool
      ensures space.Valid() && space.DataPages() == old(space.DataPages())
      ensures i <= |list.items| && (r.Done? ==> i == |list.items|)
      ensures Mapped(old(space.w), old(space.tab), old(space.pool.available), list.items[..i], r.Done?)
    {
      var it := list.First();
      r, i := Done, 0;
      while it != list.head && r.Done?
        invariant list.Stands(it, i) && space.Valid() && space.DataPages() == old(space.DataPages())
        invariant Mapped(old(space.w), old(space.tab), old(space.pool.available), list.items[..i], r.Done?)
        decreases |list.items| - i
      {
        TakeMore(list.items, i);
        r := MapEntry(list.content[it], old(space.w), old(space.tab), old(space.pool.available), list.items[..i]);
        it := list.After(it, i);
        i := i + 1;
      }
    }

    /** vm_map_do_mapping comes to its end exactly when every entry passes what is asked of it and the pool has a page
        for every missing table; then every page translates as the map says. */
    method DoMapping() returns (r: Outcome)
      requires list.Valid() && space.Valid() && forall e | e in list.items :: e.virt < TWO64 && e.phy < TWO64
      modifies space`w, space`tab, space.pool
      ensures space.Valid() && space.DataPages() == old(space.DataPages())
      ensures Extends(old(space.tab), space.tab) && OnlyTables(old(space.w), space.w, space.tab)
      ensures r.Done? <==> CanMap(list.items, old(space.tab.Keys), old(space.pool.available))
      ensures r.Done? ==> MapsLike(old(space.w), space.w, space.root, list.items)
      ensures r.Done? ==> GrantsLike(old(space.w), space.w, space.root, list.items)
    {
      ghost var i;
      r, i := MapEntries();
      SumNotNegative(space.pool.blocks);
      ReachedAll(old(space.w), old(space.tab), old(space.pool.available), space.w, space.tab, space.pool.available,
                 space.root, list.items, i, r.Done?);
      if r.Done? {
        MapsIsGranted(old(space.w), space.w, space.root, space.tab, list.items);
      }
    }

    /** memcpy of `count` words between two places of the direct map. */
    method CopyWords(dst: int, src: int, count: nat)
      modifies space`w
      ensures space.w == Copied(old(space.w), dst, src, count)
    {
      var i := 0;
      while i < count
        invariant 0 <= i <= count
        invariant space.w == Copied(old(space.w), dst, src, i)
      {
        space.w := space.w[dst + 8 * i := Ld(space.w, src + 8 * i)];
        i := i + 1;
      }
    }

    /** vm_map_entry_dup: the same entry over newly allocated pages that hold the same bytes. */
    method EntryDup(e0: VmEntry) returns (ok: bool, e: VmEntry)
      requires space.Valid() && WellPlaced(Pages(e0)) && Pages(e0).base % PAGE_SIZE == 0
      requires BlockPages(Pages(e0)) <= space.pool.Handed()
      modifies space`w, space.pool
      ensures space.Valid()
      ensures forall vpn :: View(space.w, space.tab, vpn) == old(View(space.w, space.tab, vpn))
      ensures ok <==> exists a :: FreeRun(old(space.pool.blocks), a, e0.pages)
      ensures ok ==> && WellPlaced(Pages(e)) && Pages(e).base % PAGE_SIZE == 0
                     && BlockPages(Pages(e)) <= FreePages(old(space.pool.blocks))
                     && FreePages(space.pool.blocks) == FreePages(old(space.pool.blocks)) - BlockPages(Pages(e))
                     && CopyOf(old(space.w), space.w, e0, e) && OnlyBlock(old(space.w), space.w, Pages(e))
      ensures !ok ==> FreePages(space.pool.blocks) == FreePages(old(space.pool.blocks)) && space.w == old(space.w)
    {
      var addr := space.pool.PageAlloc(e0.pages);
      e := e0;
      if addr == INVALID_ADDR {
        // convert_phy_to_virt asserts on the invalid address.
        return false, e;
      }
      ok := true;
      e := e0.(phy := addr);
      TakesPages(old(space.pool.blocks), space.pool.blocks, addr, e0.pages);
      PagesApart(Pages(e), Pages(e0));
      FillCopy(e0, e);
    }

    /** The memcpy of vm_map_entry_dup, into pages that hold no table. */
    method FillCopy(e0: VmEntry, e: VmEntry)
      requires space.Valid() && e == e0.(phy := e.phy) && Separate(Pages(e), Pages(e0))
      requires WellPlaced(Pages(e)) && WellPlaced(Pages(e0)) && Pages(e).base % PAGE_SIZE == 0
      requires forall k | k in space.tab :: !In(Pages(e), space.tab[k] + PHY_MAP_BASE)
      modifies space`w
      ensures space.Valid() && CopyOf(old(space.w), space.w, e0, e) && OnlyBlock(old(space.w), space.w, Pages(e))
      ensures forall vpn :: View(space.w, space.tab, vpn) == old(View(space.w, space.tab, vpn))
    {
      CopyMakesCopy(space.w, e0, e);
      CopyWords(PhyToVirt(e.phy), PhyToVirt(e0.phy), e0.pages * WORDS);
      DataWriteKeepsTree(old(space.w), space.w, space.root, space.tab, Pages(e));
    }

    /** vm_map_dup: this map, newly made, becomes a copy of `from` over pages of its own. Where the pages run out, it
        is a copy of the first entries. */
    method Dup(from: VmMap) returns (ok: bool)
      requires list != from.list && list.ram != from.list.ram && from.space == space
      requires list.Valid() && list.items == [] && from.list.Valid() && space.Valid() && Placed(from.list.items)
      requires PagesOf(from.list.items) <= space.pool.Handed()
      modifies list, list.ram, space`w, space.pool
      ensures list.Valid() && space.Valid() && (ok <==> |list.items| == |from.list.items|)
      ensures forall vpn :: View(space.w, space.tab, vpn) == old(View(space.w, space.tab, vpn))
      ensures CopiedSoFar(old(space.w), FreePages(old(space.pool.blocks)), from.list.items,
                          space.w, FreePages(space.pool.blocks), list.items)
      ensures space.DataPages() == old(space.DataPages()) + PagesOf(list.items)
    {
      ok := true;
      var it := from.list.First();
      ghost var i, olds := 0, from.list.items;
      while it != from.list.head && ok
        invariant from.list.Stands(it, i) && list.Valid() && space.Valid() && |list.items| == i
        invariant !ok ==> i < |olds|
        invariant forall vpn :: View(space.w, space.tab, vpn) == old(View(space.w, space.tab, vpn))
        invariant CopiedSoFar(old(space.w), FreePages(old(space.pool.blocks)), olds,
                              space.w, FreePages(space.pool.blocks), list.items)
        decreases |olds| - i, ok
      {
        EntryPages(olds, i);
        ghost var w1, free1 := space.w, FreePages(space.pool.blocks);
        var e;
        ok, e := EntryDup(from.list.content[it]);
        if ok {
          CopyNext(old(space.w), FreePages(old(space.pool.blocks)), olds, w1, free1, list.items,
                   space.w, FreePages(space.pool.blocks), e);
          Add(e);
          it := from.list.After(it, i);
          i := i + 1;
        }
      }
      CopiesAreData(old(space.pool.blocks), space.tab, list.items);
    }

    /** page_free of the pages of one entry. */
    method FreeEntry(e: VmEntry)
      requires space.Valid() && WellPlaced(Pages(e)) && Pages(e).base % PAGE_SIZE == 0
      requires BlockPages(Pages(e)) <= space.DataPages()
      modifies space.pool
      ensures space.Valid() && space.DataPages() == old(space.DataPages()) - BlockPages(Pages(e))
      ensures FreePages(space.pool.blocks) == FreePages(old(space.pool.blocks)) + BlockPages(Pages(e))
    {
      space.pool.PageFree(e.phy, e.pages);
      ReleasePages(old(space.pool.blocks), space.pool.blocks, Pages(e));
      ReleaseKeepsTables(old(space.pool.blocks), space.pool.blocks, Pages(e), space.tab, old(space.DataPages()));
    }

    /** vm_map_clear: every page of the map goes back to the pool. */
    method Clear()
      requires list.Valid() && space.Valid()
      requires Placed(list.items) && NoSharing(list.items) && PagesOf(list.items) <= space.DataPages()
      modifies list, list.ram, space.pool
      ensures list.Valid() && space.Valid() && list.items == []
      ensures FreePages(space.pool.blocks) == FreePages(old(space.pool.blocks)) + PagesOf(old(list.items))
      ensures space.DataPages() == old(space.DataPages()) - PagesOf(old(list.items))
    {
      var empty := list.IsEmpty();
      while !empty
        invariant list.Valid() && space.Valid() && (empty <==> list.items == [])
        invariant Placed(list.items) && NoSharing(list.items) && PagesOf(list.items) <= space.DataPages()
        invariant FreePages(space.pool.blocks) + PagesOf(list.items) ==
                  FreePages(old(space.pool.blocks)) + PagesOf(old(list.items))
        invariant space.DataPages() - PagesOf(list.items) == old(space.DataPages()) - PagesOf(old(list.items))
        decreases |list.items|
      {
        FirstEntry(list.items);
        var it := list.First();
        FreeEntry(list.content[it]);
        ghost var items := list.items;
        var gone := list.RemoveFirst();
        assert list.items == items[1..];
        empty := list.IsEmpty();
      }
    }

    /** A copy that is cleared again leaves the pool with exactly the free pages it had. */
    method DupThenClear(from: VmMap) returns (ok: bool)
      requires list != from.list && list.ram != from.list.ram && from.space == space
      requires list.Valid() && list.items == [] && from.list.Valid() && space.Valid() && Placed(from.list.items)
      requires PagesOf(from.list.items) <= space.pool.Handed()
      modifies list, list.ram, space`w, space.pool
      ensures space.Valid() && FreePages(space.pool.blocks) == FreePages(old(space.pool.blocks))
      ensures space.DataPages() == old(space.DataPages())
    {
      ok := Dup(from);
      Clear();
    }
  }
}
