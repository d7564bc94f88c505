/** arch/x86/init/init_mm_map.c: the page tables the kernel starts with, in pages taken one after the other.

    Physical memory is seen at its place in the direct map, as in module TableTree, though paging is not on yet. */
module BootMap {
  import opened Memory
  import opened Entries
  import opened Options
  import opened PageBlocks
  import opened TableTree
  import opened PagingSteps
  import opened Ranges

  const EMPTY_ROOT_FLAG := 0x18   // PAGING_MASK_PWT | PAGING_MASK_PCD

  /** Tables lie in the `n` pages from `base` on, each in one of its own. */
  ghost predicate InRun(tab: map<Key, int>, base: int, n: nat) {
    |tab| == n && forall k | k in tab :: base <= tab[k] < base + 0x1000 * n
  }

  class BootSpace {
    var w: Mem
    const pageTableBase: int
    var pageTableSize: nat
    ghost var tab: map<Key, int>

    ghost predicate Valid()
      reads this
    {
      && Tree(w, pageTableBase, tab) && FitsAddr(pageTableBase)
      && pageTableSize == 0x1000 * |tab| && InRun(tab, pageTableBase, |tab|)
    }

    /** The tables there are and those of `keys` all fit below the end of physical addresses. */
    ghost predicate Room(keys: set<Key>)
      reads this
    {
      pageTableBase + 0x1000 * |tab.Keys + keys| <= ADDR_LIMIT
    }

    /** The start of init_mm_map: the root table is the first page. */
    constructor (w: Mem, base: int)
      requires FitsTable(base)
      ensures Valid() && pageTableBase == base && tab == map[ROOT_KEY := base]
      ensures forall vpn | 0 <= vpn < VPN_LIMIT :: Translate(this.w, base, vpn) == None
    {
      pageTableBase, pageTableSize := base, 0x1000;
      this.w := Filled(w, base, ENTRIES, EMPTY_ROOT_FLAG);
      tab := map[ROOT_KEY := base];
      EmptyRoot(w, base);
    }

    /** __continous_alloc: a page that holds no table, right behind the last one, so that the run has no gap whichever
        table it is for. */
    method ContinousAlloc(ghost slot: Key) returns (addr: int)
      requires Valid() && slot !in tab && Room({slot})
      modifies this`pageTableSize
      ensures pageTableSize == 0x1000 * |tab[slot := addr]|
      ensures InRun(tab[slot := addr], pageTableBase, |tab[slot := addr]|)
      ensures FitsTable(addr) && addr !in tab.Values
    {
      NextPage(tab, pageTableBase, slot, pageTableBase + pageTableSize);
      pageTableSize := pageTableSize + 0x1000;
      addr := pageTableBase + pageTableSize - 0x1000;
    }

    /** One level of __do_mapping: follow entry `i` of `table`, or give it the next page of the run as an empty
        table. */
    method NextTable(table: int, i: int, ghost k: Key) returns (next: int)
      requires Valid() && Room({Slot(k, i)}) && k in tab && tab[k] == table && k.level > 1 && 0 <= i < ENTRIES
      modifies this`w, this`tab, this`pageTableSize
      ensures Valid() && Grew(old(w), old(tab), w, tab)
      ensures tab.Keys == old(tab.Keys) + {Slot(k, i)} && tab[Slot(k, i)] == next
      ensures pageTableSize <= old(pageTableSize) + 0x1000
    {
      var entry := Entry(w, table, i);
      assert EntryOk(w, tab, k, i);
      if Present(entry) {
        assert tab.Keys == old(tab.Keys) + {Slot(k, i)};
        return PhyAddr(entry);
      }
      next := AddTable(table, i, k);
    }

    method AddTable(table: int, i: int, ghost k: Key) returns (next: int)
      requires Valid() && Room({Slot(k, i)}) && k in tab && tab[k] == table
      requires k.level > 1 && 0 <= i < ENTRIES && Slot(k, i) !in tab
      modifies this`w, this`tab, this`pageTableSize
      ensures Valid() && Grew(old(w), old(tab), w, tab)
      ensures tab.Keys == old(tab.Keys) + {Slot(k, i)} && tab[Slot(k, i)] == next
      ensures pageTableSize == old(pageTableSize) + 0x1000
    {
      next := ContinousAlloc(Slot(k, i));
      InitTable(next, DEFAULT_EMPTY_FLAG);
      w := w[EntryAt(table, i) := MkEntry(next, DEFAULT_PT_FLAG)];
      OneMoreTable(old(w), pageTableBase, tab, k, i, next);
      tab := tab[Slot(k, i) := next];
    }

    /** __init_table */
    method InitTable(table: int, value: int)
      modifies this`w
      ensures w == Filled(old(w), table, ENTRIES, value)
    {
      for i := 0 to ENTRIES
        invariant w == Filled(old(w), table, i, value)
      {
        w := w[EntryAt(table, i) := value];
      }
    }

    /** __do_mapping */
    method DoMapping(va: int, pa: nat, flag: nat)
      requires Valid() && Room(NeededFor(Vpn(va))) && va >= 0
      modifies this`w, this`tab, this`pageTableSize
      ensures Valid() && Wrote(old(w), old(tab), w, tab, Vpn(va), MkEntry(pa, flag))
      ensures tab.Keys == old(tab.Keys) + NeededFor(Vpn(va)) && pageTableSize <= old(pageTableSize) + 0x3000
    {
      var table := FindLeafTable(va);
      ShiftedIndex(va);
      WriteLeaf(old(w), old(tab), w, pageTableBase, tab, Vpn(va), MkEntry(pa, flag));
      w := w[EntryAt(table, va / 0x1000 % ENTRIES) := MkEntry(pa, flag)];
    }

    /** The walk of __do_mapping down to the lowest table. */
    method FindLeafTable(va: int) returns (table: int)
      requires Valid() && Room(NeededFor(Vpn(va))) && va >= 0
      modifies this`w, this`tab, this`pageTableSize
      ensures Valid() && Grew(old(w), old(tab), w, tab) && pageTableSize <= old(pageTableSize) + 0x3000
      ensures tab.Keys == old(tab.Keys) + NeededFor(Vpn(va)) && tab[KeyOf(1, Vpn(va))] == table
    {
      ghost var vpn := Vpn(va);
      ShiftedIndex(va);
      StepDown(4, vpn);
      StepDown(3, vpn);
      StepDown(2, vpn);
      ghost var needed := NeededFor(vpn);
      StillRoom(tab.Keys, {}, tab.Keys, {KeyOf(3, vpn)}, needed);
      table := NextTable(pageTableBase, va / 0x80_0000_0000 % ENTRIES, KeyOf(4, vpn));
      ghost var w1, tab1 := w, tab;
      StillRoom(old(tab.Keys), {KeyOf(3, vpn)}, tab.Keys, {KeyOf(2, vpn)}, needed);
      table := NextTable(table, va / 0x4000_0000 % ENTRIES, KeyOf(3, vpn));
      GrewTwice(old(w), old(tab), w1, tab1, w, tab);
      ghost var w2, tab2 := w, tab;
      StillRoom(old(tab.Keys), {KeyOf(3, vpn), KeyOf(2, vpn)}, tab.Keys, {KeyOf(1, vpn)}, needed);
      table := NextTable(table, va / 0x20_0000 % ENTRIES, KeyOf(2, vpn));
      GrewTwice(old(w), old(tab), w2, tab2, w, tab);
      KeysOfThree(old(tab.Keys), tab1.Keys, tab2.Keys, vpn);
    }

    /** One round of the loop of __map_by_pages. */
    method MapNext(virt: int, phy: nat, flag: nat, ghost w0: Mem, ghost tab0: map<Key, int>, ghost v: int, ghost p: int,
                   ghost i: nat)
      requires Valid() && Room(NeededFor(PageAt(v, i))) && virt >= 0 && Vpn(virt) == PageAt(v, i) && phy == PhysAt(p, i)
      requires MappedTo(w0, tab0, w, tab, v, p, i, flag)
      modifies this`w, this`tab, this`pageTableSize
      ensures Valid() && MappedTo(w0, tab0, w, tab, v, p, i + 1, flag) && pageTableSize <= old(pageTableSize) + 0x3000
    {
      DoMapping(virt, phy, flag);
      OneMorePage(w0, tab0, old(w), old(tab), w, tab, v, p, i, flag);
    }

    /** __map_by_pages: the table pages grow by one for each table the range needs and did not have. */
    method MapByPages(v: int, p: int, n: nat, flag: nat)
      requires Valid() && Room(Needed(v, n)) && 0 <= v < TWO64 && 0 <= p < TWO64
      modifies this`w, this`tab, this`pageTableSize
      ensures Valid() && MappedTo(old(w), old(tab), w, tab, v, p, n, flag)
      ensures pageTableSize == old(pageTableSize) + 0x1000 * |Needed(v, n) - old(tab.Keys)|
      ensures Mappable(p, n, flag) ==> GrantsRange(old(w), w, pageTableBase, v, p, n, flag)
    {
      var virt, phy := v, p;
      var i := 0;
      FirstStep(v);
      FirstStep(p);
      while i < n
        invariant 0 <= i <= n && Valid() && virt == VirtAt(v, i) && phy == PhysAt(p, i)
        invariant MappedTo(old(w), old(tab), w, tab, v, p, i, flag)
      {
        NeededGrows(v, i, n);
        StillRoom(old(tab.Keys), Needed(v, i), tab.Keys, NeededFor(PageAt(v, i)), Needed(v, n));
        MapNext(virt, phy, flag, old(w), old(tab), v, p, i);
        NextStep(v, i);
        NextStep(p, i);
        virt, phy, i := Advance(virt), Advance(phy), i + 1;
      }
      KeysTaken(old(tab), tab, Needed(v, n));
      if Mappable(p, n, flag) {
        RangeGranted(old(w), old(tab), w, pageTableBase, tab, v, p, n, flag);
      }
    }
  }

  /** The first `i` pages of the range are mapped, and the tables for them were added. */
  ghost predicate MappedTo(w0: Mem, tab0: map<Key, int>, w: Mem, tab: map<Key, int>, v: int, p: int, i: nat,
                           flag: nat) {
    WroteRange(w0, tab0, w, tab, v, p, i, flag) && Took(tab0.Keys, Needed(v, i), tab.Keys)
  }

  /** Tables made on the way take no room from those still needed. */
  lemma StillRoom(before: set<Key>, made: set<Key>, now: set<Key>, next: set<Key>, needed: set<Key>)
    requires Took(before, made, now) && made <= needed && next <= needed
    ensures |now + next| <= |before + needed|
  {
    SubsetSize(now + next, before + needed);
  }

  lemma EmptyRoot(w: Mem, base: int)
    requires FitsTable(base)
    ensures Tree(Filled(w, base, ENTRIES, EMPTY_ROOT_FLAG), base, map[ROOT_KEY := base])
    ensures forall vpn | 0 <= vpn < VPN_LIMIT ::
              Translate(Filled(w, base, ENTRIES, EMPTY_ROOT_FLAG), base, vpn) == None
  {
    var n, tab := Filled(w, base, ENTRIES, EMPTY_ROOT_FLAG), map[ROOT_KEY := base];
    PresenceIsLowBit(EMPTY_ROOT_FLAG);
    forall i | 0 <= i < ENTRIES ensures Entry(n, base, i) == EMPTY_ROOT_FLAG {
      FilledAt(w, base, ENTRIES, EMPTY_ROOT_FLAG, EntryAt(base, i));
    }
    assert EntryOk(n, tab, ROOT_KEY, 0);
  }

  lemma OneMoreInRun(tab: map<Key, int>, base: int, n: nat, slot: Key)
    requires InRun(tab, base, n) && slot !in tab
    ensures InRun(tab[slot := base + 0x1000 * n], base, n + 1) && base + 0x1000 * n !in tab.Values
  {
  }

  lemma NextPage(tab: map<Key, int>, base: int, slot: Key, addr: int)
    requires InRun(tab, base, |tab|) && slot !in tab && FitsTable(base) && addr == base + 0x1000 * |tab|
    requires base + 0x1000 * |tab.Keys + {slot}| <= ADDR_LIMIT
    ensures |tab[slot := addr]| == |tab| + 1 && InRun(tab[slot := addr], base, |tab| + 1)
    ensures FitsTable(addr) && addr !in tab.Values
  {
    OneMoreInRun(tab, base, |tab|, slot);
    MapGrows(tab, slot, addr);
    assert |tab.Keys + {slot}| == |tab| + 1;
  }

  // ----- How many tables a range needs -----

  /** The tables of one level for prefixes from `lo` to `hi`. */
  ghost function LevelKeys(level: int, lo: int, hi: int): set<Key>
    decreases hi - lo
  {
    if hi < lo then {} else LevelKeys(level, lo, hi - 1) + {Key(level, hi)}
  }

  lemma {:induction false} LevelKeysAre(level: int, lo: int, hi: int, k: Key)
    requires lo <= hi + 1
    ensures k in LevelKeys(level, lo, hi) <==> k.level == level && lo <= k.prefix <= hi
    decreases hi - lo
  {
    if lo <= hi {
      LevelKeysAre(level, lo, hi - 1, k);
    }
  }

  lemma {:induction false} LevelKeysSize(level: int, lo: int, hi: int)
    requires lo <= hi + 1
    ensures |LevelKeys(level, lo, hi)| == hi - lo + 1
    decreases hi - lo
  {
    if lo <= hi {
      LevelKeysSize(level, lo, hi - 1);
      LevelKeysAre(level, lo, hi - 1, Key(level, hi));
    }
  }

  /** Tables of one level between two pages. */
  ghost function Between(level: int, first: int, last: int): set<Key> {
    LevelKeys(level, first / Span(level + 1), last / Span(level + 1))
  }

  lemma {:induction false} PrefixGrows(level: int, first: int, last: int)
    requires 1 <= level <= 3 && 0 <= first <= last
    ensures first / Span(level + 1) <= last / Span(level + 1)
    decreases last - first
  {
  }

  lemma OnePage(level: int, page: int)
    ensures Between(level, page, page) == {KeyOf(level, page)}
  {
    var x := page / Span(level + 1);
    assert LevelKeys(level, x, x - 1) == {};
  }

  ghost function AllBetween(first: int, last: int): set<Key> {
    Between(3, first, last) + Between(2, first, last) + Between(1, first, last)
  }

  lemma AllBetweenGrows(first: int, last: int, next: int)
    requires 0 <= first <= last && next == last + 1
    ensures AllBetween(first, next) == AllBetween(first, last) + NeededFor(next)
  {
  }

  /** The tables for the pages from `first` to `last`, page by page. */
  ghost function ForPages(first: int, last: int): set<Key>
    decreases last - first
  {
    if last < first then {} else ForPages(first, last - 1) + NeededFor(last)
  }

  lemma {:induction false} NeededForPages(v: int, n: nat, first: int, last: int)
    requires 0 <= v && first == Vpn(v) && last == first + n - 1 < VPN_LIMIT
    ensures Needed(v, n) == ForPages(first, last)
  {
    if n > 0 {
      NeededForPages(v, n - 1, first, last - 1);
      PageIs(v, n - 1);
    }
  }

  lemma {:induction false} ForPagesBetween(first: int, last: int)
    requires 0 <= first <= last
    ensures ForPages(first, last) == AllBetween(first, last)
    decreases last - first
  {
    if first == last {
      FirstPage(first);
      assert ForPages(first, first - 1) == {};
    } else {
      ForPagesBetween(first, last - 1);
      AllBetweenGrows(first, last - 1, last);
    }
  }

  /** A range of `n` pages that does not wrap needs the tables of three levels between its first and its last page. */
  lemma NeededIsBetween(v: int, n: nat, first: int, last: int)
    requires 0 <= v && n > 0 && first == Vpn(v) && last == first + n - 1 < VPN_LIMIT
    ensures Needed(v, n) == AllBetween(first, last)
  {
    NeededForPages(v, n, first, last);
    ForPagesBetween(first, last);
  }

  lemma FirstPage(page: int)
    ensures AllBetween(page, page) == NeededFor(page)
  {
    OnePage(3, page);
    OnePage(2, page);
    OnePage(1, page);
  }

  lemma PageIs(v: int, i: nat)
    requires 0 <= v && Vpn(v) + i < VPN_LIMIT
    ensures PageAt(v, i) == Vpn(v) + i
  {
    PageNumber(v, i);
  }

  /** For each level below the root, one table for every prefix from the first page of the range to the last. */
  lemma NeededSize(v: int, n: nat, first: int, last: int)
    requires 0 <= v && n > 0 && first == Vpn(v) && last == first + n - 1 < VPN_LIMIT
    ensures |Needed(v, n)| == (last / Span(4) - first / Span(4) + 1) + (last / Span(3) - first / Span(3) + 1)
                            + (last / Span(2) - first / Span(2) + 1)
  {
    NeededIsBetween(v, n, first, last);
    LevelsSize(first, last);
  }

  lemma LevelsSize(first: int, last: int)
    requires 0 <= first <= last
    ensures |AllBetween(first, last)| == (last / Span(4) - first / Span(4) + 1) + (last / Span(3) - first / Span(3) + 1)
                                       + (last / Span(2) - first / Span(2) + 1)
  {
    BetweenSize(3, first, last);
    BetweenSize(2, first, last);
    BetweenSize(1, first, last);
    AllBetweenSize(first, last);
  }

  lemma AllBetweenSize(first: int, last: int)
    requires 0 <= first <= last
    ensures |AllBetween(first, last)| ==
            |Between(3, first, last)| + |Between(2, first, last)| + |Between(1, first, last)|
  {
    LevelsApart(3, 2, first, last);
    LevelsApart(3, 1, first, last);
    LevelsApart(2, 1, first, last);
    DisjointSizes(Between(3, first, last), Between(2, first, last), Between(1, first, last));
  }

  lemma BetweenSize(level: int, first: int, last: int)
    requires 1 <= level <= 3 && 0 <= first <= last
    ensures |Between(level, first, last)| == last / Span(level + 1) - first / Span(level + 1) + 1
  {
    PrefixGrows(level, first, last);
    LevelKeysSize(level, first / Span(level + 1), last / Span(level + 1));
  }

  lemma LevelsApart(level: int, other: int, first: int, last: int)
    requires 1 <= level <= 3 && 1 <= other <= 3 && level != other && 0 <= first <= last
    ensures Between(level, first, last) !! Between(other, first, last)
  {
    PrefixGrows(level, first, last);
    PrefixGrows(other, first, last);
    forall k: Key | k in Between(level, first, last) ensures k !in Between(other, first, last) {
      LevelKeysAre(level, first / Span(level + 1), last / Span(level + 1), k);
      LevelKeysAre(other, first / Span(other + 1), last / Span(other + 1), k);
    }
  }

  lemma DisjointSizes(a: set<Key>, b: set<Key>, c: set<Key>)
    requires a !! b && a !! c && b !! c
    ensures |a + b + c| == |a| + |b| + |c|
  {
  }

  /** What a range costs at boot: at most one page for every table between its first and its last page. */
  lemma BootTablesBounded(tab0: map<Key, int>, v: int, n: nat, first: int, last: int)
    requires 0 <= v && n > 0 && first == Vpn(v) && last == first + n - 1 < VPN_LIMIT
    ensures |Needed(v, n) - tab0.Keys| <=
            (last / Span(4) - first / Span(4) + 1) + (last / Span(3) - first / Span(3) + 1)
          + (last / Span(2) - first / Span(2) + 1)
  {
    NeededSize(v, n, first, last);
    SubsetSize(Needed(v, n) - tab0.Keys, Needed(v, n));
  }

  function Place(table: int, base: int): int { (table - base) / 0x1000 }

  /** Which pages of the run hold a table. */
  ghost function Places(tab: map<Key, int>, base: int): set<int> {
    set k | k in tab :: Place(tab[k], base)
  }

  ghost predicate Paged(tab: map<Key, int>, base: int) {
    && (forall k | k in tab :: base <= tab[k] && (tab[k] - base) % 0x1000 == 0)
    && (forall k, k' {:trigger Distinct(tab, k, k')} | k in tab && k' in tab :: Distinct(tab, k, k'))
  }

  lemma PlacesGrow(tab: map<Key, int>, base: int, k: Key, table: int)
    requires k !in tab
    ensures Places(tab[k := table], base) == Places(tab, base) + {Place(table, base)}
  {
    var all := tab[k := table];
    forall i ensures i in Places(all, base) <==> i in Places(tab, base) || i == Place(table, base) {
      if i in Places(tab, base) {
        var j :| j in tab && i == Place(tab[j], base);
        assert j in all && all[j] == tab[j];
      }
      if i == Place(table, base) {
        assert k in all && all[k] == table;
      }
    }
  }

  lemma PlaceIsNew(tab: map<Key, int>, base: int, k: Key)
    requires Paged(tab, base) && k in tab
    ensures Place(tab[k], base) !in Places(tab - {k}, base)
  {
    forall j | j in tab - {k} ensures Place(tab[j], base) != Place(tab[k], base) {
      assert Distinct(tab, j, k);
    }
  }

  lemma PagedRest(tab: map<Key, int>, base: int, k: Key)
    requires Paged(tab, base) && k in tab
    ensures Paged(tab - {k}, base)
  {
    forall j, j' | j in tab - {k} && j' in tab - {k} ensures Distinct(tab - {k}, j, j') {
      assert Distinct(tab, j, j');
    }
  }

  lemma {:induction false} PlacesSize(tab: map<Key, int>, base: int)
    requires Paged(tab, base)
    ensures |Places(tab, base)| == |tab|
    decreases |tab|
  {
    if tab == map[] {
      assert Places(tab, base) == {};
    } else {
      var k :| k in tab;
      var rest := tab - {k};
      MapGrows(rest, k, tab[k]);
      assert rest[k := tab[k]] == tab;
      PagedRest(tab, base, k);
      PlacesSize(rest, base);
      PlaceIsNew(tab, base, k);
      PlacesGrow(rest, base, k, tab[k]);
    }
  }

  ghost function Below(n: nat): set<int> {
    if n == 0 then {} else Below(n - 1) + {n - 1}
  }

  lemma {:induction false} BelowIs(n: nat)
    ensures |Below(n)| == n && forall i :: i in Below(n) <==> 0 <= i < n
  {
    if n > 0 {
      BelowIs(n - 1);
    }
  }

  /** The tables of a tree lie in pages of their own. */
  lemma TreeIsPaged(w: Mem, base: int, tab: map<Key, int>, n: nat)
    requires Tree(w, base, tab) && InRun(tab, base, n)
    ensures Paged(tab, base)
  {
  }

  /** The table pages are contiguous: the `n` tables of a tree in a run of `n` pages leave none of the pages out. */
  lemma RunIsFull(w: Mem, tab: map<Key, int>, base: int, n: nat, i: int)
    requires Tree(w, base, tab) && InRun(tab, base, n)
    ensures i in Places(tab, base) <==> 0 <= i < n
  {
    TreeIsPaged(w, base, tab, n);
    PlacesSize(tab, base);
    BelowIs(n);
    SameSize(Places(tab, base), Below(n));
  }

  lemma SameSize(xs: set<int>, ys: set<int>)
    requires xs <= ys && |xs| == |ys|
    ensures xs == ys
  {
    assert ys == xs + (ys - xs) && |ys - xs| == 0;
  }
}
