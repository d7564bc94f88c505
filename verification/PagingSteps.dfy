/** The steps by which arch/x86/paging.c grows and fills its table tree. */
module PagingSteps {
  import opened Memory
  import opened Entries
  import opened PageBlocks
  import opened PagePool
  import opened TableTree

  /** No table page is in the free list. */
  ghost predicate TablesHeld(bs: seq<Block>, tab: map<Key, int>) {
    forall k | k in tab :: !Covers(bs, tab[k] + PHY_MAP_BASE)
  }

  /** The pages, as the pool names them, that hold tables. */
  ghost function TablePages(tab: map<Key, int>): set<int> {
    set k | k in tab :: tab[k] + PHY_MAP_BASE
  }

  ghost predicate InTables(tab: map<Key, int>, a: int) {
    exists k :: k in tab && InPage(tab[k] + PHY_MAP_BASE, a)
  }

  predicate InPage(p: int, a: int) { p <= a < p + PAGE_SIZE }

  ghost predicate Extends(tab: map<Key, int>, tab': map<Key, int>) {
    forall k | k in tab :: k in tab' && tab'[k] == tab[k]
  }

  /** Two memories agree outside the table pages. */
  ghost predicate OnlyTables(w: Mem, w': Mem, tab: map<Key, int>) {
    forall a | !InTables(tab, a) :: Ld(w', a) == Ld(w, a)
  }

  lemma GrowTouchesTables(w: Mem, tab: map<Key, int>, k: Key, i: int, table: int)
    requires k in tab && 0 <= i < ENTRIES && Slot(k, i) !in tab
    ensures OnlyTables(w, Grown(w, tab[k], i, table), tab[Slot(k, i) := table])
  {
    var tab' := tab[Slot(k, i) := table];
    forall a | !InTables(tab', a) ensures Ld(Grown(w, tab[k], i, table), a) == Ld(w, a) {
      FilledAt(w, table, ENTRIES, DEFAULT_EMPTY_FLAG, a);
      assert tab'[k] == tab[k] && !InPage(tab'[k] + PHY_MAP_BASE, a);
      assert !InPage(tab'[Slot(k, i)] + PHY_MAP_BASE, a);
    }
  }

  /** The memory and tables before and after differ only by tables that translate nothing. */
  ghost predicate Grew(w: Mem, tab: map<Key, int>, w': Mem, tab': map<Key, int>) {
    && Extends(tab, tab') && OnlyTables(w, w', tab')
    && forall vpn | 0 <= vpn < VPN_LIMIT :: View(w', tab', vpn) == View(w, tab, vpn)
  }

  lemma GrewTwice(w: Mem, tab: map<Key, int>, w1: Mem, tab1: map<Key, int>, w2: Mem, tab2: map<Key, int>)
    requires Grew(w, tab, w1, tab1) && Grew(w1, tab1, w2, tab2)
    ensures Grew(w, tab, w2, tab2)
  {
  }

  /** The tables below the root that mapping page `vpn` needs. */
  function NeededFor(vpn: int): set<Key> { {KeyOf(3, vpn), KeyOf(2, vpn), KeyOf(1, vpn)} }

  lemma KeysOfThree(k0: set<Key>, k1: set<Key>, k2: set<Key>, vpn: int)
    requires k1 == k0 + {KeyOf(3, vpn)} && k2 == k1 + {KeyOf(2, vpn)}
    ensures k2 + {KeyOf(1, vpn)} == k0 + NeededFor(vpn)
    ensures k2 <= k0 + NeededFor(vpn)
  {
  }

  /** The memory and tables before and after differ by new tables and by what page `vpn` translates to. */
  ghost predicate Wrote(w: Mem, tab: map<Key, int>, w': Mem, tab': map<Key, int>, vpn: int, e: nat) {
    && Extends(tab, tab') && OnlyTables(w, w', tab')
    && forall v | 0 <= v < VPN_LIMIT :: View(w', tab', v) == if v == vpn then Leaf(e) else View(w, tab, v)
  }

  lemma WriteLeaf(w: Mem, tab: map<Key, int>, w1: Mem, root: int, tab1: map<Key, int>, vpn: int, e: nat)
    requires Grew(w, tab, w1, tab1) && Tree(w1, root, tab1) && 0 <= vpn < VPN_LIMIT && KeyOf(1, vpn) in tab1
    ensures var w2 := w1[EntryAt(tab1[KeyOf(1, vpn)], Index(1, vpn)) := e];
            Tree(w2, root, tab1) && Wrote(w, tab, w2, tab1, vpn, e)
  {
    var t := tab1[KeyOf(1, vpn)];
    var w2 := w1[EntryAt(t, Index(1, vpn)) := e];
    SetLeaf(w1, root, tab1, vpn, e);
    forall v | 0 <= v < VPN_LIMIT ensures View(w2, tab1, v) == if v == vpn then Leaf(e) else View(w, tab, v) {
      SetLeafView(w1, root, tab1, vpn, e, v);
    }
    assert InPage(t + PHY_MAP_BASE, EntryAt(t, Index(1, vpn)));
  }

  lemma OneMoreTable(w: Mem, root: int, tab: map<Key, int>, k: Key, i: int, table: int)
    requires Tree(w, root, tab) && k in tab && k.level > 1 && 0 <= i < ENTRIES
    requires Slot(k, i) !in tab && FitsTable(table) && table !in tab.Values
    ensures Tree(Grown(w, tab[k], i, table), root, tab[Slot(k, i) := table])
    ensures Grew(w, tab, Grown(w, tab[k], i, table), tab[Slot(k, i) := table])
  {
    GrowTree(w, root, tab, k, i, table);
    GrowTouchesTables(w, tab, k, i, table);
    var n, tab' := Grown(w, tab[k], i, table), tab[Slot(k, i) := table];
    forall vpn | 0 <= vpn < VPN_LIMIT ensures View(n, tab', vpn) == View(w, tab, vpn) {
      GrowKeepsView(w, root, tab, k, i, table, vpn);
    }
  }

  /** A page the pool hands out is not a table yet, and no table becomes free. */
  lemma FreshPage(bs: seq<Block>, cs: seq<Block>, tab: map<Key, int>, addr: int)
    requires TablesHeld(bs, tab) && Takes(bs, cs, addr, 1)
    ensures addr !in tab.Values && FitsTable(addr)
    ensures TablesHeld(cs, tab) && !Covers(cs, addr + PHY_MAP_BASE)
  {
  }

  lemma FreshPageLeaves(bs: seq<Block>, cs: seq<Block>, addr: int)
    requires Takes(bs, cs, addr, 1)
    ensures addr + PHY_MAP_BASE in FreePages(bs)
    ensures FreePages(cs) == FreePages(bs) - {addr + PHY_MAP_BASE}
  {
  }

  lemma FirstPageIsRun(bs: seq<Block>)
    requires Sorted(bs) && PageAligned(bs) && bs != []
    ensures FreeRun(bs, bs[0].base, 1)
  {
  }

  lemma EmptyPool(bs: seq<Block>)
    requires Sorted(bs) && PageAligned(bs) && !exists a :: FreeRun(bs, a, 1)
    ensures Sum(bs) == 0
  {
    if bs != [] {
      FirstPageIsRun(bs);
      assert false;
    }
  }

  lemma TablePagesGrow(tab: map<Key, int>, slot: Key, addr: int)
    requires slot !in tab
    ensures TablePages(tab[slot := addr]) == TablePages(tab) + {addr + PHY_MAP_BASE}
  {
    var tab' := tab[slot := addr];
    forall q ensures q in TablePages(tab') <==> q in TablePages(tab) || q == addr + PHY_MAP_BASE {
      if q in TablePages(tab) {
        var k :| k in tab && q == tab[k] + PHY_MAP_BASE;
        assert k in tab' && tab'[k] == tab[k];
      }
      if q == addr + PHY_MAP_BASE {
        assert slot in tab' && q == tab'[slot] + PHY_MAP_BASE;
      }
    }
  }

  lemma MapGrows<K, V>(m: map<K, V>, k: K, v: V)
    requires k !in m
    ensures |m[k := v]| == |m| + 1
  {
  }

  /** A page that moves from the free pages to the table pages changes neither the data pages nor the total. */
  lemma PageBecomesTable(tab: map<Key, int>, slot: Key, addr: int, managed: set<int>, free: set<int>)
    requires slot !in tab && addr + PHY_MAP_BASE in free
    ensures managed - (free - {addr + PHY_MAP_BASE}) - TablePages(tab[slot := addr]) == managed - free - TablePages(tab)
    ensures |tab[slot := addr]| == |tab| + 1
  {
    TablePagesGrow(tab, slot, addr);
    MapGrows(tab, slot, addr);
  }
}
