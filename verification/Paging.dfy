/** Page-table mapping of arch/x86/paging.c: growing the tree with pages of the pool, mapping ranges, reading back. */
module Paging {
  import opened Memory
  import opened Entries
  import opened Options
  import opened PageBlocks
  import opened PagePool
  import opened TableTree
  import opened PagingSteps
  import opened Ranges

  datatype Outcome = Done | OutOfPages | Halted

  class AddressSpace {
    var w: Mem
    const root: int
    const pool: Pool
    ghost var tab: map<Key, int>

    /** The address space set up at boot: a tree in memory, none of whose pages is in the pool. */
    constructor (w: Mem, root: int, pool: Pool, ghost tab: map<Key, int>)
      requires pool.Valid() && Tree(w, root, tab) && TablesHeld(pool.blocks, tab)
      ensures Valid() && this.pool == pool && this.root == root && this.w == w && this.tab == tab
    {
      this.w, this.root, this.pool, this.tab := w, root, pool, tab;
    }

    ghost predicate Valid()
      reads this, pool
    {
      pool.Valid() && Tree(w, root, tab) && TablesHeld(pool.blocks, tab)
    }

    /** Pages handed out for something else than tables. */
    ghost function DataPages(): set<int>
      reads this, pool
    {
      pool.Handed() - TablePages(tab)
    }

    method InitTable(table: int, value: int)
      modifies this`w
      ensures w == Filled(old(w), table, ENTRIES, value)
    {
      var i := 0;
      while i < ENTRIES
        invariant 0 <= i <= ENTRIES
        invariant w == Filled(old(w), table, i, value)
      {
        w := w[EntryAt(table, i) := value];
        i := i + 1;
      }
    }

    /** Give entry `i` of `table`, which is absent, a new and empty table. */
    method AddTable(table: int, i: int, ghost k: Key) returns (ok: bool, next: int)
      requires Valid() && k in tab && tab[k] == table && k.level > 1 && 0 <= i < ENTRIES && Slot(k, i) !in tab
      modifies this`w, this`tab, pool
      ensures Valid() && Grew(old(w), old(tab), w, tab)
      ensures ok ==> tab == old(tab)[Slot(k, i) := next]
      ensures !ok ==> tab == old(tab) && pool.available == 0
      ensures pool.available + |tab| == old(pool.available + |tab|) && DataPages() == old(DataPages())
    {
      var addr := pool.PageAlloc(1);
      if addr == INVALID_ADDR {
        // convert_phy_to_virt asserts on the invalid address.
        EmptyPool(old(pool.blocks));
        return false, 0;
      }
      FreshPage(old(pool.blocks), pool.blocks, tab, addr);
      FreshPageLeaves(old(pool.blocks), pool.blocks, addr);
      next := addr;
      InitTable(next, DEFAULT_EMPTY_FLAG);
      w := w[EntryAt(table, i) := MkEntry(next, DEFAULT_PT_FLAG)];
      tab := tab[Slot(k, i) := next];
      ok := true;
      OneMoreTable(old(w), root, old(tab), k, i, next);
      PageBecomesTable(old(tab), Slot(k, i), next, pool.managed, FreePages(old(pool.blocks)));
    }

    /** One level of __do_mapping: follow entry `i` of `table`, or give it a new, empty table. */
    method NextTable(table: int, i: int, ghost k: Key) returns (ok: bool, next: int)
      requires Valid() && k in tab && tab[k] == table && k.level > 1 && 0 <= i < ENTRIES
      modifies this`w, this`tab, pool
      ensures Valid() && Grew(old(w), old(tab), w, tab)
      ensures ok ==> tab.Keys == old(tab.Keys) + {Slot(k, i)} && tab[Slot(k, i)] == next
      ensures !ok ==> tab == old(tab) && Slot(k, i) !in tab && pool.available == 0
      ensures pool.available + |tab| == old(pool.available + |tab|) && DataPages() == old(DataPages())
    {
      var entry := Entry(w, table, i);
      assert EntryOk(w, tab, k, i);
      if Present(entry) {
        assert tab.Keys == old(tab.Keys) + {Slot(k, i)};
        return true, PhyAddr(entry);
      }
      ok, next := AddTable(table, i, k);
    }

    /** The walk of __do_mapping down to the lowest table of a page. */
    method FindLeafTable(va: int) returns (ok: bool, table: int)
      requires Valid() && va >= 0
      modifies this`w, this`tab, pool
      ensures Valid() && Grew(old(w), old(tab), w, tab)
      ensures ok ==> tab.Keys == old(tab.Keys) + NeededFor(Vpn(va)) && tab[KeyOf(1, Vpn(va))] == table
      ensures !ok ==> && tab.Keys <= old(tab.Keys) + NeededFor(Vpn(va)) && !(NeededFor(Vpn(va)) <= tab.Keys)
                      && pool.available == 0
      ensures pool.available + |tab| == old(pool.available + |tab|) && DataPages() == old(DataPages())
    {
      ghost var vpn := Vpn(va);
      ShiftedIndex(va);
      StepDown(4, vpn);
      StepDown(3, vpn);
      StepDown(2, vpn);
      ok, table := NextTable(root, va / 0x80_0000_0000 % ENTRIES, KeyOf(4, vpn));
      if ok {
        ghost var w1, tab1 := w, tab;
        ok, table := NextTable(table, va / 0x4000_0000 % ENTRIES, KeyOf(3, vpn));
        GrewTwice(old(w), old(tab), w1, tab1, w, tab);
        if ok {
          ghost var w2, tab2 := w, tab;
          ok, table := NextTable(table, va / 0x20_0000 % ENTRIES, KeyOf(2, vpn));
          GrewTwice(old(w), old(tab), w2, tab2, w, tab);
          KeysOfThree(old(tab.Keys), tab1.Keys, tab2.Keys, vpn);
        }
      }
    }

    /** The last step of __do_mapping: the entry of the page in its lowest table. */
    method WriteEntry(table: int, va: int, e: nat, ghost w0: Mem, ghost tab0: map<Key, int>)
      requires Valid() && va >= 0 && Grew(w0, tab0, w, tab)
      requires KeyOf(1, Vpn(va)) in tab && tab[KeyOf(1, Vpn(va))] == table
      modifies this`w
      ensures Valid() && Wrote(w0, tab0, w, tab, Vpn(va), e)
    {
      ShiftedIndex(va);
      WriteLeaf(w0, tab0, w, root, tab, Vpn(va), e);
      w := w[EntryAt(table, va / 0x1000 % ENTRIES) := e];
    }

    /** __do_mapping. */
    method DoMapping(va: int, pa: nat, flag: nat) returns (ok: bool)
      requires Valid() && va >= 0
      modifies this`w, this`tab, pool
      ensures Valid()
      ensures ok ==> Wrote(old(w), old(tab), w, tab, Vpn(va), MkEntry(pa, flag))
      ensures ok ==> tab.Keys == old(tab.Keys) + NeededFor(Vpn(va))
      ensures !ok ==> Grew(old(w), old(tab), w, tab)
      ensures !ok ==> && tab.Keys <= old(tab.Keys) + NeededFor(Vpn(va)) && !(NeededFor(Vpn(va)) <= tab.Keys)
                      && pool.available == 0
      ensures pool.available + |tab| == old(pool.available + |tab|) && DataPages() == old(DataPages())
    {
      var table;
      ok, table := FindLeafTable(va);
      if ok {
        WriteEntry(table, va, MkEntry(pa, flag), old(w), old(tab));
      }
    }

    /** One round of the loop of __map_by_pages. */
    method MapNext(virt: int, phy: nat, flag: nat, ghost w0: Mem, ghost tab0: map<Key, int>, ghost available0: int,
                   ghost v: int, ghost p: int, ghost n: nat, ghost i: nat) returns (ok: bool)
      requires Valid() && virt >= 0 && Vpn(virt) == PageAt(v, i) && phy == PhysAt(p, i) && i < n
      requires MappedSoFar(w0, tab0, available0, w, tab, pool.available, v, p, n, flag, i, true)
      modifies this`w, this`tab, pool
      ensures Valid() && DataPages() == old(DataPages())
      ensures MappedSoFar(w0, tab0, available0, w, tab, pool.available, v, p, n, flag, if ok then i + 1 else i, ok)
    {
      ok := DoMapping(virt, phy, flag);
      if ok {
        OneMoreMapped(w0, tab0, available0, old(w), old(tab), old(pool.available), w, tab, pool.available,
                      v, p, n, flag, i);
      } else {
        NoMoreMapped(w0, tab0, available0, old(w), old(tab), old(pool.available), w, tab, pool.available,
                     v, p, n, flag, i);
      }
    }

    /** __map_by_pages. */
    method MapByPages(v: int, p: int, n: nat, flag: nat) returns (ok: bool)
      requires Valid() && 0 <= v < TWO64 && 0 <= p < TWO64
      modifies this`w, this`tab, pool
      ensures Valid() && DataPages() == old(DataPages())
      ensures MappedSoFar(old(w), old(tab), old(pool.available), w, tab, pool.available, v, p, n, flag, n, ok)
      ensures ok <==> |Needed(v, n) - old(tab.Keys)| <= old(pool.available)
    {
      var virt, phy := v, p;
      var i := 0;
      ok := true;
      FirstStep(v);
      FirstStep(p);
      NothingMapped(w, tab, pool.available, v, p, n, flag);
      while i < n && ok
        invariant 0 <= i <= n && Valid() && DataPages() == old(DataPages())
        invariant virt == VirtAt(v, i) && phy == PhysAt(p, i)
        invariant MappedSoFar(old(w), old(tab), old(pool.available), w, tab, pool.available, v, p, n, flag, i, ok)
        decreases n - i, ok
      {
        ok := MapNext(virt, phy, flag, old(w), old(tab), old(pool.available), v, p, n, i);
        if ok {
          NextStep(v, i);
          NextStep(p, i);
          virt, phy, i := Advance(virt), Advance(phy), i + 1;
        }
      }
      SumNotNegative(pool.blocks);
      RanShortExactly(old(w), old(tab), old(pool.available), w, tab, pool.available, v, p, n, flag, ok);
    }

    /** __query_mapping. */
    method QueryMapping(va: int) returns (r: Option<Mapping>)
      requires 0 <= va < TWO64
      ensures r == Translate(w, root, Vpn(va))
    {
      ShiftedIndex(va);
      var e := Entry(w, root, va / 0x80_0000_0000 % ENTRIES);
      if !Present(e) {
        return None;
      }
      e := Entry(w, PhyAddr(e), va / 0x4000_0000 % ENTRIES);
      if !Present(e) {
        return None;
      }
      e := Entry(w, PhyAddr(e), va / 0x20_0000 % ENTRIES);
      if !Present(e) {
        return None;
      }
      e := Entry(w, PhyAddr(e), va / 0x1000 % ENTRIES);
      if !Present(e) {
        return None;
      }
      return Some(Mapping(PhyAddr(e), Flag(e)));
    }

    /** __validate_mapping: false where the C code halts. */
    method ValidateMapping(v: int, p: int, n: nat, flag: nat) returns (ok: bool)
      requires 0 <= v < TWO64 && 0 <= p < TWO64
      ensures ok <==> ReadsBack(w, root, v, p, n, flag)
    {
      var virt, phy := v, p;
      var i := 0;
      FirstStep(v);
      FirstStep(p);
      while i < n
        invariant 0 <= i <= n
        invariant virt == VirtAt(v, i) && phy == PhysAt(p, i)
        invariant ReadsBack(w, root, v, p, i, flag)
      {
        var r := QueryMapping(virt);
        if r.None? || r.value.addr != phy || r.value.flag != flag {
          return false;
        }
        NextStep(v, i);
        NextStep(p, i);
        virt, phy, i := Advance(virt), Advance(phy), i + 1;
      }
      return true;
    }

    /** The check modify_chunk_mapping ends with: what was written reads back, or the machine halts. */
    method CheckMapped(v: int, p: int, n: nat, flag: nat, ghost w0: Mem, ghost tab0: map<Key, int>) returns (r: Outcome)
      requires Valid() && 0 <= v < TWO64 && 0 <= p < TWO64
      requires Tree(w0, root, tab0) && WroteRange(w0, tab0, w, tab, v, p, n, flag)
      ensures r == if Mappable(p, n, flag) then Done else Halted
      ensures r.Done? ==> MapsRange(w0, w, root, v, p, n, flag) && GrantsRange(w0, w, root, v, p, n, flag)
    {
      var ok := ValidateMapping(v, p, n, flag);
      RangeReadsBack(w0, tab0, w, root, tab, v, p, n, flag);
      if !ok {
        return Halted;
      }
      RangeGranted(w0, tab0, w, root, tab, v, p, n, flag);
      return Done;
    }

    /** modify_chunk_mapping.  It runs out of pages exactly when the pool has fewer pages than tables are missing;
        otherwise it halts in its own check exactly when the range is not mappable. */
    method ModifyChunkMapping(v: int, p: int, n: nat, flag: nat) returns (r: Outcome)
      requires Valid() && 0 <= v < TWO64 && 0 <= p < TWO64
      modifies this`w, this`tab, pool
      ensures Valid() && Extends(old(tab), tab) && OnlyTables(old(w), w, tab) && DataPages() == old(DataPages())
      ensures r == if |Needed(v, n) - old(tab.Keys)| > old(pool.available) then OutOfPages
                   else if Mappable(p, n, flag) then Done
                   else Halted
      ensures r.Done? ==> MapsRange(old(w), w, root, v, p, n, flag) && GrantsRange(old(w), w, root, v, p, n, flag)
      ensures !r.OutOfPages? ==> Took(old(tab.Keys), Needed(v, n), tab.Keys)
      ensures pool.available + |tab| == old(pool.available + |tab|)
    {
      var ok := MapByPages(v, p, n, flag);
      if !ok {
        return OutOfPages;
      }
      r := CheckMapped(v, p, n, flag, old(w), old(tab));
    }
  }
}
