/** The four-level tree of page tables that arch/x86/paging.c keeps in physical memory, and how it is read.

    Physical memory is seen through the direct map, one 8-byte word at a time.  Page `vpn` of the 48-bit
    address space is found by walking levels 4 (the root), 3, 2 and 1; the table of level `l` on its way is
    named by a key: the level and the bits of `vpn` above the ones that level looks at. */
module TableTree {
  import opened Memory
  import opened Entries
  import opened Options
  import opened PageBlocks

  const VPN_LIMIT := 0x10_0000_0000       // 2^36 pages
  const ENTRIES := 512
  const TWO64 := 0x1_0000_0000_0000_0000

  datatype Mapping = Mapping(addr: int, flag: nat)

  datatype Key = Key(level: int, prefix: int)

  const ROOT_KEY := Key(4, 0)

  /** virt_addr >> 12, cut to 48 bits of address. */
  function Vpn(va: int): (r: int)
    ensures 0 <= r < VPN_LIMIT
  {
    va / 0x1000 % VPN_LIMIT
  }

  /** How many pages one entry of a table of this level spans. */
  function Span(level: int): (r: int)
    ensures r > 0
  {
    if level <= 1 then 1
    else if level == 2 then 0x200
    else if level == 3 then 0x4_0000
    else if level == 4 then 0x800_0000
    else 0x10_0000_0000
  }

  function Index(level: int, vpn: int): (r: int)
    ensures 0 <= r < ENTRIES
  {
    vpn / Span(level) % ENTRIES
  }

  function KeyOf(level: int, vpn: int): Key { Key(level, vpn / Span(level + 1)) }

  /** The key of the table that entry `i` of table `k` points to. */
  function Slot(k: Key, i: int): Key { Key(k.level - 1, k.prefix * ENTRIES + i) }

  function Parent(k: Key): Key { Key(k.level + 1, k.prefix / ENTRIES) }

  lemma StepDown(level: int, vpn: int)
    requires 2 <= level <= 4 && 0 <= vpn < VPN_LIMIT
    ensures KeyOf(level - 1, vpn) == Slot(KeyOf(level, vpn), Index(level, vpn))
    ensures Parent(KeyOf(level - 1, vpn)) == KeyOf(level, vpn)
    ensures KeyOf(4, vpn) == ROOT_KEY
  {
  }

  lemma SlotsDiffer(k: Key, i: int, k': Key, i': int)
    requires 0 <= i < ENTRIES && 0 <= i' < ENTRIES && Slot(k, i) == Slot(k', i')
    ensures k == k' && i == i'
    ensures Parent(Slot(k, i)) == k
  {
  }

  /** A page is its lowest table and its index there. */
  lemma PageIsLeaf(vpn: int, vpn': int)
    requires 0 <= vpn < VPN_LIMIT && 0 <= vpn' < VPN_LIMIT
    requires KeyOf(1, vpn) == KeyOf(1, vpn') && Index(1, vpn) == Index(1, vpn')
    ensures vpn == vpn'
  {
  }

  /** The index the C code shifts out of the address is the index of its page. */
  lemma ShiftedIndex(va: int)
    requires va >= 0
    ensures va / 0x80_0000_0000 % ENTRIES == Index(4, Vpn(va))
    ensures va / 0x4000_0000 % ENTRIES == Index(3, Vpn(va))
    ensures va / 0x20_0000 % ENTRIES == Index(2, Vpn(va))
    ensures va / 0x1000 % ENTRIES == Index(1, Vpn(va))
  {
    var q := va / 0x1000;
    assert va / 0x80_0000_0000 == q / 0x800_0000;
    assert va / 0x4000_0000 == q / 0x4_0000;
    assert va / 0x20_0000 == q / 0x200;
    IndexOfQuotient(q, 1);
    IndexOfQuotient(q, 2);
    IndexOfQuotient(q, 3);
    IndexOfQuotient(q, 4);
  }

  lemma IndexOfQuotient(q: int, level: int)
    requires q >= 0 && 1 <= level <= 4
    ensures q / Span(level) % ENTRIES == Index(level, q % VPN_LIMIT)
  {
    var a, vpn := q / VPN_LIMIT, q % VPN_LIMIT;
    if level == 1 {
      AddTurns(vpn, a * 0x800_0000);
    } else if level == 2 {
      assert q / 0x200 == vpn / 0x200 + a * 0x800_0000;
      AddTurns(vpn / 0x200, a * 0x4_0000);
    } else if level == 3 {
      assert q / 0x4_0000 == vpn / 0x4_0000 + a * 0x4_0000;
      AddTurns(vpn / 0x4_0000, a * 0x200);
    } else {
      assert q / 0x800_0000 == vpn / 0x800_0000 + a * 0x200;
      AddTurns(vpn / 0x800_0000, a);
    }
  }

  lemma AddTurns(x: int, turns: int)
    ensures (x + ENTRIES * turns) % ENTRIES == x % ENTRIES
  {
  }

  // ----- tables in memory -----

  /** Where entry `i` of the table at physical address `table` is stored. */
  function EntryAt(table: int, i: int): int { table + PHY_MAP_BASE + 8 * i }

  function Entry(w: Mem, table: int, i: int): nat {
    var e := Ld(w, EntryAt(table, i));
    if e >= 0 then e else 0
  }

  lemma EntriesApart(t: int, i: int, t': int, i': int)
    requires t % 0x1000 == 0 && t' % 0x1000 == 0 && 0 <= i < ENTRIES && 0 <= i' < ENTRIES
    requires EntryAt(t, i) == EntryAt(t', i')
    ensures t == t' && i == i'
  {
  }

  function Leaf(e: nat): Option<Mapping> {
    if Present(e) then Some(Mapping(PhyAddr(e), Flag(e))) else None
  }

  /** __query_mapping: the walk from the root. */
  function Translate(w: Mem, root: int, vpn: int): Option<Mapping> {
    var e4 := Entry(w, root, Index(4, vpn));
    if !Present(e4) then None else
    var e3 := Entry(w, PhyAddr(e4), Index(3, vpn));
    if !Present(e3) then None else
    var e2 := Entry(w, PhyAddr(e3), Index(2, vpn));
    if !Present(e2) then None else
    Leaf(Entry(w, PhyAddr(e2), Index(1, vpn)))
  }

  /** Entry `i` of table `k` points to the table of its slot and takes no right away, or is absent when there is
      none. */
  ghost predicate EntryOk(w: Mem, tab: map<Key, int>, k: Key, i: int)
    requires k in tab
  {
    var e := Entry(w, tab[k], i);
    (Present(e) <==> Slot(k, i) in tab) && (Slot(k, i) in tab ==> PhyAddr(e) == tab[Slot(k, i)] && Passes(e))
  }

  /** `tab` names every table page of the tree: no page is reached by two entries, and every table by its parent. */
  ghost predicate Tree(w: Mem, root: int, tab: map<Key, int>) {
    && ROOT_KEY in tab && tab[ROOT_KEY] == root
    && (forall k | k in tab :: 1 <= k.level <= 4 && FitsTable(tab[k]))
    && (forall k {:trigger HasParent(tab, k)} | k in tab && k.level < 4 :: HasParent(tab, k))
    && (forall k, k' {:trigger Distinct(tab, k, k')} | k in tab && k' in tab :: Distinct(tab, k, k'))
    && (forall k, i | k in tab && k.level > 1 && 0 <= i < ENTRIES :: EntryOk(w, tab, k, i))
  }

  predicate Distinct(tab: map<Key, int>, k: Key, k': Key)
    requires k in tab && k' in tab
  {
    tab[k] == tab[k'] ==> k == k'
  }

  predicate HasParent(tab: map<Key, int>, k: Key) { Parent(k) in tab }

  predicate FitsTable(t: int) { t >= 0 && FitsAddr(t) }

  /** What the tree says about a page: the entry of its lowest table, if that table exists. */
  ghost function View(w: Mem, tab: map<Key, int>, vpn: int): Option<Mapping> {
    if KeyOf(1, vpn) in tab then Leaf(Entry(w, tab[KeyOf(1, vpn)], Index(1, vpn))) else None
  }

  lemma ParentsOfPage(w: Mem, root: int, tab: map<Key, int>, vpn: int)
    requires Tree(w, root, tab) && 0 <= vpn < VPN_LIMIT
    ensures KeyOf(1, vpn) in tab ==> KeyOf(2, vpn) in tab
    ensures KeyOf(2, vpn) in tab ==> KeyOf(3, vpn) in tab
    ensures KeyOf(4, vpn) in tab && tab[KeyOf(4, vpn)] == root
  {
    StepDown(2, vpn);
    StepDown(3, vpn);
    assert KeyOf(1, vpn) in tab ==> HasParent(tab, KeyOf(1, vpn));
    assert KeyOf(2, vpn) in tab ==> HasParent(tab, KeyOf(2, vpn));
  }

  lemma WalkStep(w: Mem, root: int, tab: map<Key, int>, level: int, vpn: int)
    requires Tree(w, root, tab) && 2 <= level <= 4 && 0 <= vpn < VPN_LIMIT && KeyOf(level, vpn) in tab
    ensures var e := Entry(w, tab[KeyOf(level, vpn)], Index(level, vpn));
            && (Present(e) <==> KeyOf(level - 1, vpn) in tab)
            && (Present(e) ==> PhyAddr(e) == tab[KeyOf(level - 1, vpn)])
  {
    StepDown(level, vpn);
    assert EntryOk(w, tab, KeyOf(level, vpn), Index(level, vpn));
  }

  /** The walk from the root finds exactly what the tree says. */
  lemma WalkFindsView(w: Mem, root: int, tab: map<Key, int>, vpn: int)
    requires Tree(w, root, tab) && 0 <= vpn < VPN_LIMIT
    ensures Translate(w, root, vpn) == View(w, tab, vpn)
  {
    ParentsOfPage(w, root, tab, vpn);
    WalkStep(w, root, tab, 4, vpn);
    if KeyOf(3, vpn) in tab {
      WalkStep(w, root, tab, 3, vpn);
      if KeyOf(2, vpn) in tab {
        WalkStep(w, root, tab, 2, vpn);
      }
    }
  }

  // ----- what the processor permits -----

  /** Where a page is in physical memory, and what may be done with it. */
  datatype Grant = Grant(addr: int, rights: Rights)

  /** Section 4.6: the processor walks from the root to a 4-KByte page, and permits what all four entries permit. */
  function Access(w: Mem, root: int, vpn: int): Option<Grant> {
    var e4 := Entry(w, root, Index(4, vpn));
    if !Leads(e4) then None else
    var e3 := Entry(w, PhyAddr(e4), Index(3, vpn));
    if !Leads(e3) then None else
    var e2 := Entry(w, PhyAddr(e3), Index(2, vpn));
    if !Leads(e2) then None else
    var e1 := Entry(w, PhyAddr(e2), Index(1, vpn));
    if !Present(e1) then None
    else Some(Grant(PhyAddr(e1), Both(Both(RightsOf(e4), RightsOf(e3)), Both(RightsOf(e2), RightsOf(e1)))))
  }

  /** What a mapping grants by itself. */
  function Granted(m: Option<Mapping>): Option<Grant> {
    match m
    case None => None
    case Some(mapping) => Some(Grant(mapping.addr, RightsOf(mapping.flag)))
  }

  lemma StepPasses(w: Mem, root: int, tab: map<Key, int>, level: int, vpn: int)
    requires Tree(w, root, tab) && 2 <= level <= 4 && 0 <= vpn < VPN_LIMIT && KeyOf(level, vpn) in tab
    ensures var e := Entry(w, tab[KeyOf(level, vpn)], Index(level, vpn)); Present(e) ==> Passes(e)
  {
    StepDown(level, vpn);
    assert EntryOk(w, tab, KeyOf(level, vpn), Index(level, vpn));
  }

  /** Under the tree the tables take nothing away: the processor finds each page where the walk of the code does, with
      exactly the rights of the page's own flags. */
  lemma AccessIsLeaf(w: Mem, root: int, tab: map<Key, int>, vpn: int)
    requires Tree(w, root, tab) && 0 <= vpn < VPN_LIMIT
    ensures Access(w, root, vpn) == Granted(Translate(w, root, vpn))
  {
    ParentsOfPage(w, root, tab, vpn);
    WalkStep(w, root, tab, 4, vpn);
    StepPasses(w, root, tab, 4, vpn);
    if KeyOf(3, vpn) in tab {
      WalkStep(w, root, tab, 3, vpn);
      StepPasses(w, root, tab, 3, vpn);
      if KeyOf(2, vpn) in tab {
        WalkStep(w, root, tab, 2, vpn);
        StepPasses(w, root, tab, 2, vpn);
        if KeyOf(1, vpn) in tab {
          RightsAreFlags(Entry(w, tab[KeyOf(1, vpn)], Index(1, vpn)));
        }
      }
    }
  }

  // ----- growing the tree by one table -----

  /** __init_table on the first `n` entries. */
  function Filled(w: Mem, table: int, n: nat, value: int): Mem {
    if n == 0 then w else Filled(w, table, n - 1, value)[EntryAt(table, n - 1) := value]
  }

  lemma {:induction false} FilledAt(w: Mem, table: int, n: nat, value: int, a: int)
    ensures Ld(Filled(w, table, n, value), a) ==
            if EntryAt(table, 0) <= a < EntryAt(table, n) && (a - EntryAt(table, 0)) % 8 == 0 then value else Ld(w, a)
  {
    if n > 0 {
      FilledAt(w, table, n - 1, value, a);
    }
  }

  function Grown(w: Mem, parent: int, i: int, table: int): Mem {
    Filled(w, table, ENTRIES, DEFAULT_EMPTY_FLAG)
      [EntryAt(parent, i) := MkEntry(if table >= 0 then table else 0, DEFAULT_PT_FLAG)]
  }

  lemma GrownEntries(w: Mem, parent: int, i: int, table: int, t: int, j: int)
    requires FitsTable(parent) && FitsTable(table) && FitsTable(t) && parent != table
    requires 0 <= i < ENTRIES && 0 <= j < ENTRIES
    ensures Entry(Grown(w, parent, i, table), t, j) ==
            if t == parent && j == i then MkEntry(table, DEFAULT_PT_FLAG)
            else if t == table then DEFAULT_EMPTY_FLAG
            else Entry(w, t, j)
  {
    FilledAt(w, table, ENTRIES, DEFAULT_EMPTY_FLAG, EntryAt(t, j));
    if EntryAt(t, j) == EntryAt(parent, i) {
      EntriesApart(t, j, parent, i);
    }
    if EntryAt(table, 0) <= EntryAt(t, j) < EntryAt(table, ENTRIES) {
      assert t == table;
    }
  }

  /** A fresh page, filled with empty entries and linked in where the tree has none, extends the tree by
      one table and changes what no page translates to. */
  lemma GrowTree(w: Mem, root: int, tab: map<Key, int>, k: Key, i: int, table: int)
    requires Tree(w, root, tab) && k in tab && k.level > 1 && 0 <= i < ENTRIES
    requires Slot(k, i) !in tab && FitsTable(table) && table !in tab.Values
    ensures Tree(Grown(w, tab[k], i, table), root, tab[Slot(k, i) := table])
  {
    var n, tab' := Grown(w, tab[k], i, table), tab[Slot(k, i) := table];
    forall c, c' | c in tab' && c' in tab' ensures Distinct(tab', c, c') {
      assert c in tab && c' in tab ==> Distinct(tab, c, c');
      assert c in tab ==> tab[c] in tab.Values;
      assert c' in tab ==> tab[c'] in tab.Values;
    }
    forall c | c in tab' && c.level < 4 ensures HasParent(tab', c) {
      SlotsDiffer(k, i, k, i);
      assert c in tab ==> HasParent(tab, c);
    }
    forall c, j | c in tab' && c.level > 1 && 0 <= j < ENTRIES ensures EntryOk(n, tab', c, j) {
      GrownEntryOk(w, root, tab, k, i, table, c, j);
    }
  }

  lemma GrownEntryOk(w: Mem, root: int, tab: map<Key, int>, k: Key, i: int, table: int, c: Key, j: int)
    requires Tree(w, root, tab) && k in tab && k.level > 1 && 0 <= i < ENTRIES
    requires Slot(k, i) !in tab && FitsTable(table) && table !in tab.Values
    requires c in tab[Slot(k, i) := table] && c.level > 1 && 0 <= j < ENTRIES
    ensures EntryOk(Grown(w, tab[k], i, table), tab[Slot(k, i) := table], c, j)
  {
    var tab' := tab[Slot(k, i) := table];
    assert tab[k] != table;
    GrownEntries(w, tab[k], i, table, tab'[c], j);
    DefaultFlags();
    EntryReadsBack(table, DEFAULT_PT_FLAG);
    TableEntryPasses(table);
    if c == Slot(k, i) {
      // A table below the new one would have had it as its parent.
      assert Slot(c, j) !in tab' by {
        SlotsDiffer(c, j, c, j);
        assert Slot(c, j).level < 4;
        assert Slot(c, j) in tab ==> HasParent(tab, Slot(c, j));
      }
    } else {
      assert EntryOk(w, tab, c, j);
      if Slot(c, j) == Slot(k, i) {
        SlotsDiffer(c, j, k, i);
      } else {
        assert Distinct(tab, c, k);
      }
    }
  }

  lemma GrowKeepsView(w: Mem, root: int, tab: map<Key, int>, k: Key, i: int, table: int, vpn: int)
    requires Tree(w, root, tab) && k in tab && k.level > 1 && 0 <= i < ENTRIES && 0 <= vpn < VPN_LIMIT
    requires Slot(k, i) !in tab && FitsTable(table) && table !in tab.Values
    ensures View(Grown(w, tab[k], i, table), tab[Slot(k, i) := table], vpn) == View(w, tab, vpn)
  {
    var tab' := tab[Slot(k, i) := table];
    DefaultFlags();
    if KeyOf(1, vpn) in tab' {
      assert tab[k] != table;
      GrownEntries(w, tab[k], i, table, tab'[KeyOf(1, vpn)], Index(1, vpn));
      assert KeyOf(1, vpn) in tab ==> Distinct(tab, KeyOf(1, vpn), k);
    }
  }

  // ----- writing a page's entry -----

  lemma SetEntryOther(w: Mem, t: int, i: int, e: int, t': int, i': int)
    requires FitsTable(t) && FitsTable(t') && 0 <= i < ENTRIES && 0 <= i' < ENTRIES && !(t == t' && i == i')
    ensures Entry(w[EntryAt(t, i) := e], t', i') == Entry(w, t', i')
  {
  }

  /** Writing the entry of one page keeps the tree, and changes what that page alone translates to. */
  lemma SetLeaf(w: Mem, root: int, tab: map<Key, int>, vpn: int, e: nat)
    requires Tree(w, root, tab) && 0 <= vpn < VPN_LIMIT && KeyOf(1, vpn) in tab
    ensures Tree(w[EntryAt(tab[KeyOf(1, vpn)], Index(1, vpn)) := e], root, tab)
  {
    var t := tab[KeyOf(1, vpn)];
    var n := w[EntryAt(t, Index(1, vpn)) := e];
    forall k, i | k in tab && k.level > 1 && 0 <= i < ENTRIES ensures EntryOk(n, tab, k, i) {
      assert Distinct(tab, k, KeyOf(1, vpn));
      SetEntryOther(w, t, Index(1, vpn), e, tab[k], i);
      assert EntryOk(w, tab, k, i);
    }
  }

  lemma SetLeafView(w: Mem, root: int, tab: map<Key, int>, vpn: int, e: nat, vpn': int)
    requires Tree(w, root, tab) && 0 <= vpn < VPN_LIMIT && KeyOf(1, vpn) in tab && 0 <= vpn' < VPN_LIMIT
    ensures View(w[EntryAt(tab[KeyOf(1, vpn)], Index(1, vpn)) := e], tab, vpn') ==
            if vpn' == vpn then Leaf(e) else View(w, tab, vpn')
  {
    if vpn' != vpn && KeyOf(1, vpn') in tab {
      assert Distinct(tab, KeyOf(1, vpn), KeyOf(1, vpn'));
      if tab[KeyOf(1, vpn)] == tab[KeyOf(1, vpn')] && Index(1, vpn) == Index(1, vpn') {
        PageIsLeaf(vpn, vpn');
      }
      SetEntryOther(w, tab[KeyOf(1, vpn)], Index(1, vpn), e, tab[KeyOf(1, vpn')], Index(1, vpn'));
    }
  }
}
