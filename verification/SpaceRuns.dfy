/** Who holds which page, on values: free pages, page tables, clients of the allocator, and memory maps. */
module Holdings {
  import opened Memory
  import opened PageBlocks
  import opened PagePool
  import opened TableTree
  import opened PagingSteps
  import opened VmEntries
  import opened VmPages
  import opened VmCopies
  import PoolRuns
  import Lists

  /** The pages of all maps. */
  ghost function MapPages(maps: seq<seq<VmEntry>>): set<int> {
    if maps == [] then {} else MapPages(maps[..|maps| - 1]) + PagesOf(maps[|maps| - 1])
  }

  /** The entries of a map lie in page-aligned blocks of physical memory that share no page, and have 64-bit
      addresses. */
  ghost predicate Proper(es: seq<VmEntry>) {
    Placed(es) && NoSharing(es) && forall e | e in es :: e.virt < TWO64
  }

  ghost predicate MapsApart(maps: seq<seq<VmEntry>>, i: nat, j: nat)
    requires i < |maps| && j < |maps|
  {
    PagesOf(maps[i]) !! PagesOf(maps[j])
  }

  ghost predicate AllMapsApart(maps: seq<seq<VmEntry>>) {
    forall i: nat, j: nat {:trigger MapsApart(maps, i, j)} | i < j < |maps| :: MapsApart(maps, i, j)
  }

  /** The pages `data` are shared out: each belongs to exactly one grant, or to exactly one entry of exactly one map. */
  ghost predicate Parted(data: set<int>, grants: seq<Block>, maps: seq<seq<VmEntry>>) {
    && (var all := PoolRuns.Granted(grants) + MapPages(maps); all == data) && PoolRuns.Granted(grants) !! MapPages(maps)
    && PoolRuns.AllApart(grants) && AllMapsApart(maps)
    && (forall i | 0 <= i < |grants| :: WellPlaced(grants[i]) && grants[i].base % PAGE_SIZE == 0)
    && (forall i | 0 <= i < |maps| :: Proper(maps[i]))
  }

  lemma {:induction false} MapIsMapped(maps: seq<seq<VmEntry>>, m: nat)
    requires m < |maps|
    ensures PagesOf(maps[m]) <= MapPages(maps)
  {
    if m < |maps| - 1 {
      MapIsMapped(maps[..|maps| - 1], m);
    }
  }

  lemma {:induction false} MapOf(maps: seq<seq<VmEntry>>, p: int) returns (m: nat)
    requires p in MapPages(maps)
    ensures m < |maps| && p in PagesOf(maps[m])
  {
    if p in PagesOf(maps[|maps| - 1]) {
      m := |maps| - 1;
    } else {
      m := MapOf(maps[..|maps| - 1], p);
    }
  }

  lemma OtherMap(maps: seq<seq<VmEntry>>, m: nat, k: nat, p: int)
    requires AllMapsApart(maps) && m < |maps| && k < |maps| && m != k && p in PagesOf(maps[k])
    ensures p !in PagesOf(maps[m])
  {
    assert if k < m then MapsApart(maps, k, m) else MapsApart(maps, m, k);
  }

  /** Giving one map other entries exchanges its pages for theirs. */
  lemma MapPagesChanged(maps: seq<seq<VmEntry>>, m: nat, es: seq<VmEntry>)
    requires AllMapsApart(maps) && m < |maps|
    ensures MapPages(maps[m := es]) == MapPages(maps) - PagesOf(maps[m]) + PagesOf(es)
  {
    var after := maps[m := es];
    forall p | p in MapPages(after) ensures p in MapPages(maps) - PagesOf(maps[m]) + PagesOf(es) {
      var k := MapOf(after, p);
      if k != m {
        MapIsMapped(maps, k);
        OtherMap(maps, m, k, p);
      }
    }
    MapIsMapped(after, m);
    forall p | p in MapPages(maps) && p !in PagesOf(maps[m]) ensures p in MapPages(after) {
      var k := MapOf(maps, p);
      MapIsMapped(after, k);
    }
  }

  /** One map changes to pages that no other map has. */
  lemma ChangedApart(maps: seq<seq<VmEntry>>, m: nat, es: seq<VmEntry>)
    requires AllMapsApart(maps) && m < |maps|
    requires forall p | p in PagesOf(es) :: p in PagesOf(maps[m]) || p !in MapPages(maps)
    ensures AllMapsApart(maps[m := es])
  {
    var after := maps[m := es];
    forall i: nat, j: nat | i < j < |after| ensures MapsApart(after, i, j) {
      assert MapsApart(maps, i, j);
      MapIsMapped(maps, i);
      MapIsMapped(maps, j);
    }
  }

  /** A grant becomes an entry of a map. */
  lemma AddParted(data: set<int>, grants: seq<Block>, maps: seq<seq<VmEntry>>, j: nat, m: nat, e: VmEntry)
    requires Parted(data, grants, maps) && j < |grants| && m < |maps| && Pages(e) == grants[j] && e.virt < TWO64
    ensures Parted(data, Lists.Remove(grants, j), maps[m := maps[m] + [e]])
  {
    var es := maps[m] + [e];
    PoolRuns.GrantedWithout(grants, j);
    PoolRuns.GrantIsGranted(grants, j);
    MapIsMapped(maps, m);
    PagesOfNext(maps[m], e);
    NoSharingNext(maps[m], e);
    MapPagesChanged(maps, m, es);
    ChangedApart(maps, m, es);
    RestApart(grants, j);
  }

  lemma RestApart(grants: seq<Block>, j: nat)
    requires PoolRuns.AllApart(grants) && j < |grants|
    ensures PoolRuns.AllApart(Lists.Remove(grants, j))
  {
    var rest := Lists.Remove(grants, j);
    forall i: nat, k: nat | i < k < |rest| ensures PoolRuns.PagesApart(rest, i, k) {
      assert PoolRuns.PagesApart(grants, if i < j then i else i + 1, if k < j then k else k + 1);
    }
  }

  /** A new map, over pages that nobody held. */
  lemma NewMapParted(data: set<int>, grants: seq<Block>, maps: seq<seq<VmEntry>>, es: seq<VmEntry>)
    requires Parted(data, grants, maps) && Proper(es) && PagesOf(es) !! data
    ensures Parted(data + PagesOf(es), grants, maps + [es])
  {
    var after := maps + [es];
    assert after[..|maps|] == maps;
    forall i: nat, j: nat | i < j < |after| ensures MapsApart(after, i, j) {
      MapIsMapped(maps, i);
      assert j < |maps| ==> MapsApart(maps, i, j);
    }
  }

  lemma EmptyMapParted(data: set<int>, grants: seq<Block>, maps: seq<seq<VmEntry>>)
    requires Parted(data, grants, maps)
    ensures Parted(data, grants, maps + [[]])
  {
    assert PagesOf([]) == {};
    NewMapParted(data, grants, maps, []);
  }

  /** A map is emptied, and its pages are held no more. */
  lemma ClearParted(data: set<int>, grants: seq<Block>, maps: seq<seq<VmEntry>>, m: nat)
    requires Parted(data, grants, maps) && m < |maps|
    ensures Parted(data - PagesOf(maps[m]), grants, maps[m := []])
  {
    MapIsMapped(maps, m);
    MapPagesChanged(maps, m, []);
    ChangedApart(maps, m, []);
    assert PagesOf([]) == {};
  }

  // ----- The whole pool -----

  /** Every managed page is free, or holds a table, or belongs to a grant, or to a map, and to one of these only. */
  ghost predicate Partition(managed: set<int>, free: set<int>, tables: set<int>, granted: set<int>, mapped: set<int>) {
    && free !! tables && free !! granted && free !! mapped && tables !! granted && tables !! mapped && granted !! mapped
    && (var all := free + tables + granted + mapped; all == managed)
  }

  /** No table is free: for page-aligned tables it is enough to look at whole pages. */
  lemma TablesNotFree(bs: seq<Block>, tab: map<Key, int>)
    requires TablesHeld(bs, tab)
    ensures FreePages(bs) !! TablePages(tab)
  {
  }

  lemma NotFreeIsHeld(bs: seq<Block>, tab: map<Key, int>)
    requires Sorted(bs) && PageAligned(bs) && FreePages(bs) !! TablePages(tab)
    requires forall k | k in tab :: tab[k] % PAGE_SIZE == 0
    ensures TablesHeld(bs, tab)
  {
    forall k | k in tab ensures !Covers(bs, tab[k] + PHY_MAP_BASE) {
      assert tab[k] + PHY_MAP_BASE in TablePages(tab);
      if Covers(bs, tab[k] + PHY_MAP_BASE) {
        CoveredPageIsFree(bs, tab[k] + PHY_MAP_BASE);
        assert false;
      }
    }
  }

  lemma PartitionIs(managed: set<int>, bs: seq<Block>, tab: map<Key, int>, grants: seq<Block>, maps: seq<seq<VmEntry>>)
    requires FreePages(bs) <= managed && TablesHeld(bs, tab)
    requires Parted(managed - FreePages(bs) - TablePages(tab), grants, maps)
    ensures Partition(managed, FreePages(bs), TablePages(tab) * managed, PoolRuns.Granted(grants), MapPages(maps))
  {
    TablesNotFree(bs, tab);
  }

  /** What clients take and give back stays within the free pages and the grants. */
  lemma RequestParted(managed: set<int>, bs: seq<Block>, cs: seq<Block>, tab: map<Key, int>, pages: set<int>,
                      grants: seq<Block>, after: seq<Block>, maps: seq<seq<VmEntry>>)
    requires FreePages(bs) <= managed && TablesHeld(bs, tab)
    requires Parted(managed - FreePages(bs) - TablePages(tab), grants, maps)
    requires pages == FreePages(bs) + PoolRuns.Granted(grants) && PoolRuns.Shared(pages, cs, after)
    requires Sorted(cs) && PageAligned(cs) && forall k | k in tab :: tab[k] % PAGE_SIZE == 0
    ensures TablesHeld(cs, tab) && Parted(managed - FreePages(cs) - TablePages(tab), after, maps)
  {
    TablesNotFree(bs, tab);
    NotFreeIsHeld(cs, tab);
  }

  /** The grants and the free pages share out what no table and no map has. */
  lemma ClientsShare(managed: set<int>, bs: seq<Block>, tab: map<Key, int>, grants: seq<Block>, maps: seq<seq<VmEntry>>)
    requires FreePages(bs) <= managed && Parted(managed - FreePages(bs) - TablePages(tab), grants, maps)
    ensures PoolRuns.Shared(FreePages(bs) + PoolRuns.Granted(grants), bs, grants)
    ensures FreePages(bs) + PoolRuns.Granted(grants) <= managed
  {
  }

  /** A copy is as proper as its original. */
  lemma CopyIsProper(w0: Mem, free0: set<int>, olds: seq<VmEntry>, w: Mem, free: set<int>, news: seq<VmEntry>)
    requires CopiedSoFar(w0, free0, olds, w, free, news) && Proper(olds)
    ensures Proper(news)
  {
    forall e | e in news ensures e.virt < TWO64 {
      var i :| 0 <= i < |news| && e == news[i];
      assert CopyOf(w0, w, olds[i], news[i]);
    }
  }
}

/** Every run of everything that takes pages: clients of the allocator, mapping, and the life of memory maps. */
module SpaceRuns {
  import opened PageBlocks
  import opened TableTree
  import opened Paging
  import opened PagingSteps
  import opened Ranges
  import opened VmEntries
  import opened VmPages
  import opened VmMaps
  import opened Holdings
  import Lists
  import PoolRuns

  datatype Op =
    | Request(request: PoolRuns.Op)
    | MapRange(virt: nat, phy: nat, pages: nat, flags: nat)
    | NewMap(head: int)
    | AddTo(m: nat, j: nat, virt: nat, flags: nat)
    | MapAll(m: nat)
    | Copy(m: nat, head: int)
    | Clear(m: nat)

  /** Addresses are 64-bit words. */
  predicate Legal(op: Op) {
    match op
    case MapRange(virt, phy, _, _) => virt < TWO64 && phy < TWO64
    case AddTo(_, _, virt, _) => virt < TWO64
    case _ => true
  }

  /** A mapping comes to its end: its ranges can be read back, and there is a page for every table that is missing. */
  ghost predicate Finishes(op: Op, held: seq<seq<VmEntry>>, tables: set<Key>, available: int) {
    match op
    case MapRange(virt, phy, pages, flags) =>
      Mappable(phy, pages, flags) && |Needed(virt, pages) - tables| <= available
    case MapAll(m) => m < |held| ==> CanMap(held[m], tables, available)
    case _ => true
  }

  ghost function Owned(maps: seq<VmMap>): set<object> {
    (set m | m in maps :: m.list as object) + (set m | m in maps :: m.list.ram as object)
  }

  /** The maps are lists apart from one another, and hold the entries `held`. */
  ghost predicate Live(space: AddressSpace, maps: seq<VmMap>, held: seq<seq<VmEntry>>)
    reads Owned(maps)
  {
    && |maps| == |held|
    && (forall i | 0 <= i < |maps| :: maps[i].space == space && maps[i].list.Valid() && maps[i].list.items == held[i])
    && (forall i, j | 0 <= i < j < |maps| :: maps[i].list != maps[j].list && maps[i].list.ram != maps[j].list.ram)
  }

  ghost predicate Sharing(space: AddressSpace, grants: seq<Block>, maps: seq<VmMap>, held: seq<seq<VmEntry>>)
    reads space, space.pool, Owned(maps)
  {
    space.Valid() && Live(space, maps, held) && Parted(space.DataPages(), grants, held)
  }

  /** page_alloc and page_free. */
  method DoRequest(space: AddressSpace, request: PoolRuns.Op, grants: seq<Block>, ghost held: seq<seq<VmEntry>>)
    returns (after: seq<Block>)
    requires space.Valid() && Parted(space.DataPages(), grants, held)
    modifies space.pool
    ensures space.Valid() && Parted(space.DataPages(), after, held)
    ensures Effect(Request(request), true, old(space.pool.blocks), grants, held, after, held)
  {
    ghost var pages := FreePages(space.pool.blocks) + PoolRuns.Granted(grants);
    ClientsShare(space.pool.managed, space.pool.blocks, space.tab, grants, held);
    after := PoolRuns.Step(space.pool, request, grants, pages);
    RequestParted(space.pool.managed, old(space.pool.blocks), space.pool.blocks, space.tab, pages, grants, after, held);
  }

  /** The maps after one of them changed, as long as it is apart from the others. */
  lemma LiveChanged(space: AddressSpace, maps: seq<VmMap>, held: seq<seq<VmEntry>>, m: nat, es: seq<VmEntry>)
    requires |maps| == |held| && m < |maps| && maps[m].list.Valid() && maps[m].list.items == es
    requires forall i | 0 <= i < |maps| :: maps[i].space == space
    requires forall i | 0 <= i < |maps| && i != m :: maps[i].list.Valid() && maps[i].list.items == held[i]
    requires forall i, j | 0 <= i < j < |maps| :: maps[i].list != maps[j].list && maps[i].list.ram != maps[j].list.ram
    ensures Live(space, maps, held[m := es])
  {
  }

  /** The physical address of a grant. */
  function Phy(grant: Block): nat
    requires WellPlaced(grant)
  {
    grant.base - PHY_MAP_BASE
  }

  /** vm_map_add of the pages of a grant. */
  method DoAdd(space: AddressSpace, grants: seq<Block>, maps: seq<VmMap>, ghost held: seq<seq<VmEntry>>, m: nat, j: nat,
               virt: nat, flags: nat) returns (after: seq<Block>, ghost now: seq<seq<VmEntry>>)
    requires Sharing(space, grants, maps, held) && m < |maps| && j < |grants| && virt < TWO64
    modifies maps[m].list, maps[m].list.ram
    ensures Sharing(space, after, maps, now) && after == Lists.Remove(grants, j)
    ensures now == held[m := held[m] + [VmEntry(virt, Phy(grants[j]), grants[j].length, flags)]]
  {
    var e := VmEntry(virt, Phy(grants[j]), grants[j].length, flags);
    AddParted(space.DataPages(), grants, held, j, m, e);
    maps[m].Add(e);
    after, now := Lists.Remove(grants, j), held[m := held[m] + [e]];
    LiveChanged(space, maps, held, m, now[m]);
  }

  /** vm_map_clear. */
  method DoClear(space: AddressSpace, ghost grants: seq<Block>, maps: seq<VmMap>, ghost held: seq<seq<VmEntry>>, m: nat)
    returns (ghost now: seq<seq<VmEntry>>)
    requires Sharing(space, grants, maps, held) && m < |maps|
    modifies maps[m].list, maps[m].list.ram, space.pool
    ensures Sharing(space, grants, maps, now) && now == held[m := []]
  {
    MapIsMapped(held, m);
    ClearParted(space.DataPages(), grants, held, m);
    maps[m].Clear();
    now := held[m := []];
    LiveChanged(space, maps, held, m, []);
  }

  /** vm_map_init and vm_map_dup: the copy has pages that nobody held. */
  method Duplicate(from: VmMap, head: int) returns (ok: bool, copy: VmMap)
    requires from.list.Valid() && from.space.Valid() && Proper(from.list.items)
    requires PagesOf(from.list.items) <= from.space.DataPages()
    modifies from.space`w, from.space.pool
    ensures fresh(copy.list) && fresh(copy.list.ram) && copy.space == from.space
    ensures copy.list.Valid() && from.space.Valid() && (ok <==> |copy.list.items| == |from.list.items|)
    ensures Proper(copy.list.items) && PagesOf(copy.list.items) !! old(from.space.DataPages())
    ensures from.space.DataPages() == old(from.space.DataPages()) + PagesOf(copy.list.items)
  {
    var space := from.space;
    copy := new VmMap(space, head);
    ok := copy.Dup(from);
    CopyIsProper(old(space.w), FreePages(old(space.pool.blocks)), from.list.items, space.w,
                 FreePages(space.pool.blocks), copy.list.items);
  }

  /** The maps with a new one. */
  lemma LiveMore(space: AddressSpace, maps: seq<VmMap>, held: seq<seq<VmEntry>>, copy: VmMap)
    requires Live(space, maps, held) && copy.space == space && copy.list.Valid()
    requires forall i | 0 <= i < |maps| :: maps[i].list != copy.list && maps[i].list.ram != copy.list.ram
    ensures Live(space, maps + [copy], held + [copy.list.items])
  {
  }

  lemma OwnedMore(maps: seq<VmMap>, map': VmMap)
    ensures Owned(maps + [map']) == Owned(maps) + {map'.list as object, map'.list.ram}
  {
  }

  method DoCopy(space: AddressSpace, ghost grants: seq<Block>, maps: seq<VmMap>, ghost held: seq<seq<VmEntry>>, m: nat,
                head: int) returns (ok: bool, copy: VmMap)
    requires Sharing(space, grants, maps, held) && m < |maps|
    modifies space`w, space.pool
    ensures fresh(Owned(maps + [copy]) - Owned(maps))
    ensures Sharing(space, grants, maps + [copy], held + [copy.list.items])
    ensures ok <==> |copy.list.items| == |held[m]|
  {
    MapIsMapped(held, m);
    ok, copy := Duplicate(maps[m], head);
    LiveMore(space, maps, held, copy);
    OwnedMore(maps, copy);
    NewMapParted(old(space.DataPages()), grants, held, copy.list.items);
  }

  /** vm_map_init. */
  method DoNew(space: AddressSpace, ghost grants: seq<Block>, maps: seq<VmMap>, ghost held: seq<seq<VmEntry>>,
               head: int)
    returns (map': VmMap)
    requires Sharing(space, grants, maps, held)
    ensures fresh(Owned(maps + [map']) - Owned(maps))
    ensures Sharing(space, grants, maps + [map'], held + [[]])
  {
    map' := new VmMap(space, head);
    LiveMore(space, maps, held, map');
    OwnedMore(maps, map');
    EmptyMapParted(space.DataPages(), grants, held);
  }

  /** modify_chunk_mapping: whatever comes of it, nobody gains or loses a page. */
  method DoRange(space: AddressSpace, op: Op, ghost grants: seq<Block>, maps: seq<VmMap>, ghost held: seq<seq<VmEntry>>)
    returns (ok: bool)
    requires Sharing(space, grants, maps, held) && Legal(op) && op.MapRange?
    modifies space`w, space`tab, space.pool
    ensures Sharing(space, grants, maps, held)
    ensures ok <==> Finishes(op, held, old(space.tab.Keys), old(space.pool.available))
  {
    var r := space.ModifyChunkMapping(op.virt, op.phy, op.pages, op.flags);
    ok := r.Done?;
  }

  /** vm_map_do_mapping: the same. */
  method DoMapAll(space: AddressSpace, op: Op, ghost grants: seq<Block>, maps: seq<VmMap>,
                  ghost held: seq<seq<VmEntry>>)
    returns (ok: bool)
    requires Sharing(space, grants, maps, held) && op.MapAll? && op.m < |maps|
    modifies space`w, space`tab, space.pool
    ensures Sharing(space, grants, maps, held)
    ensures ok <==> Finishes(op, held, old(space.tab.Keys), old(space.pool.available))
  {
    var r := maps[op.m].DoMapping();
    ok := r.Done?;
  }

  /** What one step does to the holdings of clients and maps, when `bs` is the free list before it. An index that names
      nothing names no pages. */
  ghost predicate Effect(op: Op, ok: bool, bs: seq<Block>, grants: seq<Block>, held: seq<seq<VmEntry>>,
                         grants': seq<Block>, held': seq<seq<VmEntry>>)
    requires forall i | 0 <= i < |grants| :: WellPlaced(grants[i])
  {
    match op
    case Request(Take(size)) =>
      && held' == held
      && if size == 0 || !exists a :: FreeRun(bs, a, size) then grants' == grants
         else |grants'| == |grants| + 1 && grants <= grants' && grants'[|grants|].length == size
    case Request(Give(j)) => held' == held && grants' == if j < |grants| then Lists.Remove(grants, j) else grants
    case AddTo(m, j, virt, flags) =>
      if m < |held| && j < |grants| then
        && grants' == Lists.Remove(grants, j)
        && held' == held[m := held[m] + [VmEntry(virt, Phy(grants[j]), grants[j].length, flags)]]
      else grants' == grants && held' == held
    case NewMap(_) => grants' == grants && held' == held + [[]]
    case Copy(m, _) =>
      && grants' == grants
      && if m < |held| then |held'| == |held| + 1 && held <= held' && (ok <==> |held'[|held|]| == |held[m]|)
         else held' == held && ok
    case Clear(m) => grants' == grants && held' == if m < |held| then held[m := []] else held
    case _ => grants' == grants && held' == held
  }

  /** The steps that make a map. */
  method AddMap(space: AddressSpace, op: Op, grants: seq<Block>, maps: seq<VmMap>, ghost held: seq<seq<VmEntry>>)
    returns (ok: bool, maps': seq<VmMap>, ghost held': seq<seq<VmEntry>>)
    requires Sharing(space, grants, maps, held) && (op.NewMap? || op.Copy?)
    modifies space`w, space.pool
    ensures Sharing(space, grants, maps', held') && fresh(Owned(maps') - Owned(maps))
    ensures Effect(op, ok, old(space.pool.blocks), grants, held, grants, held') && (op.NewMap? ==> ok)
  {
    ok, maps', held' := true, maps, held;
    if op.NewMap? {
      var more := DoNew(space, grants, maps, held, op.head);
      maps', held' := maps + [more], held + [[]];
    } else if op.m < |maps| {
      var copy;
      ok, copy := DoCopy(space, grants, maps, held, op.m, op.head);
      maps', held' := maps + [copy], held + [copy.list.items];
    }
  }

  /** The steps that change a map. */
  method ChangeMap(space: AddressSpace, op: Op, grants: seq<Block>, maps: seq<VmMap>, ghost held: seq<seq<VmEntry>>)
    returns (grants': seq<Block>, ghost held': seq<seq<VmEntry>>)
    requires Sharing(space, grants, maps, held) && Legal(op) && (op.AddTo? || op.Clear?)
    modifies space.pool, Owned(maps)
    ensures Sharing(space, grants', maps, held')
    ensures Effect(op, true, old(space.pool.blocks), grants, held, grants', held')
  {
    grants', held' := grants, held;
    if op.m < |maps| {
      if op.Clear? {
        held' := DoClear(space, grants, maps, held, op.m);
      } else if op.j < |grants| {
        grants', held' := DoAdd(space, grants, maps, held, op.m, op.j, op.virt, op.flags);
      }
    }
  }

  /** The steps that leave the maps as they are. */
  method StepPages(space: AddressSpace, op: Op, grants: seq<Block>, maps: seq<VmMap>, ghost held: seq<seq<VmEntry>>)
    returns (ok: bool, grants': seq<Block>)
    requires Sharing(space, grants, maps, held) && Legal(op) && (op.Request? || op.MapRange? || op.MapAll?)
    modifies space`w, space`tab, space.pool
    ensures Sharing(space, grants', maps, held)
    ensures Effect(op, ok, old(space.pool.blocks), grants, held, grants', held)
    ensures ok <==> Finishes(op, held, old(space.tab.Keys), old(space.pool.available))
  {
    ok, grants' := true, grants;
    if op.Request? {
      grants' := DoRequest(space, op.request, grants, held);
    } else if op.MapRange? {
      ok := DoRange(space, op, grants, maps, held);
    } else if op.m < |maps| {
      ok := DoMapAll(space, op, grants, maps, held);
    }
  }

  /** The steps that make a map, or change one. */
  method StepMaps(space: AddressSpace, op: Op, grants: seq<Block>, maps: seq<VmMap>, ghost held: seq<seq<VmEntry>>)
    returns (ok: bool, grants': seq<Block>, maps': seq<VmMap>, ghost held': seq<seq<VmEntry>>)
    requires Sharing(space, grants, maps, held) && Legal(op) && !op.Request? && !op.MapRange? && !op.MapAll?
    modifies space`w, space.pool, Owned(maps)
    ensures Sharing(space, grants', maps', held') && fresh(Owned(maps') - Owned(maps))
    ensures Effect(op, ok, old(space.pool.blocks), grants, held, grants', held')
    ensures !op.Copy? ==> ok
  {
    ok, grants', maps', held' := true, grants, maps, held;
    if op.NewMap? || op.Copy? {
      ok, maps', held' := AddMap(space, op, grants, maps, held);
    } else {
      grants', held' := ChangeMap(space, op, grants, maps, held);
    }
  }

  /** One step of the run; `ok` is false where the machine stops in an assertion. */
  method Step(space: AddressSpace, op: Op, grants: seq<Block>, maps: seq<VmMap>, ghost held: seq<seq<VmEntry>>)
    returns (ok: bool, grants': seq<Block>, maps': seq<VmMap>, ghost held': seq<seq<VmEntry>>)
    requires Sharing(space, grants, maps, held) && Legal(op)
    modifies space`w, space`tab, space.pool, Owned(maps)
    ensures Sharing(space, grants', maps', held') && fresh(Owned(maps') - Owned(maps))
    ensures Effect(op, ok, old(space.pool.blocks), grants, held, grants', held')
    ensures !op.Copy? ==> (ok <==> Finishes(op, held, old(space.tab.Keys), old(space.pool.available)))
  {
    if op.Request? || op.MapRange? || op.MapAll? {
      maps', held' := maps, held;
      ok, grants' := StepPages(space, op, grants, maps, held);
    } else {
      ok, grants', maps', held' := StepMaps(space, op, grants, maps, held);
    }
  }

  lemma NothingHeld()
    ensures Parted({}, [], [])
  {
  }

  /** The steps one after the other, until the machine stops. */
  method Steps(space: AddressSpace, ops: seq<Op>, grants: seq<Block>, maps: seq<VmMap>, ghost held: seq<seq<VmEntry>>)
    returns (grants': seq<Block>, maps': seq<VmMap>, ghost held': seq<seq<VmEntry>>)
    requires Sharing(space, grants, maps, held) && forall op | op in ops :: Legal(op)
    modifies space`w, space`tab, space.pool, Owned(maps)
    ensures Sharing(space, grants', maps', held')
    decreases |ops|
  {
    grants', maps', held' := grants, maps, held;
    if ops != [] {
      assert Legal(ops[0]);
      var ok;
      ok, grants', maps', held' := Step(space, ops[0], grants, maps, held);
      if ok {
        grants', maps', held' := Steps(space, ops[1..], grants', maps', held');
      }
    }
  }

  /** Whatever is asked for, given back, mapped, copied and cleared, in whatever order: at every moment each page of the
      pool is free, or holds a table, or belongs to exactly one grant or to exactly one map, and the pool's count is the
      number of free pages. */
  method Run(space: AddressSpace, ops: seq<Op>)
    returns (grants: seq<Block>, maps: seq<VmMap>, ghost held: seq<seq<VmEntry>>)
    requires space.Valid() && space.DataPages() == {} && forall op | op in ops :: Legal(op)
    modifies space`w, space`tab, space.pool
    ensures Sharing(space, grants, maps, held)
    ensures Partition(space.pool.managed, FreePages(space.pool.blocks), TablePages(space.tab) * space.pool.managed,
                      PoolRuns.Granted(grants), MapPages(held))
    ensures space.pool.available == |FreePages(space.pool.blocks)|
  {
    NothingHeld();
    grants, maps, held := Steps(space, ops, [], [], []);
    PartitionIs(space.pool.managed, space.pool.blocks, space.tab, grants, held);
    SumCountsPages(space.pool.blocks);
  }
}
