/** Mapping a range of pages: which pages it writes, what they read back as, how many tables it takes. */
module Ranges {
  import opened Memory
  import opened Entries
  import opened Options
  import opened PageBlocks
  import opened TableTree
  import opened PagingSteps

  /** The page and the physical address that step `i` of __map_by_pages works on; both counters wrap at 64 bits. */
  function VirtAt(v: int, i: int): int { (v + 0x1000 * i) % TWO64 }

  function PageAt(v: int, i: int): int { Vpn(VirtAt(v, i)) }

  function PhysAt(p: int, i: int): nat { (p + 0x1000 * i) % TWO64 }

  /** One 64-bit addition of the page size. */
  function Advance(a: int): nat { (a + 0x1000) % TWO64 }

  lemma NextStep(a: int, i: int)
    ensures VirtAt(a, i + 1) == Advance(VirtAt(a, i))
    ensures PhysAt(a, i + 1) == Advance(PhysAt(a, i))
  {
  }

  lemma FirstStep(a: int)
    requires 0 <= a < TWO64
    ensures VirtAt(a, 0) == a && PhysAt(a, 0) == a
  {
  }

  /** The tables below the root that mapping `n` pages from `v` on needs. */
  function Needed(v: int, n: nat): set<Key> {
    if n == 0 then {} else Needed(v, n - 1) + NeededFor(PageAt(v, n - 1))
  }

  /** The last step of the range that works on page `vpn`. */
  function LastHit(v: int, n: nat, vpn: int): (r: Option<nat>)
    ensures r.Some? ==> r.value < n && PageAt(v, r.value) == vpn
    ensures r.None? ==> forall i | 0 <= i < n :: PageAt(v, i) != vpn
  {
    if n == 0 then None
    else if PageAt(v, n - 1) == vpn then Some(n - 1)
    else LastHit(v, n - 1, vpn)
  }

  /** What page `vpn` translates to after the range is mapped, if it was `was` before. */
  function AfterRange(was: Option<Mapping>, v: int, p: int, n: nat, flag: nat, vpn: int): Option<Mapping> {
    match LastHit(v, n, vpn)
    case None => was
    case Some(i) => Leaf(MkEntry(PhysAt(p, i), flag))
  }

  ghost predicate WroteRange(w: Mem, tab: map<Key, int>, w': Mem, tab': map<Key, int>, v: int, p: int, n: nat,
                             flag: nat) {
    && Extends(tab, tab') && OnlyTables(w, w', tab')
    && forall vpn | 0 <= vpn < VPN_LIMIT :: View(w', tab', vpn) == AfterRange(View(w, tab, vpn), v, p, n, flag, vpn)
  }

  lemma OneMorePage(w: Mem, tab: map<Key, int>, w1: Mem, tab1: map<Key, int>, w2: Mem, tab2: map<Key, int>,
                    v: int, p: int, n: nat, flag: nat)
    requires WroteRange(w, tab, w1, tab1, v, p, n, flag)
    requires Wrote(w1, tab1, w2, tab2, PageAt(v, n), MkEntry(PhysAt(p, n), flag))
    ensures WroteRange(w, tab, w2, tab2, v, p, n + 1, flag)
  {
  }

  lemma {:induction false} NeededGrows(v: int, j: nat, n: nat)
    requires j < n
    ensures Needed(v, j) + NeededFor(PageAt(v, j)) <= Needed(v, n)
  {
    if j + 1 < n {
      NeededGrows(v, j, n - 1);
    }
  }

  /** Tables are taken one for each missing key, so there are enough pages exactly when the missing keys are no more. */
  lemma EnoughPages(before: set<Key>, needed: set<Key>, after: set<Key>, available: int, left: int)
    requires left >= 0 && left + |after| == available + |before| && before <= after
    ensures Took(before, needed, after) ==> |needed - before| <= available
    ensures left == 0 && RanShort(before, needed, after) ==> |needed - before| > available
  {
    assert before + needed == before + (needed - before);
    if after <= before + needed && !(needed <= after) {
      var k :| k in needed && k !in after;
      SubsetSize(after + {k}, before + needed);
    }
  }

  // ----- reading the range back -----

  /** Every page of the range translates to its own physical page with the flags. */
  ghost predicate ReadsBack(w: Mem, root: int, v: int, p: int, n: nat, flag: nat) {
    forall i | 0 <= i < n :: Translate(w, root, PageAt(v, i)) == Some(Mapping(PhysAt(p, i), flag))
  }

  /** A range the address field can hold, with flags the flag mask returns. */
  predicate Mappable(p: int, n: nat, flag: nat) {
    n == 0 || (FitsFlag(flag) && p % 0x1000 == 0 && p + 0x1000 * n <= ADDR_LIMIT)
  }

  lemma PagesDiffer(v: int, i: int, j: int)
    requires 0 <= i < j < i + VPN_LIMIT
    ensures PageAt(v, i) != PageAt(v, j)
  {
    PageNumber(v, i);
    PageNumber(v, j);
    TurnsDiffer(v / 0x1000 + i, v / 0x1000 + j);
  }

  lemma PageNumber(v: int, i: int)
    ensures PageAt(v, i) == (v / 0x1000 + i) % VPN_LIMIT
  {
    var a := v + 0x1000 * i;
    var turns := a / TWO64;
    assert VirtAt(v, i) == a - turns * TWO64;
    assert VirtAt(v, i) / 0x1000 == v / 0x1000 + i - VPN_LIMIT * (turns * 0x1_0000);
  }

  lemma TurnsDiffer(x: int, y: int)
    requires x < y < x + VPN_LIMIT
    ensures x % VPN_LIMIT != y % VPN_LIMIT
  {
  }

  /** Where the loop of __map_by_pages stands after `i` steps: mapped so far, or stopped for want of a page. */
  ghost predicate MappedSoFar(w: Mem, tab: map<Key, int>, available: int, w': Mem, tab': map<Key, int>, available': int,
                              v: int, p: int, n: nat, flag: nat, i: nat, ok: bool)
  {
    && i <= n && available' + |tab'| == available + |tab|
    && Extends(tab, tab') && OnlyTables(w, w', tab')
    && (ok ==> WroteRange(w, tab, w', tab', v, p, i, flag) && Took(tab.Keys, Needed(v, i), tab'.Keys))
    && (!ok ==> available' == 0 && RanShort(tab.Keys, Needed(v, n), tab'.Keys))
  }

  ghost predicate Took(before: set<Key>, needed: set<Key>, after: set<Key>) {
    var all := before + needed; after == all
  }

  lemma KeysTaken(tab0: map<Key, int>, tab: map<Key, int>, needed: set<Key>)
    requires Took(tab0.Keys, needed, tab.Keys)
    ensures |tab| == |tab0| + |needed - tab0.Keys|
  {
  }

  ghost predicate RanShort(before: set<Key>, needed: set<Key>, after: set<Key>) {
    var all := before + needed; after <= all && !(needed <= after)
  }

  lemma NothingMapped(w: Mem, tab: map<Key, int>, available: int, v: int, p: int, n: nat, flag: nat)
    ensures MappedSoFar(w, tab, available, w, tab, available, v, p, n, flag, 0, true)
  {
  }

  lemma OneMoreMapped(w: Mem, tab: map<Key, int>, available: int, w1: Mem, tab1: map<Key, int>, available1: int,
                      w2: Mem, tab2: map<Key, int>, available2: int, v: int, p: int, n: nat, flag: nat, i: nat)
    requires MappedSoFar(w, tab, available, w1, tab1, available1, v, p, n, flag, i, true) && i < n
    requires available2 + |tab2| == available1 + |tab1| && tab2.Keys == tab1.Keys + NeededFor(PageAt(v, i))
    requires Wrote(w1, tab1, w2, tab2, PageAt(v, i), MkEntry(PhysAt(p, i), flag))
    ensures MappedSoFar(w, tab, available, w2, tab2, available2, v, p, n, flag, i + 1, true)
  {
    OneMorePage(w, tab, w1, tab1, w2, tab2, v, p, i, flag);
  }

  lemma NoMoreMapped(w: Mem, tab: map<Key, int>, available: int, w1: Mem, tab1: map<Key, int>, available1: int,
                     w2: Mem, tab2: map<Key, int>, available2: int, v: int, p: int, n: nat, flag: nat, i: nat)
    requires MappedSoFar(w, tab, available, w1, tab1, available1, v, p, n, flag, i, true) && i < n
    requires available2 + |tab2| == available1 + |tab1| && available2 == 0 && Grew(w1, tab1, w2, tab2)
    requires tab2.Keys <= tab1.Keys + NeededFor(PageAt(v, i)) && !(NeededFor(PageAt(v, i)) <= tab2.Keys)
    ensures MappedSoFar(w, tab, available, w2, tab2, available2, v, p, n, flag, i, false)
  {
    NeededGrows(v, i, n);
    GrewTwiceOutside(w, w1, tab1, w2, tab2);
  }

  /** The loop has run short exactly when the pool had fewer pages than the range was missing tables. */
  lemma RanShortExactly(w: Mem, tab: map<Key, int>, available: int, w': Mem, tab': map<Key, int>, available': int,
                        v: int, p: int, n: nat, flag: nat, ok: bool)
    requires MappedSoFar(w, tab, available, w', tab', available', v, p, n, flag, n, ok) && available' >= 0
    ensures ok <==> |Needed(v, n) - tab.Keys| <= available
  {
    assert tab.Keys <= tab'.Keys;
    assert |tab| == |tab.Keys| && |tab'| == |tab'.Keys|;
    EnoughPages(tab.Keys, Needed(v, n), tab'.Keys, available, available');
  }

  /** In a range shorter than the address space each page is written by its own step only. */
  lemma HitIsOwn(v: int, n: nat, i: nat)
    requires i < n <= VPN_LIMIT
    ensures LastHit(v, n, PageAt(v, i)) == Some(i)
  {
    var j := LastHit(v, n, PageAt(v, i));
    assert j.Some?;
    if j.value < i {
      PagesDiffer(v, j.value, i);
    } else if j.value > i {
      PagesDiffer(v, i, j.value);
    }
  }

  lemma RangePhysFits(p: int, n: nat, flag: nat, i: nat)
    requires Mappable(p, n, flag) && i < n && 0 <= p
    ensures PhysAt(p, i) == p + 0x1000 * i && FitsAddr(PhysAt(p, i)) && n <= VPN_LIMIT
  {
  }

  /** A range that cannot be held has a step whose address does not fit the address field. */
  lemma RangePhysOverflows(p: int, n: nat) returns (i: nat)
    requires 0 <= p < TWO64 && n > 0 && !(p % 0x1000 == 0 && p + 0x1000 * n <= ADDR_LIMIT)
    ensures i < n && !FitsAddr(PhysAt(p, i))
  {
    i := 0;
    if p % 0x1000 == 0 && p < ADDR_LIMIT {
      i := (ADDR_LIMIT - p) / 0x1000;
      assert PhysAt(p, i) == ADDR_LIMIT;
    }
  }

  /** After a range is mapped, its pages read back as they were mapped exactly when the range is mappable. */
  lemma RangeReadsBack(w: Mem, tab: map<Key, int>, w': Mem, root: int, tab': map<Key, int>,
                       v: int, p: int, n: nat, flag: nat)
    requires Tree(w', root, tab') && WroteRange(w, tab, w', tab', v, p, n, flag) && 0 <= p < TWO64
    ensures ReadsBack(w', root, v, p, n, flag) <==> Mappable(p, n, flag)
  {
    if Mappable(p, n, flag) {
      forall i | 0 <= i < n ensures Translate(w', root, PageAt(v, i)) == Some(Mapping(PhysAt(p, i), flag)) {
        WalkFindsView(w', root, tab', PageAt(v, i));
        RangePhysFits(p, n, flag, i);
        HitIsOwn(v, n, i);
        EntryReadsBack(PhysAt(p, i), flag);
      }
    }
    if ReadsBack(w', root, v, p, n, flag) && n > 0 {
      ReadBackFlag(w, tab, w', root, tab', v, p, n, flag);
      if !Mappable(p, n, flag) {
        var i := RangePhysOverflows(p, n);
        ReadBackAddr(w', root, tab', v, p, n, flag, i);
        assert false;
      }
    }
  }

  lemma ReadBackFlag(w: Mem, tab: map<Key, int>, w': Mem, root: int, tab': map<Key, int>,
                     v: int, p: int, n: nat, flag: nat)
    requires Tree(w', root, tab') && WroteRange(w, tab, w', tab', v, p, n, flag)
    requires ReadsBack(w', root, v, p, n, flag) && n > 0
    ensures FitsFlag(flag)
  {
    var vpn := PageAt(v, 0);
    WalkFindsView(w', root, tab', vpn);
    var hit := LastHit(v, n, vpn);
    assert hit.Some?;
    EntryPresence(PhysAt(p, hit.value), flag);
  }

  lemma ReadBackAddr(w': Mem, root: int, tab': map<Key, int>, v: int, p: int, n: nat, flag: nat, i: nat)
    requires Tree(w', root, tab') && ReadsBack(w', root, v, p, n, flag) && i < n
    ensures FitsAddr(PhysAt(p, i))
  {
    WalkFindsView(w', root, tab', PageAt(v, i));
    assert Translate(w', root, PageAt(v, i)) == Some(Mapping(PhysAt(p, i), flag));
    MaskKeepsAddr(Entry(w', tab'[KeyOf(1, PageAt(v, i))], Index(1, PageAt(v, i))));
  }

  /** From `w0` to `w` every page of the range comes to translate to its physical page with the flags,
      and every other page goes on translating as it did. */
  ghost predicate MapsRange(w0: Mem, w: Mem, root: int, v: int, p: int, n: nat, flag: nat) {
    && (forall i | 0 <= i < n :: Translate(w, root, PageAt(v, i)) == Some(Mapping(p + 0x1000 * i, flag)))
    && (forall vpn | 0 <= vpn < VPN_LIMIT && (forall i | 0 <= i < n :: PageAt(v, i) != vpn) ::
          Translate(w, root, vpn) == Translate(w0, root, vpn))
  }

  lemma RangeTranslates(w: Mem, tab: map<Key, int>, w': Mem, root: int, tab': map<Key, int>,
                        v: int, p: int, n: nat, flag: nat)
    requires Tree(w, root, tab) && Tree(w', root, tab') && WroteRange(w, tab, w', tab', v, p, n, flag)
    ensures forall vpn | 0 <= vpn < VPN_LIMIT && (forall i | 0 <= i < n :: PageAt(v, i) != vpn) ::
              Translate(w', root, vpn) == Translate(w, root, vpn)
  {
    forall vpn | 0 <= vpn < VPN_LIMIT && (forall i | 0 <= i < n :: PageAt(v, i) != vpn)
      ensures Translate(w', root, vpn) == Translate(w, root, vpn)
    {
      WalkFindsView(w, root, tab, vpn);
      WalkFindsView(w', root, tab', vpn);
    }
  }

  lemma RangeTranslatesTo(w: Mem, root: int, v: int, p: int, n: nat, flag: nat)
    requires ReadsBack(w, root, v, p, n, flag) && Mappable(p, n, flag) && 0 <= p
    ensures forall i | 0 <= i < n :: Translate(w, root, PageAt(v, i)) == Some(Mapping(p + 0x1000 * i, flag))
  {
  }

  /** From `w0` to `w` the processor comes to find every page of the range at its physical page, with exactly the
      rights of the flags, and every other page where it was, with the rights it had. */
  ghost predicate GrantsRange(w0: Mem, w: Mem, root: int, v: int, p: int, n: nat, flag: nat) {
    && (forall i | 0 <= i < n :: Access(w, root, PageAt(v, i)) == Some(Grant(p + 0x1000 * i, RightsOf(flag))))
    && (forall vpn | 0 <= vpn < VPN_LIMIT && (forall i | 0 <= i < n :: PageAt(v, i) != vpn) ::
          Access(w, root, vpn) == Access(w0, root, vpn))
  }

  lemma MappedIsGranted(w0: Mem, tab0: map<Key, int>, w: Mem, root: int, tab: map<Key, int>,
                        v: int, p: int, n: nat, flag: nat)
    requires Tree(w0, root, tab0) && Tree(w, root, tab) && MapsRange(w0, w, root, v, p, n, flag)
    ensures GrantsRange(w0, w, root, v, p, n, flag)
  {
    forall i | 0 <= i < n ensures Access(w, root, PageAt(v, i)) == Some(Grant(p + 0x1000 * i, RightsOf(flag))) {
      AccessIsLeaf(w, root, tab, PageAt(v, i));
    }
    forall vpn | 0 <= vpn < VPN_LIMIT && (forall i | 0 <= i < n :: PageAt(v, i) != vpn)
      ensures Access(w, root, vpn) == Access(w0, root, vpn)
    {
      AccessIsLeaf(w, root, tab, vpn);
      AccessIsLeaf(w0, root, tab0, vpn);
    }
  }

  /** A mappable range that was written is granted. */
  lemma RangeGranted(w: Mem, tab: map<Key, int>, w': Mem, root: int, tab': map<Key, int>,
                     v: int, p: int, n: nat, flag: nat)
    requires Tree(w, root, tab) && Tree(w', root, tab') && WroteRange(w, tab, w', tab', v, p, n, flag)
    requires 0 <= p < TWO64 && Mappable(p, n, flag)
    ensures MapsRange(w, w', root, v, p, n, flag) && GrantsRange(w, w', root, v, p, n, flag)
  {
    RangeReadsBack(w, tab, w', root, tab', v, p, n, flag);
    RangeTranslates(w, tab, w', root, tab', v, p, n, flag);
    RangeTranslatesTo(w', root, v, p, n, flag);
    MappedIsGranted(w, tab, w', root, tab', v, p, n, flag);
  }

  lemma GrewTwiceOutside(w: Mem, w1: Mem, tab1: map<Key, int>, w2: Mem, tab2: map<Key, int>)
    requires OnlyTables(w, w1, tab1) && Extends(tab1, tab2) && OnlyTables(w1, w2, tab2)
    ensures OnlyTables(w, w2, tab2)
  {
  }
}
