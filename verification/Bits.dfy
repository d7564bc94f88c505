/** The bitwise `&` and `|` of C on natural numbers, and the masks of a page-table entry. */
module Bits {

  function And(x: nat, y: nat): nat {
    if x == 0 || y == 0 then 0
    else 2 * And(x / 2, y / 2) + if x % 2 == 1 && y % 2 == 1 then 1 else 0
  }

  function Or(x: nat, y: nat): nat {
    if x == 0 then y
    else if y == 0 then x
    else 2 * Or(x / 2, y / 2) + if x % 2 == 1 || y % 2 == 1 then 1 else 0
  }

  lemma AndHalves(x: nat, y: nat)
    ensures And(x, y) / 2 == And(x / 2, y / 2)
    ensures And(x, y) % 2 == if x % 2 == 1 && y % 2 == 1 then 1 else 0
  {
  }

  lemma OrHalves(x: nat, y: nat)
    ensures Or(x, y) / 2 == Or(x / 2, y / 2)
    ensures Or(x, y) % 2 == if x % 2 == 1 || y % 2 == 1 then 1 else 0
  {
  }

  lemma {:induction false} AndAssociative(x: nat, y: nat, z: nat)
    ensures And(And(x, y), z) == And(x, And(y, z))
    decreases x
  {
    if x != 0 {
      AndHalves(x, y);
      AndHalves(y, z);
      AndHalves(And(x, y), z);
      AndHalves(x, And(y, z));
      AndAssociative(x / 2, y / 2, z / 2);
    }
  }

  lemma {:induction false} AndIdempotent(x: nat)
    ensures And(x, x) == x
  {
    if x != 0 {
      AndIdempotent(x / 2);
    }
  }

  lemma {:induction false} AndOverOr(x: nat, y: nat, z: nat)
    ensures And(Or(x, y), z) == Or(And(x, z), And(y, z))
    decreases x + y
  {
    if x + y != 0 {
      OrHalves(x, y);
      AndHalves(x, z);
      AndHalves(y, z);
      AndHalves(Or(x, y), z);
      OrHalves(And(x, z), And(y, z));
      AndOverOr(x / 2, y / 2, z / 2);
    }
  }

  lemma {:induction false} AndCommutes(x: nat, y: nat)
    ensures And(x, y) == And(y, x)
  {
    if x != 0 && y != 0 {
      AndCommutes(x / 2, y / 2);
    }
  }

  lemma {:induction false} AndBound(x: nat, y: nat)
    ensures And(x, y) <= x && And(x, y) <= y
  {
    if x != 0 && y != 0 {
      AndBound(x / 2, y / 2);
    }
  }

  // `&` works on groups of bits independently.

  lemma SplitBit(x: nat, y: nat, a: nat, b: nat)
    requires a < 2 && b < 2
    ensures And(2 * x + a, 2 * y + b) == 2 * And(x, y) + And(a, b)
  {
  }

  lemma SplitPair(x: nat, y: nat, a: nat, b: nat)
    requires a < 4 && b < 4
    ensures And(4 * x + a, 4 * y + b) == 4 * And(x, y) + And(a, b)
  {
    SplitBit(2 * x + a / 2, 2 * y + b / 2, a % 2, b % 2);
    SplitBit(x, y, a / 2, b / 2);
    SplitBit(a / 2, b / 2, a % 2, b % 2);
  }

  lemma SplitNibble(x: nat, y: nat, a: nat, b: nat)
    requires a < 0x10 && b < 0x10
    ensures And(0x10 * x + a, 0x10 * y + b) == 0x10 * And(x, y) + And(a, b)
  {
    PairsOfNibble(x, y, a / 4, a % 4, b / 4, b % 4);
    SplitPair(a / 4, b / 4, a % 4, b % 4);
  }

  lemma PairsOfNibble(x: nat, y: nat, a1: nat, a0: nat, b1: nat, b0: nat)
    requires a1 < 4 && a0 < 4 && b1 < 4 && b0 < 4
    ensures And(0x10 * x + 4 * a1 + a0, 0x10 * y + 4 * b1 + b0) == 0x10 * And(x, y) + 4 * And(a1, b1) + And(a0, b0)
  {
    SplitPair(4 * x + a1, 4 * y + b1, a0, b0);
    SplitPair(x, y, a1, b1);
  }

  /** Twelve bits, given as three hexadecimal digits. */
  lemma SplitPage(x: nat, y: nat, a2: nat, a1: nat, a0: nat, b2: nat, b1: nat, b0: nat)
    requires a2 < 0x10 && a1 < 0x10 && a0 < 0x10 && b2 < 0x10 && b1 < 0x10 && b0 < 0x10
    ensures And(0x1000 * x + 0x100 * a2 + 0x10 * a1 + a0, 0x1000 * y + 0x100 * b2 + 0x10 * b1 + b0) ==
            0x1000 * And(x, y) + 0x100 * And(a2, b2) + 0x10 * And(a1, b1) + And(a0, b0)
  {
    SplitNibble(0x100 * x + 0x10 * a2 + a1, 0x100 * y + 0x10 * b2 + b1, a0, b0);
    NibblesOfByte(x, y, a2, a1, b2, b1);
  }

  lemma NibblesOfByte(x: nat, y: nat, a1: nat, a0: nat, b1: nat, b0: nat)
    requires a1 < 0x10 && a0 < 0x10 && b1 < 0x10 && b0 < 0x10
    ensures And(0x100 * x + 0x10 * a1 + a0, 0x100 * y + 0x10 * b1 + b0) ==
            0x100 * And(x, y) + 0x10 * And(a1, b1) + And(a0, b0)
  {
    SplitNibble(0x10 * x + a1, 0x10 * y + b1, a0, b0);
    SplitNibble(x, y, a1, b1);
  }

  lemma Digits(a: nat) returns (a2: nat, a1: nat, a0: nat)
    requires a < 0x1000
    ensures a2 < 0x10 && a1 < 0x10 && a0 < 0x10 && a == 0x100 * a2 + 0x10 * a1 + a0
  {
    a2, a1, a0 := a / 0x100, a % 0x100 / 0x10, a % 0x10;
  }

  /** Twelve bits against twelve clear bits. */
  lemma ClearPage(x: nat, y: nat, a: nat)
    requires a < 0x1000
    ensures And(0x1000 * x + a, 0x1000 * y) == 0x1000 * And(x, y)
  {
    var a2, a1, a0 := Digits(a);
    SplitPage(x, y, a2, a1, a0, 0, 0, 0);
  }

  /** A number below 2^36 has no bit in common with a multiple of 2^36. */
  lemma LowHighApart(p: nat, q: nat)
    requires p < 0x10_0000_0000
    ensures And(p, 0x10_0000_0000 * q) == 0
  {
    ClearPage(p / 0x1000, 0x100_0000 * q, p % 0x1000);
    ClearPage(p / 0x1000 / 0x1000, 0x1000 * q, p / 0x1000 % 0x1000);
    ClearPage(0, q, p / 0x1000 / 0x1000);
  }

  /** A hexadecimal digit under the mask of all ones. */
  lemma DigitMask(a: nat)
    requires a < 0x10
    ensures And(a, 0xf) == a
  {
    PairMask(a / 4);
    PairMask(a % 4);
    SplitPair(a / 4, 3, a % 4, 3);
  }

  lemma PairMask(a: nat)
    requires a < 4
    ensures And(a, 3) == a
  {
  }

  /** Twelve bits against twelve ones. */
  lemma KeepPage(x: nat, y: nat, a: nat)
    requires a < 0x1000
    ensures And(0x1000 * x + a, 0x1000 * y + 0xfff) == 0x1000 * And(x, y) + a
  {
    var a2, a1, a0 := Digits(a);
    SplitPage(x, y, a2, a1, a0, 0xf, 0xf, 0xf);
    DigitMask(a2);
    DigitMask(a1);
    DigitMask(a0);
  }

  /** 36 bits against 36 ones. */
  lemma Keep36(p: nat)
    requires p < 0x10_0000_0000
    ensures And(p, 0xf_ffff_ffff) == p
  {
    KeepPage(p / 0x1000, 0xff_ffff, p % 0x1000);
    KeepPage(p / 0x1000 / 0x1000, 0xfff, p / 0x1000 % 0x1000);
    KeepPage(0, 0, p / 0x1000 / 0x1000);
  }
}

/** Page-table entries: 4-level paging, section 4.5 of the Intel SDM volume 3A. */
module Entries {
  import opened Bits

  const MASK_P: nat := 0x1
  const MASK_R_W: nat := 0x2
  const MASK_U_S: nat := 0x4
  const MASK_PS: nat := 0x80                          // in an entry above level 1: a large page
  const MASK_XD: nat := 0x8000_0000_0000_0000
  const MASK_FLAGS: nat := 0x8000_0000_0000_01ff      // every flag __get_flag names
  const MASK_ADDR: nat := 0x0000_ffff_ffff_f000
  const DEFAULT_EMPTY_FLAG: nat := 0x1c
  const DEFAULT_PT_FLAG: nat := 0x1f
  const DEFAULT_PTE_FLAG: nat := 0x1b
  const ADDR_LIMIT := 0x1_0000_0000_0000              // 48 bits

  function MkEntry(addr: nat, flag: nat): nat { Or(And(addr, MASK_ADDR), flag) }

  function PhyAddr(entry: nat): nat { And(entry, MASK_ADDR) }

  function Flag(entry: nat): nat { And(entry, MASK_FLAGS) }

  predicate Present(entry: nat) { And(entry, MASK_P) != 0 }

  /** An address that the address field of an entry can hold. */
  predicate FitsAddr(addr: nat) { addr % 0x1000 == 0 && addr < ADDR_LIMIT }

  /** A flag word that marks the page present and uses only the flags __get_flag returns. */
  predicate FitsFlag(flag: nat) { Present(flag) && Flag(flag) == flag }

  /** The address mask keeps an address exactly when it is page-aligned and below 2^48. */
  lemma MaskKeepsAddr(addr: nat)
    ensures PhyAddr(addr) == addr <==> FitsAddr(addr)
    ensures FitsAddr(PhyAddr(addr))
  {
    var page, low, ones: nat := addr / 0x1000, addr % 0x1000, 0xf_ffff_ffff;
    ClearPage(page, ones, low);
    AndBound(page, ones);
    KeptPage(page, low, And(page, ones), ones);
    if page <= ones {
      Keep36(page);
    }
  }

  /** Clearing the low twelve bits and bounding the page: equal to the whole exactly when nothing was lost. */
  lemma KeptPage(page: nat, low: nat, kept: nat, ones: nat)
    requires low < 0x1000 && kept <= page && kept <= ones && ones == 0xf_ffff_ffff
    ensures 0x1000 * kept == 0x1000 * page + low <==> low == 0 && kept == page
    ensures FitsAddr(0x1000 * kept) && (FitsAddr(0x1000 * page + low) <==> low == 0 && page <= ones)
  {
  }

  lemma MasksApart()
    ensures And(MASK_ADDR, MASK_FLAGS) == 0 && And(MASK_ADDR, MASK_P) == 0
  {
    AddrFieldApart(0xf_ffff_ffff, 0x8000, 1, 0xf, 0xf);
    AddrFieldApart(0xf_ffff_ffff, 0, 0, 0, 1);
  }

  lemma RightsApart()
    ensures And(MASK_ADDR, MASK_R_W) == 0 && And(MASK_ADDR, MASK_U_S) == 0
    ensures And(MASK_ADDR, MASK_PS) == 0 && And(MASK_ADDR, MASK_XD) == 0
  {
    AddrFieldApart(0xf_ffff_ffff, 0, 0, 0, 2);
    AddrFieldApart(0xf_ffff_ffff, 0, 0, 0, 4);
    AddrFieldApart(0xf_ffff_ffff, 0, 0, 8, 0);
    AddrFieldApart(0xf_ffff_ffff, 0x8000, 0, 0, 0);
  }

  /** The address field shares no bit with a word whose bits 12 to 47 are clear. */
  lemma AddrFieldApart(page: nat, high: nat, d2: nat, d1: nat, d0: nat)
    requires page < 0x10_0000_0000 && d2 < 0x10 && d1 < 0x10 && d0 < 0x10
    ensures And(0x1000 * page, 0x1_0000_0000_0000 * high + 0x100 * d2 + 0x10 * d1 + d0) == 0
  {
    SplitPage(page, 0x10_0000_0000 * high, 0, 0, 0, d2, d1, d0);
    LowHighApart(page, high);
  }

  /** Masking an entry sees only the part of it that the mask covers. */
  lemma EntryUnderMask(addr: nat, flag: nat, mask: nat)
    requires And(MASK_ADDR, mask) == 0
    ensures And(MkEntry(addr, flag), mask) == And(flag, mask)
  {
    AndOverOr(And(addr, MASK_ADDR), flag, mask);
    AndAssociative(addr, MASK_ADDR, mask);
  }

  /** An entry reads back as the address and the flags it was made from
      exactly when the address fits the address field and the flags fit the flag mask. */
  lemma EntryReadsBack(addr: nat, flag: nat)
    ensures var e := MkEntry(addr, flag);
            Present(e) && PhyAddr(e) == addr && Flag(e) == flag <==> FitsAddr(addr) && FitsFlag(flag)
  {
    var e := MkEntry(addr, flag);
    MasksApart();
    EntryUnderMask(addr, flag, MASK_P);
    EntryUnderMask(addr, flag, MASK_FLAGS);
    MaskKeepsAddr(addr);
    MaskKeepsAddr(e);
    if Flag(flag) == flag {
      AndAssociative(flag, MASK_FLAGS, MASK_ADDR);
      AndCommutes(MASK_FLAGS, MASK_ADDR);
      AndOverOr(And(addr, MASK_ADDR), flag, MASK_ADDR);
      AndAssociative(addr, MASK_ADDR, MASK_ADDR);
      AndIdempotent(MASK_ADDR);
    }
  }

  /** An entry whose flags are present is present, whatever the address. */
  lemma EntryPresence(addr: nat, flag: nat)
    ensures Present(MkEntry(addr, flag)) <==> Present(flag)
    ensures Flag(MkEntry(addr, flag)) == Flag(flag)
  {
    MasksApart();
    EntryUnderMask(addr, flag, MASK_P);
    EntryUnderMask(addr, flag, MASK_FLAGS);
  }

  lemma PresenceIsLowBit(flag: nat)
    ensures Present(flag) <==> flag % 2 == 1
  {
    SplitBit(flag / 2, 0, flag % 2, 1);
  }

  lemma DefaultFlags()
    ensures !Present(DEFAULT_EMPTY_FLAG) && FitsFlag(DEFAULT_PT_FLAG) && FitsFlag(DEFAULT_PTE_FLAG)
  {
  }

  /** An entry above level 1 leads to a table unless it is absent or maps a large page. */
  predicate Leads(e: nat) { Present(e) && And(e, MASK_PS) == 0 }

  // ----- What an entry permits: section 4.6 of the Intel SDM volume 3A -----

  datatype Rights = Rights(write: bool, user: bool, execute: bool)

  function RightsOf(e: nat): Rights {
    Rights(And(e, MASK_R_W) != 0, And(e, MASK_U_S) != 0, And(e, MASK_XD) == 0)
  }

  /** Bit `k` of a number. */
  function Bit(x: nat, k: nat): (b: nat)
    ensures b <= 1
  {
    if k == 0 then x % 2 else Bit(x / 2, k - 1)
  }

  /** The word with bit `k` set and no other. */
  function OneBit(k: nat): nat {
    if k == 0 then 1 else 2 * OneBit(k - 1)
  }

  lemma {:induction false} AndOneBit(x: nat, k: nat)
    ensures And(x, OneBit(k)) == if Bit(x, k) == 1 then OneBit(k) else 0
    ensures OneBit(k) > 0
    decreases k
  {
    if k == 0 {
      SplitBit(x / 2, 0, x % 2, 1);
    } else {
      AndOneBit(x / 2, k - 1);
      SplitBit(x / 2, OneBit(k - 1), x % 2, 0);
    }
  }

  lemma FourBitsUp(k: nat)
    ensures OneBit(k + 4) == 0x10 * OneBit(k)
  {
    assert OneBit(k + 1) == 2 * OneBit(k) && OneBit(k + 2) == 2 * OneBit(k + 1) && OneBit(k + 3) == 2 * OneBit(k + 2);
  }

  lemma SixteenBitsUp(k: nat)
    ensures OneBit(k + 16) == 0x1_0000 * OneBit(k)
  {
    FourBitsUp(k);
    FourBitsUp(k + 4);
    FourBitsUp(k + 8);
    FourBitsUp(k + 12);
  }

  lemma TopMask()
    ensures OneBit(63) == MASK_XD
  {
    FourBitsUp(3);
    FourBitsUp(7);
    FourBitsUp(11);
    SixteenBitsUp(15);
    SixteenBitsUp(31);
    SixteenBitsUp(47);
  }

  /** Bit 1 of an entry permits writing, bit 2 user access, bit 63 forbids execution, and bit 7 maps a large page. */
  lemma RightsInBits(e: nat)
    ensures RightsOf(e) == Rights(Bit(e, 1) == 1, Bit(e, 2) == 1, Bit(e, 63) == 0)
    ensures And(e, MASK_PS) != 0 <==> Bit(e, 7) == 1
  {
    assert OneBit(1) == MASK_R_W && OneBit(2) == MASK_U_S;
    TopMask();
    AndOneBit(e, 1);
    AndOneBit(e, 2);
    AndOneBit(e, 63);
    FourBitsUp(3);
    AndOneBit(e, 7);
  }

  /** A page permits what every entry on the way to it permits. */
  function Both(a: Rights, b: Rights): Rights {
    Rights(a.write && b.write, a.user && b.user, a.execute && b.execute)
  }

  /** An entry above level 1 that refers to a table and takes no right away. */
  predicate Passes(e: nat) { And(e, MASK_PS) == 0 && RightsOf(e) == Rights(true, true, true) }

  /** The rights of an entry are among the flags it reads back. */
  lemma RightsAreFlags(e: nat)
    ensures RightsOf(Flag(e)) == RightsOf(e)
  {
    AndAssociative(e, MASK_FLAGS, MASK_R_W);
    AndAssociative(e, MASK_FLAGS, MASK_U_S);
    AndAssociative(e, MASK_FLAGS, MASK_XD);
    FlagBits();
  }

  lemma FlagBits()
    ensures And(MASK_FLAGS, MASK_R_W) == MASK_R_W && And(MASK_FLAGS, MASK_U_S) == MASK_U_S
    ensures And(MASK_FLAGS, MASK_XD) == MASK_XD
  {
    SplitPage(TOP, 0, 1, 0xf, 0xf, 0, 0, 2);
    SplitPage(TOP, 0, 1, 0xf, 0xf, 0, 0, 4);
    TopOfFlags(TOP);
  }

  lemma TopOfFlags(top: nat)
    ensures And(0x1000 * top + 0x1ff, 0x1000 * top) == 0x1000 * top
  {
    ClearPage(top, top, 0x1ff);
    AndIdempotent(top);
  }

  /** The entry that links a table takes no right away from the pages below it. */
  lemma TableEntryPasses(addr: nat)
    ensures Passes(MkEntry(addr, DEFAULT_PT_FLAG))
  {
    RightsApart();
    EntryUnderMask(addr, DEFAULT_PT_FLAG, MASK_R_W);
    EntryUnderMask(addr, DEFAULT_PT_FLAG, MASK_U_S);
    EntryUnderMask(addr, DEFAULT_PT_FLAG, MASK_PS);
    EntryUnderMask(addr, DEFAULT_PT_FLAG, MASK_XD);
    SplitPage(0, 0x8_0000_0000_0000, 0, 1, 0xf, 0, 0, 0);
    SplitPage(0, 0, 0, 1, 0xf, 0, 8, 0);
  }

  const TOP: nat := 0x8_0000_0000_0000

  /** A word under the mask of its bit 51. */
  lemma TopBit(x: nat, top: nat)
    requires top == TOP
    ensures And(x, top) == 0 || And(x, top) == top
    ensures And(x, top) == x <==> x == 0 || x == top
  {
    var y1, y2, y3: nat := top / 0x1000, top / 0x100_0000, top / 0x10_0000_0000;
    PagesOfTop(x, y1, y2, y3);
    HighestDigit(x / 0x1000 / 0x1000 / 0x1000, y3);
    if x == top {
      AndIdempotent(x);
    }
  }

  /** Three times twelve clear bits. */
  lemma PagesOfTop(x: nat, y1: nat, y2: nat, y3: nat)
    requires y1 == 0x1000 * y2 && y2 == 0x1000 * y3
    ensures And(x, 0x1000 * y1) == 0x10_0000_0000 * And(x / 0x1000 / 0x1000 / 0x1000, y3)
  {
    var x1 := x / 0x1000;
    var x2 := x1 / 0x1000;
    ClearPage(x1, y1, x % 0x1000);
    ClearPage(x2, y2, x1 % 0x1000);
    ClearPage(x2 / 0x1000, y3, x2 % 0x1000);
  }

  lemma HighestDigit(x: nat, y: nat)
    requires y == 0x8000
    ensures And(x, y) == 0 || And(x, y) == y
  {
    var z := x / 0x1000;
    ClearPage(z, 8, x % 0x1000);
    SplitNibble(z / 0x10, 0, z % 0x10, 8);
    DigitEight(z % 0x10);
  }

  lemma DigitEight(a: nat)
    requires a < 0x10
    ensures And(a, 8) == 0 || And(a, 8) == 8
  {
    SplitPair(a / 4, 2, a % 4, 0);
  }

  /** The flags that can be read back: bit 0, the eight bits above it as they like, and bit 63. */
  lemma FlagsThatFit(flag: nat)
    ensures FitsFlag(flag) <==> flag % 2 == 1 && (flag < 0x200 || MASK_XD <= flag < MASK_XD + 0x200)
  {
    var high := flag / 0x1000;
    var d2, d1, d0 := Digits(flag % 0x1000);
    PresenceIsLowBit(flag);
    SplitPage(high, TOP, d2, d1, d0, 1, 0xf, 0xf);
    DigitMask(d1);
    DigitMask(d0);
    SplitBit(d2 / 2, 0, d2 % 2, 1);
    TopBit(high, TOP);
    FitsDigits(high, d2, 0x10 * d1 + d0, And(high, TOP));
  }

  lemma FitsDigits(high: nat, d2: nat, low: nat, kept: nat)
    requires d2 < 0x10 && low < 0x100 && (kept == 0 || kept == TOP) && (kept == high <==> high == 0 || high == TOP)
    ensures var flag := 0x1000 * high + 0x100 * d2 + low;
            0x1000 * kept + 0x100 * (d2 % 2) + low == flag <==> flag < 0x200 || MASK_XD <= flag < MASK_XD + 0x200
  {
  }
}
