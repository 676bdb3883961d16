/** `map_mmio` of kernel/src/memory/paging.rs: device registers become visible at their
    physical address plus the higher-half offset. */
module Mmio {
  import opened Common
  import opened Paging
  import opened FrameCost
  import opened Rights

  const PAGES := 0x10_0000_0000
  const MMIO_FLAGS := Flags(PRESENT + WRITABLE + WRITE_THROUGH + NO_CACHE, true)

  /** How many pages after page `first` an address lies, around the 48-bit space. */
  function Offset(first: int, w: VirtAddr): (k: int)
    ensures 0 <= k < PAGES
  {
    (PageOf(w) - first) % PAGES
  }

  /** Through `root`, the first `n` pages of the range are mapped to consecutive frames
      unless they were mapped before, and every other page is as it was. */
  ghost predicate MapsRange(m: Memory, m': Memory, root: Frame, first: int, frame: nat, n: nat) {
    && frame + n <= 0x100_0000_0000
    && forall w: VirtAddr :: PageEntry(m', root, w) ==
         if Offset(first, w) < n && PageEntry(m, root, w) == None then Some(Entry(frame + Offset(first, w), MMIO_FLAGS))
         else PageEntry(m, root, w)
  }

  /** Through any table, pages outside the range are as they were. */
  ghost predicate OutsideKept(m: Memory, m': Memory, place: map<Frame, Place>, first: int, n: nat) {
    forall r: Frame, w: VirtAddr :: IsRoot(place, r) && Offset(first, w) >= n ==>
      PageEntry(m', r, w) == PageEntry(m, r, w)
  }

  /** The i-th page of the range. */
  lemma OffsetOf(first: int, i: nat, v: VirtAddr)
    requires v / 4096 == first + i && 0 <= first && i < PAGES
    ensures Offset(first % PAGES, v) == i
    ensures forall w: VirtAddr :: Offset(first % PAGES, w) == i <==> PageOf(w) == PageOf(v)
  {
    forall w: VirtAddr
      ensures Offset(first % PAGES, w) == i <==> PageOf(w) == PageOf(v)
    {
      assert 0 <= PageOf(w) < PAGES;
    }
  }

  /** One more page was already mapped. */
  lemma SkipExtends(m: Memory, m': Memory, place: map<Frame, Place>, root: Frame, first: int, frame: nat, n: nat,
                    v: VirtAddr)
    requires MapsRange(m, m', root, first, frame, n) && OutsideKept(m, m', place, first, n)
    requires Offset(first, v) == n && frame + n < 0x100_0000_0000 && PageEntry(m', root, v).Some?
    requires forall w: VirtAddr :: Offset(first, w) == n <==> PageOf(w) == PageOf(v)
    ensures MapsRange(m, m', root, first, frame, n + 1) && OutsideKept(m, m', place, first, n + 1)
  {
    hide PageEntry, PageOf, Offset;
    forall w: VirtAddr | Offset(first, w) == n
      ensures PageEntry(m, root, w).Some?
    {
      SamePageEntry(m', root, v, w);
    }
  }

  /** One more page was mapped. */
  lemma MapExtends(m: Memory, m1: Memory, m2: Memory, place: map<Frame, Place>, place1: map<Frame, Place>, root: Frame,
                   first: int, frame: nat, n: nat, v: VirtAddr)
    requires MapsRange(m, m1, root, first, frame, n) && OutsideKept(m, m1, place, first, n)
    requires Offset(first, v) == n && frame + n < 0x100_0000_0000 && PageEntry(m1, root, v) == None
    requires forall w: VirtAddr :: Offset(first, w) == n <==> PageOf(w) == PageOf(v)
    requires OnlySlotChanges(m1, m2, place1, root, v) && Extends(place, place1) && IsRoot(place, root)
    requires PageEntry(m2, root, v) == Some(Entry(frame + n, MMIO_FLAGS))
    ensures MapsRange(m, m2, root, first, frame, n + 1) && OutsideKept(m, m2, place, first, n + 1)
  {
    hide PageEntry, Offset;
    forall w: VirtAddr
      ensures Offset(first, w) == n ==>
                PageEntry(m2, root, w) == Some(Entry(frame + n, MMIO_FLAGS)) && PageEntry(m, root, w) == None
    {
      if Offset(first, w) == n {
        SamePageEntry(m2, root, v, w);
        SamePageEntry(m1, root, v, w);
      }
    }
  }

  /** A page of the range that was unmapped is writable and uncached, not for users and not
      executable. */
  lemma DevicePage(m: Memory, m': Memory, root: Frame, first: int, frame: nat, n: nat, w: VirtAddr)
    requires MapsRange(m, m', root, first, frame, n) && Offset(first, w) < n && PageEntry(m, root, w) == None
    ensures PageEntry(m', root, w).Some?
    ensures EntryRights(PageEntry(m', root, w).value) == Rights(true, false, false)
    ensures PageEntry(m', root, w).value.flags.low / NO_CACHE % 2 == 1
  {
    hide PageEntry, Offset;
    assert PageEntry(m', root, w) == Some(Entry(frame + Offset(first, w), MMIO_FLAGS));
  }

  function PagesFor(size: nat): nat { (size + 4095) / 4096 }

  /** The pages counted from the size alone cover every byte of the range exactly when the
      part of the first page before it leaves room. */
  lemma RangeCoveredIff(phys: nat, size: nat)
    ensures (forall x: nat :: phys <= x < phys + size ==> x / 4096 - phys / 4096 < PagesFor(size)) <==>
              size == 0 || phys % 4096 + size <= PagesFor(size) * 4096
  {
    var n := PagesFor(size);
    if size > 0 && phys % 4096 + size > n * 4096 {
      var last := phys + size - 1;
      assert last / 4096 - phys / 4096 >= n;
    }
  }

  /** A range of 4096 bytes that starts one byte into its page: the last byte is not covered. */
  lemma LastByteNotCovered()
    ensures 1 <= 4096 < 1 + 4096 && 4096 / 4096 - 1 / 4096 >= PagesFor(4096)
    ensures !(forall x: nat :: 1 <= x < 1 + 4096 ==> x / 4096 - 1 / 4096 < PagesFor(4096))
  {
    RangeCoveredIff(1, 4096);
  }

  /** The arithmetic of one round: page `i` of the range. */
  lemma PageOfRange(phys: nat, hhdm: nat, i: nat)
    requires hhdm % 4096 == 0 && i < PAGES && phys + hhdm + i * 4096 < 0x1_0000_0000_0000_0000
    ensures var v := phys / 4096 * 4096 + i * 4096 + hhdm;
            && 0 <= v < 0x1_0000_0000_0000_0000 && v == RangePage(phys, hhdm, i)
            && v / 4096 == phys / 4096 + hhdm / 4096 + i
  {
  }

  // ---------------------------------------------------------------------------
  // The tables that the range takes

  /** The virtual address of page `i` of the range. */
  function RangePage(phys: nat, hhdm: nat, i: nat): nat { phys / 4096 * 4096 + i * 4096 + hhdm }

  /** The range lies in the address space. */
  predicate InSpace(phys: nat, hhdm: nat, n: nat) { phys + hhdm + n * 4096 <= 0x1_0000_0000_0000_0000 }

  /** The pages of the range that are not mapped yet. */
  ghost function NewPages(m: Memory, root: Frame, phys: nat, hhdm: nat, n: nat): (pages: set<nat>)
    requires InSpace(phys, hhdm, n)
    ensures Addresses(pages)
  {
    set i: nat | i < n && Translate(m, root, RangePage(phys, hhdm, i)) == None :: RangePage(phys, hhdm, i)
  }

  /** The free frames are fewer than the tables that these pages lack together. */
  ghost predicate TooFewTables(m: Memory, root: Frame, phys: nat, hhdm: nat, n: nat)
    requires InSpace(phys, hhdm, n)
  {
    |m.free| < |Lacking(m.tables, root, NewPages(m, root, phys, hhdm, n))|
  }

  lemma NewPagesGrow(m: Memory, root: Frame, phys: nat, hhdm: nat, i: nat)
    requires InSpace(phys, hhdm, i + 1)
    ensures var v := RangePage(phys, hhdm, i);
            NewPages(m, root, phys, hhdm, i + 1) ==
            NewPages(m, root, phys, hhdm, i) + if Translate(m, root, v) == None then {v} else {}
  {
    hide Translate;
  }

  /** The first `i` pages have taken the tables they lacked, and nothing else. */
  ghost predicate Spending(m0: Memory, m: Memory, root: Frame, phys: nat, hhdm: nat, i: nat)
    requires InSpace(phys, hhdm, i)
  {
    var pages := NewPages(m0, root, phys, hhdm, i);
    |m.free| + |Lacking(m0.tables, root, pages)| == |m0.free| && TablesBrought(m0, m, root, pages)
  }

  lemma NothingSpent(m: Memory, root: Frame, phys: nat, hhdm: nat)
    requires InSpace(phys, hhdm, 0)
    ensures Spending(m, m, root, phys, hhdm, 0)
  {
    assert NewPages(m, root, phys, hhdm, 0) == {};
    SpentNothing(m, root);
    assert Lacking(m.tables, root, {}) == {};
  }

  /** The next page of the range is as it was. */
  lemma NextOfRange(m: Memory, m1: Memory, root: Frame, first: int, phys: nat, hhdm: nat, i: nat)
    requires MapsRange(m, m1, root, first, phys / 4096, i) && InSpace(phys, hhdm, i + 1)
    requires Offset(first, RangePage(phys, hhdm, i)) == i
    ensures Translate(m1, root, RangePage(phys, hhdm, i)) == Translate(m, root, RangePage(phys, hhdm, i))
  {
    hide PageEntry, Offset;
    assert PageEntry(m1, root, RangePage(phys, hhdm, i)) == PageEntry(m, root, RangePage(phys, hhdm, i));
  }

  lemma SpendNothing(m0: Memory, m: Memory, root: Frame, phys: nat, hhdm: nat, i: nat)
    requires InSpace(phys, hhdm, i + 1) && Spending(m0, m, root, phys, hhdm, i)
    requires Translate(m0, root, RangePage(phys, hhdm, i)).Some?
    ensures Spending(m0, m, root, phys, hhdm, i + 1)
  {
    hide Translate, NewPages, RangePage, Lacking, TablesBrought;
    NewPagesGrow(m0, root, phys, hhdm, i);
    assert NewPages(m0, root, phys, hhdm, i) + {} == NewPages(m0, root, phys, hhdm, i);
  }

  lemma SpendMissing(m0: Memory, m: Memory, m': Memory, root: Frame, phys: nat, hhdm: nat, i: nat)
    requires InSpace(phys, hhdm, i + 1) && Spending(m0, m, root, phys, hhdm, i)
    requires Translate(m0, root, RangePage(phys, hhdm, i)) == None
    requires TablesAdded(m, m', root, RangePage(phys, hhdm, i))
    requires |m'.free| == |m.free| - Missing(m.tables, root, Path(RangePage(phys, hhdm, i)))
    ensures Spending(m0, m', root, phys, hhdm, i + 1)
  {
    hide Translate, NewPages, RangePage, Lacking, TablesBrought, TablesAdded, Missing;
    var pages, v := NewPages(m0, root, phys, hhdm, i), RangePage(phys, hhdm, i);
    NewPagesGrow(m0, root, phys, hhdm, i);
    LackingMore(m0, m, root, pages, v);
    LackingOne(m.tables, root, v);
    MoreBrought(m0, m, m', root, pages, v);
  }

  lemma SpendTooMuch(m0: Memory, m: Memory, root: Frame, phys: nat, hhdm: nat, i: nat, n: nat)
    requires i < n && InSpace(phys, hhdm, n) && Spending(m0, m, root, phys, hhdm, i)
    requires Translate(m0, root, RangePage(phys, hhdm, i)) == None
    requires |m.free| < Missing(m.tables, root, Path(RangePage(phys, hhdm, i)))
    ensures TooFewTables(m0, root, phys, hhdm, n)
  {
    assert NewPages(m0, root, phys, hhdm, i + 1) <= NewPages(m0, root, phys, hhdm, n) by { hide Translate; }
    hide Translate, NewPages, RangePage, TablesBrought, Missing, Lacking;
    var pages, v := NewPages(m0, root, phys, hhdm, i), RangePage(phys, hhdm, i);
    NewPagesGrow(m0, root, phys, hhdm, i);
    LackingMore(m0, m, root, pages, v);
    LackingOne(m.tables, root, v);
    LackingGrows(m0.tables, root, NewPages(m0, root, phys, hhdm, i + 1), NewPages(m0, root, phys, hhdm, n));
  }

  lemma SpentAll(m0: Memory, m: Memory, root: Frame, phys: nat, hhdm: nat, n: nat)
    requires InSpace(phys, hhdm, n) && Spending(m0, m, root, phys, hhdm, n)
    ensures !TooFewTables(m0, root, phys, hhdm, n)
  {
  }

  method MapMmio(pt: PageTableManager, phys: nat, size: nat, hhdm: nat) returns (r: Result<()>)
    requires pt.Valid() && hhdm % 4096 == 0 && PagesFor(size) <= PAGES
    requires phys / 4096 + PagesFor(size) <= 0x100_0000_0000
    requires phys + hhdm + PagesFor(size) * 4096 <= 0x1_0000_0000_0000_0000
    modifies pt.memory
    ensures pt.Valid() && Extends(old(pt.memory.place), pt.memory.place)
    ensures var first := (phys / 4096 + hhdm / 4096) % PAGES;
            && OutsideKept(old(pt.memory.mem), pt.memory.mem, old(pt.memory.place), first, PagesFor(size))
            && (r.Ok? ==>
                  MapsRange(old(pt.memory.mem), pt.memory.mem, pt.p4, first, phys / 4096, PagesFor(size)))
            && (r.Err? <==> TooFewTables(old(pt.memory.mem), pt.p4, phys, hhdm, PagesFor(size)))
            && (r.Err? ==>
                  && r.error == OutOfMemory
                  && exists k: nat ::
                       k < PagesFor(size) &&
                       MapsRange(old(pt.memory.mem), pt.memory.mem, pt.p4, first, phys / 4096, k))
  {
    hide PageEntry, WellFormed, Missing, MapsRange, OutsideKept, OnlySlotChanges, SameTranslations, Offset, PageOf;
    hide NewPages, Spending, RangePage, TablesAdded, KeepsPlain, TooFewTables, PagesFor;
    ghost var m, place := pt.memory.mem, pt.memory.place;
    ghost var first := (phys / 4096 + hhdm / 4096) % PAGES;
    var n := PagesFor(size);
    NothingMapped(m, place, pt.p4, first, phys / 4096);
    NothingSpent(m, pt.p4, phys, hhdm);
    for i := 0 to n
      invariant pt.Valid() && Extends(place, pt.memory.place)
      invariant MapsRange(m, pt.memory.mem, pt.p4, first, phys / 4096, i)
      invariant OutsideKept(m, pt.memory.mem, place, first, i)
      invariant Spending(m, pt.memory.mem, pt.p4, phys, hhdm, i)
    {
      PageOfRange(phys, hhdm, i);
      var virt := phys / 4096 * 4096 + i * 4096 + hhdm;
      OffsetOf(phys / 4096 + hhdm / 4096, i, virt);
      ghost var m1, place1 := pt.memory.mem, pt.memory.place;
      NextOfRange(m, m1, pt.p4, first, phys, hhdm, i);
      var t := pt.TranslateAddr(virt);
      if t.Some? {
        SkipExtends(m, m1, place, pt.p4, first, phys / 4096, i, virt);
        SpendNothing(m, m1, pt.p4, phys, hhdm, i);
        continue;
      }
      r := pt.Map(virt, phys / 4096 + i, MMIO_FLAGS);
      if r.Err? {
        SameExtends(m, m1, pt.memory.mem, place, place1, pt.p4, first, phys / 4096, i, n);
        SpendTooMuch(m, m1, pt.p4, phys, hhdm, i, n);
        return;
      }
      MapExtends(m, m1, pt.memory.mem, place, place1, pt.p4, first, phys / 4096, i, virt);
      SpendMissing(m, m1, pt.memory.mem, pt.p4, phys, hhdm, i);
    }
    SpentAll(m, pt.memory.mem, pt.p4, phys, hhdm, n);
    r := Ok(());
  }

  lemma NothingMapped(m: Memory, place: map<Frame, Place>, root: Frame, first: int, frame: nat)
    requires frame <= 0x100_0000_0000
    ensures MapsRange(m, m, root, first, frame, 0) && OutsideKept(m, m, place, first, 0)
  {
    hide PageEntry, Offset;
  }

  /** A failed call changed no translation. */
  lemma SameExtends(m: Memory, m1: Memory, m2: Memory, place: map<Frame, Place>, place1: map<Frame, Place>, root: Frame,
                    first: int, frame: nat, n: nat, all: nat)
    requires MapsRange(m, m1, root, first, frame, n) && OutsideKept(m, m1, place, first, n) && n <= all
    requires SameTranslations(m1, m2, place1) && Extends(place, place1) && IsRoot(place, root)
    ensures MapsRange(m, m2, root, first, frame, n) && OutsideKept(m, m2, place, first, all)
  {
    hide PageEntry, Offset;
  }
}
