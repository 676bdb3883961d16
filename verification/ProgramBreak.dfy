/** The program break: sys_brk and sys_sbrk of kernel/src/usermode/syscall.rs. */
module ProgramBreak {
  import opened Common
  import opened Paging
  import opened FrameCost
  import opened UserSpace
  import opened Rights
  import opened ElfLoader

  datatype SyscallError = InvalidArgument | NoMemory

  datatype SyscallResult = Value(value: int) | Error(error: SyscallError)

  const BREAK_LIMIT := 0x7000_0000_0000
  const HEAP_FLAGS := Flags(PRESENT + WRITABLE + USER, true)

  /** Every page of lo..hi is mapped. */
  ghost predicate HeapMapped(m: Memory, root: Frame, lo: nat, hi: nat)
    requires hi <= 0x8000_0000_0000
  {
    forall a: nat :: lo <= a < hi && a % 4096 == 0 ==> Translate(m, root, a).Some?
  }

  /** The pages of lo..hi that were unmapped before now read as zero, with the permissions of
      the heap, each in a frame of its own that held no data before. */
  ghost predicate FreshZero(before: Memory, m: Memory, root: Frame, lo: nat, hi: nat)
    requires hi <= 0x8000_0000_0000
  {
    && (forall a: nat :: lo <= a < hi && a % 4096 == 0 && Translate(before, root, a) == None ==>
          ZeroAt(m, root, a) && Translate(m, root, a).value !in before.data)
    && (forall a: nat, b: nat :: (lo <= a < b < hi && a % 4096 == 0 && b % 4096 == 0 &&
                                  Translate(before, root, a) == None && Translate(before, root, b) == None) ==>
          Translate(m, root, a) != Translate(m, root, b))
  }

  ghost predicate ZeroAt(m: Memory, root: Frame, a: VirtAddr) {
    && PageEntry(m, root, a).Some? && PageEntry(m, root, a).value.flags == HEAP_FLAGS
    && Translate(m, root, a).value in m.data
    && m.data[Translate(m, root, a).value] == ZeroBytes()
  }

  /** Below a plain root a program may write new heap pages and not execute them. */
  lemma HeapRights(before: Memory, m: Memory, root: Frame, lo: nat, hi: nat, a: nat)
    requires hi <= 0x8000_0000_0000 && FreshZero(before, m, root, lo, hi) && Plain(m, root)
    requires lo <= a < hi && a % 4096 == 0 && Translate(before, root, a) == None
    ensures Effective(m.tables, root, Path(a)) == Some(Rights(true, true, false))
  {
    hide PageEntry, Effective, PageOf, Plain, FreshZero, Translate;
    PageOfAligned(a, 0);
    FreshAt(before, m, root, lo, hi, a);
    PlainRights(m, root, a);
  }

  lemma FreshAt(before: Memory, m: Memory, root: Frame, lo: nat, hi: nat, a: nat)
    requires hi <= 0x8000_0000_0000 && FreshZero(before, m, root, lo, hi)
    requires lo <= a < hi && a % 4096 == 0 && Translate(before, root, a) == None
    ensures PageEntry(m, root, a).Some? && PageEntry(m, root, a).value.flags == HEAP_FLAGS
  {
    hide PageEntry, Translate;
    assert ZeroAt(m, root, a);
  }

  /** Growing the heap from `start` has reached `end`: only those pages changed, data
      stayed, the heap is mapped up to there and what is new is zero. */
  ghost predicate Grown(before: Memory, place: map<Frame, Place>, m: Memory, root: Frame, lo: nat, start: nat, end: nat)
    requires end <= 0x8000_0000_0000
  {
    && OnlyPagesChange(before, m, place, root, start / 4096, end / 4096)
    && KeepsData(before, m)
    && HeapMapped(m, root, lo, end)
    && FreshZero(before, m, root, start, end)
  }

  lemma GrownNothing(m: Memory, place: map<Frame, Place>, root: Frame, lo: nat, start: nat)
    requires start <= 0x8000_0000_0000 && HeapMapped(m, root, lo, start)
    ensures Grown(m, place, m, root, lo, start, start)
  {
  }

  lemma GrownSame(before: Memory, place0: map<Frame, Place>, m: Memory, place: map<Frame, Place>, m': Memory,
                  root: Frame, lo: nat, start: nat, end: nat)
    requires end < BREAK_LIMIT && Grown(before, place0, m, root, lo, start, end)
    requires IsRoot(place, root) && Extends(place0, place) && SameTranslations(m, m', place) && KeepsData(m, m')
    ensures Grown(before, place0, m', root, lo, start, end)
  {
    hide PageEntry, PageOf;
    forall a: nat | a < 0x8000_0000_0000
      ensures Translate(m', root, a) == Translate(m, root, a)
    {
      assert PageEntry(m', root, a) == PageEntry(m, root, a);
    }
  }

  lemma GrownByPage(before: Memory, place0: map<Frame, Place>, m: Memory, place: map<Frame, Place>, m': Memory,
                    root: Frame, lo: nat, start: nat, page: nat)
    requires lo <= start <= page < BREAK_LIMIT && page % 4096 == 0 && start % 4096 == 0
    requires Grown(before, place0, m, root, lo, start, page)
    requires IsRoot(place0, root) && Extends(place0, place)
    requires OnlyPagesChange(m, m', place, root, page / 4096, page / 4096 + 1) && KeepsData(m, m')
    requires Translate(m', root, page).Some?
    requires Translate(m, root, page) == None ==> ZeroAt(m', root, page) && Translate(m', root, page).value !in m.data
    ensures Grown(before, place0, m', root, lo, start, page + 4096)
  {
    hide PageEntry, PageOf;
    PageOfAligned(page, 0);
    assert OnlyPagesChange(before, m', place0, root, start / 4096, (page + 4096) / 4096) by {
      OnlyPagesCompose(before, m, m', place0, place, root, start / 4096, page / 4096, page / 4096 + 1);
    }
    assert Translate(m, root, page) == Translate(before, root, page);
    forall a: nat | lo <= a < page + 4096 && a % 4096 == 0
      ensures a == page || PageEntry(m', root, a) == PageEntry(m, root, a)
      ensures a == page || Translate(m', root, a) == Translate(m, root, a)
    {
      if a < page {
        PageOfAligned(a, 0);
        assert PageEntry(m', root, a) == PageEntry(m, root, a);
      }
    }
    FreshByPage(before, m, m', root, start, page);
  }

  /** One more page keeps new pages zero and apart. */
  lemma FreshByPage(before: Memory, m: Memory, m': Memory, root: Frame, start: nat, page: nat)
    requires start <= page < BREAK_LIMIT && page % 4096 == 0 && start % 4096 == 0
    requires FreshZero(before, m, root, start, page) && KeepsData(before, m) && KeepsData(m, m')
    requires forall a: nat :: start <= a < page && a % 4096 == 0 ==> PageEntry(m', root, a) == PageEntry(m, root, a)
    requires Translate(before, root, page) == None ==>
               ZeroAt(m', root, page) && Translate(m', root, page).value !in m.data
    ensures FreshZero(before, m', root, start, page + 4096)
  {
    hide PageEntry;
    forall a: nat | start <= a < page + 4096 && a % 4096 == 0 && Translate(before, root, a) == None
      ensures ZeroAt(m', root, a) && Translate(m', root, a).value !in before.data
      ensures a < page ==> Translate(m', root, a).value in m.data
    {
      assert a < page || a == page;
    }
  }

  // ---------------------------------------------------------------------------
  // The frames that growing takes

  /** The pages of lo..hi that are not mapped yet. */
  ghost function NewPages(m: Memory, root: Frame, lo: nat, hi: nat): (pages: set<nat>)
    requires hi <= 0x8000_0000_0000
    ensures Addresses(pages)
  {
    set a | a in PageRange(lo, hi) && Translate(m, root, a) == None
  }

  lemma NewPagesGrow(m: Memory, root: Frame, lo: nat, page: nat)
    requires lo % 4096 == 0 && page % 4096 == 0 && lo <= page < BREAK_LIMIT
    ensures NewPages(m, root, lo, page + 4096) ==
            NewPages(m, root, lo, page) + if Translate(m, root, page) == None then {page} else {}
    ensures page !in NewPages(m, root, lo, page)
  {
    hide Translate;
    RangeGrows(lo, page);
  }

  lemma NewPagesWithin(m: Memory, root: Frame, lo: nat, mid: nat, hi: nat)
    requires mid <= hi <= 0x8000_0000_0000
    ensures NewPages(m, root, lo, mid) <= NewPages(m, root, lo, hi)
  {
  }

  /** Growing to `page` has taken exactly what the new pages cost. */
  ghost predicate SpentTo(m0: Memory, m: Memory, root: Frame, lo: nat, page: nat)
    requires page <= 0x8000_0000_0000
  {
    Spent(m0, m, root, NewPages(m0, root, lo, page))
  }

  lemma SpentAtStart(m: Memory, root: Frame, lo: nat)
    requires lo <= 0x8000_0000_0000
    ensures SpentTo(m, m, root, lo, lo)
  {
    assert NewPages(m, root, lo, lo) == {};
    SpentNothing(m, root);
  }

  /** A page that is mapped already takes nothing. */
  lemma SpentOnMapped(m0: Memory, m: Memory, root: Frame, lo: nat, page: nat)
    requires lo % 4096 == 0 && page % 4096 == 0 && lo <= page < BREAK_LIMIT
    requires SpentTo(m0, m, root, lo, page) && Translate(m0, root, page).Some?
    ensures SpentTo(m0, m, root, lo, page + 4096)
  {
    hide NewPages, Spent;
    NewPagesGrow(m0, root, lo, page);
    assert NewPages(m0, root, lo, page) + {} == NewPages(m0, root, lo, page);
  }

  lemma SpentOnNew(m0: Memory, m: Memory, m': Memory, root: Frame, lo: nat, page: nat)
    requires lo % 4096 == 0 && page % 4096 == 0 && lo <= page < BREAK_LIMIT
    requires SpentTo(m0, m, root, lo, page) && Translate(m0, root, page) == None && TablesAdded(m, m', root, page)
    requires |m'.free| == |m.free| - 1 - Missing(m.tables, root, Path(page))
    ensures SpentTo(m0, m', root, lo, page + 4096)
  {
    hide NewPages, Spent, Missing, TablesAdded, Translate;
    NewPagesGrow(m0, root, lo, page);
    SpentMore(m0, m, m', root, NewPages(m0, root, lo, page), page);
  }

  lemma NoFrameLeft(m0: Memory, m: Memory, root: Frame, lo: nat, page: nat, hi: nat)
    requires lo % 4096 == 0 && page % 4096 == 0 && lo <= page < hi <= BREAK_LIMIT && hi % 4096 == 0
    requires SpentTo(m0, m, root, lo, page) && Translate(m0, root, page) == None
    requires |m.free| < 1 + Missing(m.tables, root, Path(page))
    ensures |m0.free| < Cost(m0, root, NewPages(m0, root, lo, hi))
  {
    hide NewPages, Spent, Missing, Translate, Cost;
    NewPagesGrow(m0, root, lo, page);
    TooFew(m0, m, root, NewPages(m0, root, lo, page), page);
    NewPagesWithin(m0, root, lo, page + 4096, hi);
    CostGrows(m0, root, NewPages(m0, root, lo, page + 4096), NewPages(m0, root, lo, hi));
  }

  lemma EnoughFrames(m0: Memory, m: Memory, root: Frame, lo: nat, hi: nat)
    requires hi <= 0x8000_0000_0000 && SpentTo(m0, m, root, lo, hi)
    ensures |m0.free| >= Cost(m0, root, NewPages(m0, root, lo, hi))
  {
    SpentEnough(m0, m, root, NewPages(m0, root, lo, hi));
  }

  /** Four frames a page are always enough. */
  lemma FourAPage(m: Memory, root: Frame, lo: nat, n: nat)
    requires lo % 4096 == 0 && lo + n * 4096 <= 0x8000_0000_0000
    ensures Cost(m, root, NewPages(m, root, lo, lo + n * 4096)) <= 4 * n
  {
    hide Translate, Cost;
    var pages, all := NewPages(m, root, lo, lo + n * 4096), PageRange(lo, lo + n * 4096);
    CostAtMost(m, root, pages);
    RangeSize(lo, n);
    assert pages <= all;
    Subset(pages, all);
  }

  lemma PageInRange(start: nat, i: nat, n: nat)
    requires start % 4096 == 0 && i < n
    ensures (start + i * 4096) % 4096 == 0 && start + i * 4096 < start + n * 4096
    ensures start + i * 4096 + 4096 == start + (i + 1) * 4096
  {
  }

  lemma WholePages(start: nat, end: nat)
    requires start <= end && start % 4096 == 0 && end % 4096 == 0
    ensures PageUp(start) == start && (end - start + 4095) / 4096 == (end - start) / 4096
    ensures end == start + (end - start) / 4096 * 4096
  {
  }

  /** Moving the break from `end` up to `addr` needs more frames than there are. */
  ghost predicate TooFewFrames(m: Memory, root: Frame, end: nat, addr: nat)
    requires addr < BREAK_LIMIT
  {
    PageUp(addr) > end && |m.free| < Cost(m, root, NewPages(m, root, end, PageUp(addr)))
  }

  /** The page at the end is mapped as it was. */
  lemma EndUntouched(before: Memory, place: map<Frame, Place>, m: Memory, root: Frame, lo: nat, start: nat, page: nat)
    requires page < BREAK_LIMIT && page % 4096 == 0 && Grown(before, place, m, root, lo, start, page)
    requires IsRoot(place, root)
    ensures Translate(m, root, page) == Translate(before, root, page)
  {
    hide PageEntry, PageOf;
    PageOfAligned(page, 0);
    assert PageEntry(m, root, page) == PageEntry(before, root, page);
  }

  class Process {
    const pageTable: PageTableManager
    const heapStart: nat
    var heapEnd: nat

    ghost predicate Valid()
      reads this, pageTable, pageTable.memory
    {
      && pageTable.Valid()
      && heapStart <= heapEnd <= 0x8000_0000_0000 && heapStart % 4096 == 0 && heapEnd % 4096 == 0
      && (heapStart < heapEnd ==> heapEnd <= BREAK_LIMIT)
      && HeapMapped(pageTable.memory.mem, pageTable.p4, heapStart, heapEnd)
    }

    /** A spawned process starts with an empty heap. */
    constructor (pageTable: PageTableManager, heapStart: nat)
      requires pageTable.Valid() && heapStart % 4096 == 0 && heapStart <= 0x8000_0000_0000
      ensures Valid() && this.pageTable == pageTable && this.heapStart == heapStart && heapEnd == heapStart
    {
      this.pageTable := pageTable;
      this.heapStart := heapStart;
      this.heapEnd := heapStart;
    }

    /** One round of the growing loop. */
    method GrowPage(page: nat, ghost end: nat, ghost m0: Memory, ghost place0: map<Frame, Place>) returns (ok: bool)
      requires pageTable.Valid() && heapStart <= heapEnd <= page < BREAK_LIMIT
      requires page % 4096 == 0 && heapEnd % 4096 == 0
      requires IsRoot(place0, pageTable.p4) && Extends(place0, pageTable.memory.place)
      requires Grown(m0, place0, pageTable.memory.mem, pageTable.p4, heapStart, heapEnd, page)
      requires page < end <= BREAK_LIMIT && end % 4096 == 0
      requires SpentTo(m0, pageTable.memory.mem, pageTable.p4, heapEnd, page)
      modifies pageTable.memory
      ensures pageTable.Valid() && Extends(place0, pageTable.memory.place)
      ensures Grown(m0, place0, pageTable.memory.mem, pageTable.p4, heapStart, heapEnd,
                    if ok then page + 4096 else page)
      ensures ok ==> SpentTo(m0, pageTable.memory.mem, pageTable.p4, heapEnd, page + 4096)
      ensures !ok ==> |m0.free| < Cost(m0, pageTable.p4, NewPages(m0, pageTable.p4, heapEnd, end))
      ensures KeepsPlain(old(pageTable.memory.mem), pageTable.memory.mem, old(pageTable.memory.place))
    {
      hide WellFormed, PageEntry, OnlyPagesChange, Grown, Extends, KeepsData, IsRoot, ZeroAt, PageOf, HeapMapped;
      hide Missing, SameTranslations, ExecutablePath, P4, P3, P2, P1, SpentTo, TablesAdded, KeepsPlain, NewPages, Cost;
      SameTablesPlain(pageTable.memory.mem, pageTable.memory.mem, pageTable.memory.place);
      PageOfAligned(page, 0);
      ghost var m, place := pageTable.memory.mem, pageTable.memory.place;
      EndUntouched(m0, place0, m, pageTable.p4, heapStart, heapEnd, page);
      var present := pageTable.TranslateAddr(page);
      if present.None? {
        var frame := MapNewPage(pageTable, page, HEAP_FLAGS, false);
        ExtendsTrans(place0, place, pageTable.memory.place);
        if frame.Err? {
          assert frame.error == OutOfMemory;
          NoFrameLeft(m0, m, pageTable.p4, heapEnd, page, end);
          GrownSame(m0, place0, m, place, pageTable.memory.mem, pageTable.p4, heapStart, heapEnd, page);
          return false;
        }
        ZeroHere(pageTable.memory.mem, pageTable.p4, page, frame.value);
        SpentOnNew(m0, m, pageTable.memory.mem, pageTable.p4, heapEnd, page);
      } else {
        SpentOnMapped(m0, m, pageTable.p4, heapEnd, page);
        OnlyPagesSelf(m, place, pageTable.p4, page / 4096, page / 4096 + 1);
      }
      GrownByPage(m0, place0, m, place, pageTable.memory.mem, pageTable.p4, heapStart, heapEnd, page);
      return true;
    }

    /** Map the pages from the break up to `end` that are not mapped yet. */
    method GrowHeap(end: nat) returns (ok: bool, ghost reached: nat)
      requires Valid() && heapEnd <= end <= BREAK_LIMIT && end % 4096 == 0
      modifies pageTable.memory
      ensures pageTable.Valid() && Extends(old(pageTable.memory.place), pageTable.memory.place)
      ensures heapEnd <= reached <= end && (ok ==> reached == end)
      ensures ok <==>
                |old(pageTable.memory.mem.free)| >=
                Cost(old(pageTable.memory.mem), pageTable.p4,
                     NewPages(old(pageTable.memory.mem), pageTable.p4, heapEnd, end))
      ensures KeepsPlain(old(pageTable.memory.mem), pageTable.memory.mem, old(pageTable.memory.place))
      ensures Grown(old(pageTable.memory.mem), old(pageTable.memory.place), pageTable.memory.mem, pageTable.p4,
                    heapStart, heapEnd, reached)
    {
      hide WellFormed, Grown, Extends, IsRoot, HeapMapped, NewPages, Cost, SpentTo, PageUp, KeepsPlain;
      hide OnlyPagesChange, KeepsData, PageEntry;
      WholePages(heapEnd, end);
      var start := PageUp(heapEnd);
      var numPages := (end - start + 4095) / 4096;
      ghost var m0, place0 := pageTable.memory.mem, pageTable.memory.place;
      GrownNothing(m0, place0, pageTable.p4, heapStart, start);
      ExtendsSelf(place0);
      SpentAtStart(m0, pageTable.p4, start);
      SameTablesPlain(m0, m0, place0);
      for i := 0 to numPages
        invariant pageTable.Valid() && Extends(place0, pageTable.memory.place)
        invariant Grown(m0, place0, pageTable.memory.mem, pageTable.p4, heapStart, start, start + i * 4096)
        invariant SpentTo(m0, pageTable.memory.mem, pageTable.p4, start, start + i * 4096)
        invariant KeepsPlain(m0, pageTable.memory.mem, place0)
      {
        var page := start + i * 4096;
        PageInRange(start, i, numPages);
        ghost var before, place := pageTable.memory.mem, pageTable.memory.place;
        var grown := GrowPage(page, end, m0, place0);
        KeepsPlainTrans(m0, before, pageTable.memory.mem, place0, place);
        if !grown {
          return false, page;
        }
      }
      EnoughFrames(m0, pageTable.memory.mem, pageTable.p4, start, end);
      return true, end;
    }

    /** Set the break. Growing maps and zeroes the new pages; shrinking only moves the
        break; a failed growth keeps it. */
    method SysBrk(addr: nat) returns (r: SyscallResult)
      requires Valid()
      modifies this, pageTable.memory
      ensures Valid() && Extends(old(pageTable.memory.place), pageTable.memory.place)
      ensures addr == 0 ==> r == Value(old(heapEnd)) && heapEnd == old(heapEnd)
      ensures addr != 0 && (addr < heapStart || addr >= BREAK_LIMIT) ==> r == Error(InvalidArgument)
      ensures addr != 0 && heapStart <= addr < BREAK_LIMIT ==> r == Value(PageUp(addr)) || r == Error(NoMemory)
      ensures addr != 0 && r.Value? ==> heapEnd == r.value
      ensures r == Error(NoMemory) <==>
                && addr != 0 && heapStart <= addr < BREAK_LIMIT
                && TooFewFrames(old(pageTable.memory.mem), pageTable.p4, old(heapEnd), addr)
      ensures Plain(old(pageTable.memory.mem), pageTable.p4) ==> Plain(pageTable.memory.mem, pageTable.p4)
      ensures r.Error? ==> heapEnd == old(heapEnd)
      ensures r.Value? && heapEnd > old(heapEnd) ==>
                Grown(old(pageTable.memory.mem), old(pageTable.memory.place), pageTable.memory.mem, pageTable.p4,
                      heapStart, old(heapEnd), heapEnd)
      ensures r.Value? && heapEnd <= old(heapEnd) ==> pageTable.memory.mem == old(pageTable.memory.mem)
      ensures OnlyPagesChange(old(pageTable.memory.mem), pageTable.memory.mem, old(pageTable.memory.place),
                              pageTable.p4, old(heapEnd) / 4096, BREAK_LIMIT / 4096)
    {
      hide WellFormed, PageEntry, Extends, IsRoot, ZeroAt, Cost, NewPages, Plain;
      ExtendsSelf(pageTable.memory.place);
      if addr == 0 {
        return Value(heapEnd);
      }
      if addr < heapStart || addr >= BREAK_LIMIT {
        return Error(InvalidArgument);
      }
      var newEnd := PageUp(addr);
      if newEnd > heapEnd {
        ghost var reached;
        var ok;
        ok, reached := GrowHeap(newEnd);
        if !ok {
          return Error(NoMemory);
        }
        heapEnd := newEnd;
      } else if newEnd < heapEnd {
        heapEnd := newEnd;
      }
      return Value(newEnd);
    }

    /** Move the break by an increment and return the old break. The break it sets is
        rounded up to a page; a move to address zero changes nothing. */
    method SysSbrk(increment: int) returns (r: SyscallResult)
      requires Valid() && -0x8000_0000_0000_0000 <= increment < 0x8000_0000_0000_0000
      modifies this, pageTable.memory
      ensures Valid()
      ensures r.Value? ==> r.value == old(heapEnd)
      ensures r.Value? && increment != 0 && old(heapEnd) + increment > 0 ==>
                heapEnd == PageUp(old(heapEnd) + increment)
      ensures increment == 0 || old(heapEnd) + increment == 0 ==> r.Value? && heapEnd == old(heapEnd)
      ensures r == Error(InvalidArgument) <==>
                && increment != 0 && old(heapEnd) + increment != 0
                && !(heapStart <= old(heapEnd) + increment < BREAK_LIMIT)
      ensures r == Error(NoMemory) <==>
                && increment != 0 && old(heapEnd) + increment != 0
                && heapStart <= old(heapEnd) + increment < BREAK_LIMIT
                && TooFewFrames(old(pageTable.memory.mem), pageTable.p4, old(heapEnd), old(heapEnd) + increment)
      ensures Plain(old(pageTable.memory.mem), pageTable.p4) ==> Plain(pageTable.memory.mem, pageTable.p4)
      ensures r.Error? ==> heapEnd == old(heapEnd)
      ensures heapEnd > old(heapEnd) ==>
                Grown(old(pageTable.memory.mem), old(pageTable.memory.place), pageTable.memory.mem, pageTable.p4,
                      heapStart, old(heapEnd), heapEnd)
      ensures r.Value? && heapEnd <= old(heapEnd) ==> pageTable.memory.mem == old(pageTable.memory.mem)
      ensures OnlyPagesChange(old(pageTable.memory.mem), pageTable.memory.mem, old(pageTable.memory.place),
                              pageTable.p4, old(heapEnd) / 4096, BREAK_LIMIT / 4096)
    {
      hide WellFormed, PageEntry, IsRoot, ZeroAt, Grown, PageOf, Plain, TooFewFrames, HeapMapped, Extends;
      hide OnlyPagesChange;
      OnlyPagesSelf(pageTable.memory.mem, pageTable.memory.place, pageTable.p4, heapEnd / 4096, BREAK_LIMIT / 4096);
      var oldBreak := heapEnd;
      var newBreak := oldBreak + increment;
      if newBreak < 0 || newBreak >= 0x1_0000_0000_0000_0000 {
        return Error(InvalidArgument);
      }
      if increment != 0 {
        var moved := SysBrk(newBreak);
        if moved.Error? {
          return moved;
        }
      }
      return Value(oldBreak);
    }
  }

  lemma ZeroHere(m: Memory, root: Frame, a: VirtAddr, f: Frame)
    requires PageEntry(m, root, a) == Some(Entry(f, HEAP_FLAGS)) && f in m.data && m.data[f] == ZeroBytes()
    ensures ZeroAt(m, root, a)
  {
  }

  lemma OnlyPagesSelf(m: Memory, place: map<Frame, Place>, root: Frame, lo: int, hi: int)
    ensures OnlyPagesChange(m, m, place, root, lo, hi) && KeepsData(m, m)
  {
  }

  lemma ExtendsTrans(place: map<Frame, Place>, place1: map<Frame, Place>, place2: map<Frame, Place>)
    requires Extends(place, place1) && Extends(place1, place2)
    ensures Extends(place, place2)
  {
  }
}
