/** User address spaces of kernel/src/arch/x86_64/usermode.rs: a fresh lower half
    over the shared kernel half, and what calls on the lower half cannot change. */
module UserSpace {
  import opened Common
  import opened Paging
  import opened FrameCost

  const USER_STACK_BASE := 0x7FFF_FFE0_0000
  const USER_STACK_PAGES := 16
  const STACK_FLAGS := Flags(PRESENT + WRITABLE + USER, true)

  predicate Lower(v: VirtAddr) { P4(v) < 256 }

  /** Nothing differs through other roots, nor in the upper half of `root`. */
  ghost predicate Isolated(m: Memory, m': Memory, place: map<Frame, Place>, root: Frame) {
    forall r: Frame, w: VirtAddr :: IsRoot(place, r) && (r != root || !Lower(w)) ==>
      PageEntry(m', r, w) == PageEntry(m, r, w)
  }

  /** A step through the lower half of `root`: tables are only added, and nothing
      outside that half moves. */
  ghost predicate Confined(m: Memory, place: map<Frame, Place>, m': Memory, place': map<Frame, Place>, root: Frame) {
    Extends(place, place') && Isolated(m, m', place, root)
  }

  lemma LowerSlotIsIsolated(m: Memory, m': Memory, place: map<Frame, Place>, root: Frame, v: VirtAddr)
    requires Lower(v) && OnlySlotChanges(m, m', place, root, v)
    ensures Isolated(m, m', place, root)
  {
    forall r: Frame, w: VirtAddr | IsRoot(place, r) && (r != root || !Lower(w))
      ensures PageEntry(m', r, w) == PageEntry(m, r, w)
    {
      PathIdentifiesPage(v, w);
      if PageOf(v) == PageOf(w) {
        assert Path(v)[0] == Path(w)[0];
      }
    }
  }

  datatype Call =
    | CallMap(virt: VirtAddr, phys: Frame, flags: Flags)
    | CallMapExecutable(virt: VirtAddr, phys: Frame, flags: Flags)
    | CallUnmap(virt: VirtAddr)

  /** One such call. */
  method LowerCall(pt: PageTableManager, call: Call)
    requires pt.Valid() && Lower(call.virt)
    modifies pt.memory
    ensures pt.Valid() && Confined(old(pt.memory.mem), old(pt.memory.place), pt.memory.mem, pt.memory.place, pt.p4)
    ensures pt.memory.mem.data == old(pt.memory.mem.data)
    ensures KeepsPlain(old(pt.memory.mem), pt.memory.mem, old(pt.memory.place))
  {
    hide KeepsPlain, OnlySlotChanges, WellFormed, Isolated, SameTranslations, TablesAdded, PlainWalk, Missing, Lookup;
    hide FourReads, ExecutablePath;
    match call {
      case CallMap(virt, phys, flags) => var _ := pt.Map(virt, phys, flags);
      case CallMapExecutable(virt, phys, flags) => var _ := pt.MapExecutable(virt, phys, flags);
      case CallUnmap(virt) => var _ := pt.Unmap(virt);
    }
    LowerSlotIsIsolated(old(pt.memory.mem), pt.memory.mem, old(pt.memory.place), pt.p4, call.virt);
  }

  lemma ConfinedCompose(m: Memory, place: map<Frame, Place>, m1: Memory, place1: map<Frame, Place>, m2: Memory,
                        place2: map<Frame, Place>, root: Frame)
    requires Confined(m, place, m1, place1, root) && Confined(m1, place1, m2, place2, root)
    ensures Confined(m, place, m2, place2, root)
  {
    hide PageEntry, Lower;
  }

  lemma ConfinedSelf(m: Memory, place: map<Frame, Place>, root: Frame)
    ensures Confined(m, place, m, place, root)
  {
  }

  /** Any run of lower-half calls through one table leaves the kernel's table, every
      other table and the shared half as they were, whatever the calls return. */
  method RunLowerCalls(pt: PageTableManager, calls: seq<Call>)
    requires pt.Valid() && forall k :: 0 <= k < |calls| ==> Lower(calls[k].virt)
    modifies pt.memory
    ensures pt.Valid() && Extends(old(pt.memory.place), pt.memory.place)
    ensures Isolated(old(pt.memory.mem), pt.memory.mem, old(pt.memory.place), pt.p4)
    ensures pt.memory.mem.data == old(pt.memory.mem.data)
    ensures KeepsPlain(old(pt.memory.mem), pt.memory.mem, old(pt.memory.place))
  {
    hide KeepsPlain, Isolated, Extends, WellFormed, Lower;
    SameTablesPlain(pt.memory.mem, pt.memory.mem, pt.memory.place);
    ConfinedSelf(pt.memory.mem, pt.memory.place, pt.p4);
    for k := 0 to |calls|
      invariant pt.Valid()
      invariant Confined(old(pt.memory.mem), old(pt.memory.place), pt.memory.mem, pt.memory.place, pt.p4)
      invariant pt.memory.mem.data == old(pt.memory.mem.data)
      invariant KeepsPlain(old(pt.memory.mem), pt.memory.mem, old(pt.memory.place))
    {
      ghost var before, place := pt.memory.mem, pt.memory.place;
      LowerCall(pt, calls[k]);
      ConfinedCompose(old(pt.memory.mem), old(pt.memory.place), before, place, pt.memory.mem, pt.memory.place, pt.p4);
      KeepsPlainTrans(old(pt.memory.mem), before, pt.memory.mem, old(pt.memory.place), place);
    }
  }

  /** Through a shared top-level entry two roots always see the same mappings. */
  lemma SharedEntryAgrees(m: Memory, r: Frame, s: Frame, w: VirtAddr)
    requires r in m.tables && s in m.tables
    requires m.tables[r][P4(w)].Present() == m.tables[s][P4(w)].Present()
    requires m.tables[r][P4(w)].frame == m.tables[s][P4(w)].frame
    ensures PageEntry(m, r, w) == PageEntry(m, s, w)
  {
  }

  // ---------------------------------------------------------------------------
  // Fresh pages

  /** Through `root` only pages lo..hi-1 may differ; through other roots nothing does. */
  ghost predicate OnlyPagesChange(m: Memory, m': Memory, place: map<Frame, Place>, root: Frame, lo: int, hi: int) {
    forall r: Frame, w: VirtAddr :: IsRoot(place, r) && !(r == root && lo <= PageOf(w) < hi) ==>
      PageEntry(m', r, w) == PageEntry(m, r, w)
  }

  ghost predicate KeepsData(m: Memory, m': Memory) {
    forall f :: f in m.data ==> f in m'.data && m'.data[f] == m.data[f]
  }

  /** Pages below 2^35 are the lower half. */
  lemma LowerPages(w: VirtAddr)
    ensures Lower(w) <==> PageOf(w) < 0x8_0000_0000
  {
    IndicesOfPage(w);
  }

  lemma OnlyPagesStay(m: Memory, place: map<Frame, Place>, root: Frame, lo: int)
    ensures OnlyPagesChange(m, m, place, root, lo, lo)
  {
  }

  lemma OnlyPagesWiden(m: Memory, m': Memory, place: map<Frame, Place>, root: Frame, lo: int, mid: int, hi: int)
    requires mid <= hi && OnlyPagesChange(m, m', place, root, lo, mid)
    ensures OnlyPagesChange(m, m', place, root, lo, hi)
  {
  }

  lemma OnlyPagesCompose(m: Memory, m1: Memory, m2: Memory, place: map<Frame, Place>, place1: map<Frame, Place>,
                         root: Frame, lo: int, mid: int, hi: int)
    requires lo <= mid <= hi && Extends(place, place1)
    requires OnlyPagesChange(m, m1, place, root, lo, mid) && OnlyPagesChange(m1, m2, place1, root, mid, hi)
    ensures OnlyPagesChange(m, m2, place, root, lo, hi)
  {
  }

  lemma SameTablesPlain(m: Memory, m': Memory, place: map<Frame, Place>)
    requires m'.tables == m.tables
    ensures KeepsPlain(m, m', place)
  {
  }

  lemma SameTablesAdded(m: Memory, m1: Memory, m2: Memory, root: Frame, v: VirtAddr)
    requires m1.tables == m.tables && TablesAdded(m1, m2, root, v)
    ensures TablesAdded(m, m2, root, v)
  {
  }

  /** Allocate a frame, zero it and map it at a lower-half page. */
  method MapNewPage(pt: PageTableManager, virt: VirtAddr, flags: Flags, executable: bool) returns (r: Result<Frame>)
    requires pt.Valid() && Lower(virt) && flags.low % 2 == 1
    modifies pt.memory
    ensures pt.Valid() && Extends(old(pt.memory.place), pt.memory.place)
    ensures OnlyPagesChange(old(pt.memory.mem), pt.memory.mem, old(pt.memory.place), pt.p4,
                            PageOf(virt), PageOf(virt) + 1)
    ensures KeepsData(old(pt.memory.mem), pt.memory.mem)
    ensures r.Ok? ==> PageEntry(pt.memory.mem, pt.p4, virt) ==
                        Some(Entry(r.value, if executable then flags.(nx := false) else flags))
    ensures r.Ok? && executable ==> ExecutablePath(pt.memory.mem.tables, pt.p4, Path(virt))
    ensures r.Ok? ==> r.value !in old(pt.memory.mem.data)
                      && pt.memory.mem.data == old(pt.memory.mem.data)[r.value := ZeroBytes()]
    ensures r.Ok? && !executable ==> old(PageEntry(pt.memory.mem, pt.p4, virt)) == None
    ensures r.Err? ==> SameTranslations(old(pt.memory.mem), pt.memory.mem, old(pt.memory.place))
    ensures r.Err? ==> r.error == AlreadyMapped || r.error == OutOfMemory
    ensures r == Err(AlreadyMapped) ==> !executable && old(PageEntry(pt.memory.mem, pt.p4, virt)).Some?
    ensures r == Err(OutOfMemory) <==>
              |old(pt.memory.mem.free)| < 1 + Missing(old(pt.memory.mem.tables), pt.p4, Path(virt))
    ensures r.Ok? ==> |pt.memory.mem.free| ==
                        |old(pt.memory.mem.free)| - 1 - Missing(old(pt.memory.mem.tables), pt.p4, Path(virt))
    ensures r.Ok? ==> TablesAdded(old(pt.memory.mem), pt.memory.mem, pt.p4, virt)
    ensures r.Ok? && executable ==> PlainWalk(pt.memory.mem.tables, pt.p4, Path(virt))
    ensures KeepsPlain(old(pt.memory.mem), pt.memory.mem, old(pt.memory.place))
  {
    hide WellFormed, PageEntry, Lookup, ExecutablePath, PageOf, TablesAdded, KeepsPlain, PlainWalk, Missing;
    var frame := pt.memory.AllocateFrame();
    SameTablesPlain(old(pt.memory.mem), pt.memory.mem, pt.memory.place);
    if frame.None? {
      return Err(OutOfMemory);
    }
    pt.memory.ZeroPage(frame.value);
    ghost var before := pt.memory.mem;
    SameTablesAgree(old(pt.memory.mem), before, pt.memory.place);
    SameTablesPlain(old(pt.memory.mem), before, pt.memory.place);
    ExtendsSelf(pt.memory.place);
    var mapped: Result<()>;
    if executable {
      mapped := pt.MapExecutable(virt, frame.value, flags);
    } else {
      mapped := pt.Map(virt, frame.value, flags);
    }
    KeepsPlainTrans(old(pt.memory.mem), before, pt.memory.mem, old(pt.memory.place), old(pt.memory.place));
    if mapped.Ok? {
      SameTablesAdded(old(pt.memory.mem), before, pt.memory.mem, pt.p4, virt);
    }
    r := match mapped case Ok(_) => Ok(frame.value) case Err(e) => Err(e);
  }

  // ---------------------------------------------------------------------------
  // The user stack

  function StackPage(i: nat): VirtAddr
    requires i < USER_STACK_PAGES
  {
    USER_STACK_BASE + i * 4096
  }

  const STACK_FIRST := 0x7_FFFF_FE00

  lemma StackPages(i: nat)
    requires i < USER_STACK_PAGES
    ensures PageOf(StackPage(i)) == STACK_FIRST + i && Lower(StackPage(i))
  {
    LowerPages(StackPage(i));
  }

  /** The first `n` stack pages are mapped, writable and not executable, to different zeroed
      pages. */
  ghost predicate StackMapped(m: Memory, root: Frame, n: nat)
    requires n <= USER_STACK_PAGES
  {
    && (forall i: nat :: i < n ==>
          var e := PageEntry(m, root, StackPage(i));
          e.Some? && e.value.flags == STACK_FLAGS && e.value.frame in m.data && m.data[e.value.frame] == ZeroBytes())
    && (forall i: nat, j: nat :: i < j < n ==>
          PageEntry(m, root, StackPage(i)) != PageEntry(m, root, StackPage(j)))
  }

  lemma StackGrows(m: Memory, m': Memory, place: map<Frame, Place>, root: Frame, n: nat, f: Frame)
    requires n < USER_STACK_PAGES && IsRoot(place, root) && StackMapped(m, root, n) && f !in m.data
    requires OnlyPagesChange(m, m', place, root, STACK_FIRST + n, STACK_FIRST + n + 1)
    requires m'.data == m.data[f := ZeroBytes()] && PageEntry(m', root, StackPage(n)) == Some(Entry(f, STACK_FLAGS))
    ensures StackMapped(m', root, n + 1)
  {
    hide PageEntry;
    StackStaysMapped(m, m', place, root, n);
    forall i: nat | i < n
      ensures PageEntry(m', root, StackPage(i)) == PageEntry(m, root, StackPage(i))
    {
      StackPages(i);
    }
  }

  lemma StackStaysMapped(m: Memory, m': Memory, place: map<Frame, Place>, root: Frame, n: nat)
    requires n < USER_STACK_PAGES && IsRoot(place, root) && StackMapped(m, root, n) && KeepsData(m, m')
    requires OnlyPagesChange(m, m', place, root, STACK_FIRST + n, STACK_FIRST + n + 1)
    ensures StackMapped(m', root, n)
  {
    hide PageEntry;
    forall i: nat | i < n
      ensures PageEntry(m', root, StackPage(i)) == PageEntry(m, root, StackPage(i))
    {
      StackPages(i);
    }
  }

  /** The stack pages, by address. */
  function StackRange(n: nat): set<nat> { PageRange(USER_STACK_BASE, USER_STACK_BASE + n * 4096) }

  lemma StackRangeGrows(n: nat)
    requires n < USER_STACK_PAGES
    ensures StackRange(n + 1) == StackRange(n) + {StackPage(n)} && StackPage(n) !in StackRange(n)
    ensures StackRange(n + 1) <= StackRange(USER_STACK_PAGES) && Addresses(StackRange(USER_STACK_PAGES))
  {
    RangeGrows(USER_STACK_BASE, StackPage(n));
  }

  lemma StackInUser()
    ensures StackRange(0) == {} && Addresses(StackRange(USER_STACK_PAGES))
  {
  }

  /** None of the stack pages is mapped. */
  ghost predicate StackUnmapped(m: Memory, root: Frame, n: nat)
    requires n <= USER_STACK_PAGES
  {
    forall i: nat :: i < n ==> PageEntry(m, root, StackPage(i)) == None
  }

  /** A page in the middle of the work has its old entry still. */
  lemma NextStackPage(m0: Memory, m: Memory, place: map<Frame, Place>, root: Frame, n: nat)
    requires n < USER_STACK_PAGES && IsRoot(place, root)
    requires OnlyPagesChange(m0, m, place, root, STACK_FIRST, STACK_FIRST + n)
    ensures PageEntry(m, root, StackPage(n)) == PageEntry(m0, root, StackPage(n))
  {
    hide PageEntry;
    StackPages(n);
  }

  /** Too few frames for one of the stack pages are too few for all. */
  lemma StackTooFew(m0: Memory, m: Memory, root: Frame, n: nat)
    requires n < USER_STACK_PAGES && Spent(m0, m, root, StackRange(n))
    requires |m.free| < 1 + Missing(m.tables, root, Path(StackPage(n)))
    ensures Addresses(StackRange(USER_STACK_PAGES)) && |m0.free| < Cost(m0, root, StackRange(USER_STACK_PAGES))
  {
    hide StackRange, Cost, Missing, TablesBrought, P4, P3, P2, P1;
    StackRangeGrows(n);
    TooFew(m0, m, root, StackRange(n), StackPage(n));
    CostGrows(m0, root, StackRange(n + 1), StackRange(USER_STACK_PAGES));
  }

  lemma StackSpentMore(m0: Memory, m: Memory, m': Memory, root: Frame, n: nat)
    requires n < USER_STACK_PAGES && Spent(m0, m, root, StackRange(n)) && TablesAdded(m, m', root, StackPage(n))
    requires |m'.free| == |m.free| - 1 - Missing(m.tables, root, Path(StackPage(n)))
    ensures Spent(m0, m', root, StackRange(n + 1))
  {
    hide StackRange, Cost, Missing, TablesBrought, TablesAdded, P4, P3, P2, P1;
    StackRangeGrows(n);
    SpentMore(m0, m, m', root, StackRange(n), StackPage(n));
  }

  lemma StackPath(i: nat)
    requires i < USER_STACK_PAGES
    ensures Path(StackPage(i))[..3] == [255, 511, 511]
  {
    var v := StackPage(i);
    assert 0x7FFF_FFE0_0000 <= v < 0x8000_0000_0000;
    assert P4(v) == 255 && P3(v) == 511 && P2(v) == 511 by {
      assert v / 0x80_0000_0000 == 255;
      assert v / 0x4000_0000 == 0x1_FFFF;
      assert v / 0x20_0000 == 0x3FF_FFFF;
    }
    hide P4, P3, P2, P1, StackPage;
  }

  /** Below an empty lower half the stack takes sixteen pages and three tables. */
  lemma StackCost(m: Memory, root: Frame)
    requires root in m.tables && forall k :: 0 <= k < 256 ==> !m.tables[root][k].Present()
    ensures Addresses(StackRange(USER_STACK_PAGES)) && Cost(m, root, StackRange(USER_STACK_PAGES)) == 19
  {
    StackInUser();
    RangeSize(USER_STACK_BASE, USER_STACK_PAGES);
    var pages, three := StackRange(USER_STACK_PAGES), [255, 511, 511];
    forall p | p in pages
      ensures Path(p)[..3] == three && Missing(m.tables, root, Path(p)) == 3
    {
      var i := (p - USER_STACK_BASE) / 4096;
      assert p == StackPage(i);
      StackPath(i);
      assert Path(p)[0] == Path(p)[..3][0];
    }
    hide Missing, P4, P3, P2, P1;
    var lacking := Lacking(m.tables, root, pages);
    forall p, d | p in pages && d in {1, 2, 3}
      ensures Path(p)[..d] == three[..d]
    {
      assert Path(p)[..d] == Path(p)[..3][..d];
    }
    assert USER_STACK_BASE in pages;
    assert |three[..1]| == 1 && |three[..2]| == 2 && |three[..3]| == 3;
    assert lacking == {three[..1], three[..2], three[..3]};
  }

  lemma NoStackYet(m: Memory, root: Frame)
    ensures StackMapped(m, root, 0)
  {
  }

  /** Map sixteen zeroed pages and return the aligned stack top. */
  method AllocateUserStack(pt: PageTableManager) returns (r: Result<int>)
    requires pt.Valid()
    modifies pt.memory
    ensures pt.Valid() && Extends(old(pt.memory.place), pt.memory.place)
    ensures OnlyPagesChange(old(pt.memory.mem), pt.memory.mem, old(pt.memory.place), pt.p4,
                            STACK_FIRST, STACK_FIRST + USER_STACK_PAGES)
    ensures KeepsData(old(pt.memory.mem), pt.memory.mem)
    ensures r.Ok? ==> r.value == 0x7FFF_FFE1_0000 && r.value % 16 == 0
    ensures r.Ok? ==> StackMapped(pt.memory.mem, pt.p4, USER_STACK_PAGES)
    ensures Addresses(StackRange(USER_STACK_PAGES))
    ensures r.Ok? <==>
              && StackUnmapped(old(pt.memory.mem), pt.p4, USER_STACK_PAGES)
              && |old(pt.memory.mem.free)| >= Cost(old(pt.memory.mem), pt.p4, StackRange(USER_STACK_PAGES))
    ensures r.Err? ==> r.error == OutOfMemory || r.error == AlreadyMapped
    ensures r == Err(AlreadyMapped) ==> !StackUnmapped(old(pt.memory.mem), pt.p4, USER_STACK_PAGES)
    ensures KeepsPlain(old(pt.memory.mem), pt.memory.mem, old(pt.memory.place))
  {
    hide WellFormed, PageEntry, OnlyPagesChange, PageOf, P4, StackMapped, KeepsPlain, TablesAdded, PlainWalk, Missing;
    hide StackRange, Cost, TablesBrought, Spent;
    StackInUser();
    SpentNothing(pt.memory.mem, pt.p4);
    SameTablesPlain(pt.memory.mem, pt.memory.mem, pt.memory.place);
    OnlyPagesStay(pt.memory.mem, pt.memory.place, pt.p4, STACK_FIRST);
    NoStackYet(pt.memory.mem, pt.p4);
    for i := 0 to USER_STACK_PAGES
      invariant pt.Valid() && Extends(old(pt.memory.place), pt.memory.place)
      invariant OnlyPagesChange(old(pt.memory.mem), pt.memory.mem, old(pt.memory.place), pt.p4,
                                STACK_FIRST, STACK_FIRST + i)
      invariant KeepsData(old(pt.memory.mem), pt.memory.mem)
      invariant StackMapped(pt.memory.mem, pt.p4, i) && StackUnmapped(old(pt.memory.mem), pt.p4, i)
      invariant Spent(old(pt.memory.mem), pt.memory.mem, pt.p4, StackRange(i))
      invariant KeepsPlain(old(pt.memory.mem), pt.memory.mem, old(pt.memory.place))
    {
      StackPages(i);
      ghost var before, place := pt.memory.mem, pt.memory.place;
      NextStackPage(old(pt.memory.mem), before, old(pt.memory.place), pt.p4, i);
      var mapped := MapNewPage(pt, StackPage(i), STACK_FLAGS, false);
      KeepsPlainTrans(old(pt.memory.mem), before, pt.memory.mem, old(pt.memory.place), place);
      OnlyPagesCompose(old(pt.memory.mem), before, pt.memory.mem, old(pt.memory.place), place,
                       pt.p4, STACK_FIRST, STACK_FIRST + i, STACK_FIRST + i + 1);
      if mapped.Err? {
        OnlyPagesWiden(old(pt.memory.mem), pt.memory.mem, old(pt.memory.place), pt.p4,
                       STACK_FIRST, STACK_FIRST + i + 1, STACK_FIRST + USER_STACK_PAGES);
        if mapped.error == OutOfMemory {
          StackTooFew(old(pt.memory.mem), before, pt.p4, i);
        }
        return Err(mapped.error);
      }
      StackGrows(before, pt.memory.mem, place, pt.p4, i, mapped.value);
      StackSpentMore(old(pt.memory.mem), before, pt.memory.mem, pt.p4, i);
    }
    SpentEnough(old(pt.memory.mem), pt.memory.mem, pt.p4, StackRange(USER_STACK_PAGES));
    r := Ok(USER_STACK_BASE + USER_STACK_PAGES * 4096);
  }

  // ---------------------------------------------------------------------------
  // A new address space

  /** The new top-level table: an empty lower half over the current upper half. */
  function UserTop(current: Table): Table {
    seq(512, i requires 0 <= i < 512 => if i < 256 then EMPTY_ENTRY else current[i])
  }

  /** A table that no entry points to is invisible to every other walk. */
  lemma {:induction false} FreshTableKeepsLookup(tables: map<Frame, Table>, place: map<Frame, Place>, kernel: Frame,
                                                 n: Frame, t: Table, f: Frame, path: seq<int>)
    requires Placed(tables, place, kernel) && n !in tables
    requires |path| > 0 && IsPath(path) && f in place && |place[f].path| + |path| == 4
    ensures Lookup(tables[n := t], f, path) == Lookup(tables, f, path)
    decreases |path|
  {
    if |path| > 1 && tables[f][path[0]].Present() {
      FreshTableKeepsLookup(tables, place, kernel, n, t, tables[f][path[0]].frame, path[1..]);
    }
  }

  /** Adding a user root keeps the tree, keeps every old translation, shows the
      current upper half and nothing below it. */
  lemma NewRootKeeps(m: Memory, place: map<Frame, Place>, kernel: Frame, current: Frame, n: Frame)
    requires WellFormed(m, place, kernel) && IsRoot(place, current)
    requires n !in m.tables && n !in m.data && n !in m.free
    ensures current in m.tables
    ensures var m' := m.(tables := m.tables[n := UserTop(m.tables[current])]);
            && WellFormed(m', place[n := Place(n, [])], kernel)
            && SameTranslations(m, m', place) && n !in place && IsRoot(place[n := Place(n, [])], n)
            && (forall w: VirtAddr :: PageEntry(m', n, w) == if Lower(w) then None else PageEntry(m', current, w))
  {
    var top := UserTop(m.tables[current]);
    var m' := m.(tables := m.tables[n := top]);
    forall r: Frame, w: VirtAddr | IsRoot(place, r)
      ensures PageEntry(m', r, w) == PageEntry(m, r, w)
    {
      FreshTableKeepsLookup(m.tables, place, kernel, n, top, r, Path(w));
    }
    forall w: VirtAddr
      ensures PageEntry(m', n, w) == if Lower(w) then None else PageEntry(m', current, w)
    {
      if !Lower(w) {
        SharedEntryAgrees(m', n, current, w);
      }
    }
  }

  lemma {:induction false} FreshTableKeepsPlain(tables: map<Frame, Table>, place: map<Frame, Place>, kernel: Frame,
                                                n: Frame, t: Table, f: Frame, path: seq<int>)
    requires Placed(tables, place, kernel) && n !in tables
    requires |path| > 0 && IsPath(path) && f in place && |place[f].path| + |path| == 4 && PlainWalk(tables, f, path)
    ensures PlainWalk(tables[n := t], f, path)
    decreases |path|
  {
    if |path| > 1 && tables[f][path[0]].Present() {
      FreshTableKeepsPlain(tables, place, kernel, n, t, tables[f][path[0]].frame, path[1..]);
    }
  }

  /** The lower half of a new root is empty, so plain; the other roots stay as plain as they
      were. */
  lemma NewRootPlain(m: Memory, place: map<Frame, Place>, kernel: Frame, current: Table, n: Frame)
    requires WellFormed(m, place, kernel) && n !in m.tables
    ensures var m' := m.(tables := m.tables[n := UserTop(current)]); Plain(m', n) && KeepsPlain(m, m', place)
  {
    hide PlainWalk, P3, P2, P1;
    var m' := m.(tables := m.tables[n := UserTop(current)]);
    forall w: VirtAddr | P4(w) < 256
      ensures PlainWalk(m'.tables, n, Path(w))
    {
      AbsentIsPlain(m'.tables, n, Path(w));
    }
    forall r: Frame, w: VirtAddr | IsRoot(place, r) && Plain(m, r) && P4(w) < 256
      ensures PlainWalk(m'.tables, r, Path(w))
    {
      FreshTableKeepsPlain(m.tables, place, kernel, n, UserTop(current), r, Path(w));
    }
  }

  lemma AbsentIsPlain(tables: map<Frame, Table>, f: Frame, path: seq<int>)
    requires |path| > 0 && IsPath(path) && f in tables && !tables[f][path[0]].Present()
    ensures PlainWalk(tables, f, path)
  {
  }

  lemma ExtendsSelf(place: map<Frame, Place>)
    ensures Extends(place, place)
  {
  }

  lemma ExtendsNew(place: map<Frame, Place>, n: Frame, place': map<Frame, Place>)
    requires n !in place && Extends(place[n := Place(n, [])], place')
    ensures Extends(place, place') && IsRoot(place', n)
  {
    assert n in place[n := Place(n, [])];
  }

  lemma SameTablesAgree(m: Memory, m': Memory, place: map<Frame, Place>)
    requires m'.tables == m.tables
    ensures SameTranslations(m, m', place)
  {
  }

  lemma SameTranslationsTrans(m: Memory, m1: Memory, m2: Memory, place: map<Frame, Place>)
    requires SameTranslations(m, m1, place) && SameTranslations(m1, m2, place)
    ensures SameTranslations(m, m2, place)
  {
  }

  /** Mapping the stack below a new root keeps the shared half in step and adds
      nothing else to the lower half. */
  lemma StackOnNewRoot(m: Memory, m1: Memory, m2: Memory, place: map<Frame, Place>, place1: map<Frame, Place>,
                       current: Frame, n: Frame)
    requires n !in place && place1 == place[n := Place(n, [])] && IsRoot(place, current)
    requires SameTranslations(m, m1, place)
    requires forall w: VirtAddr :: PageEntry(m1, n, w) == if Lower(w) then None else PageEntry(m1, current, w)
    requires OnlyPagesChange(m1, m2, place1, n, STACK_FIRST, STACK_FIRST + USER_STACK_PAGES)
    ensures SameTranslations(m, m2, place)
    ensures forall w: VirtAddr :: !Lower(w) ==> PageEntry(m2, n, w) == PageEntry(m2, current, w)
    ensures forall w: VirtAddr :: Lower(w) && PageEntry(m2, n, w).Some? ==>
              STACK_FIRST <= PageOf(w) < STACK_FIRST + USER_STACK_PAGES
  {
    forall w: VirtAddr | !Lower(w)
      ensures PageEntry(m2, n, w) == PageEntry(m2, current, w)
    {
      LowerPages(w);
      assert PageEntry(m2, n, w) == PageEntry(m1, n, w);
    }
  }

  /** The copy of the kernel half into a zeroed top-level table. */
  method CopyKernelHalf(current: Table) returns (top: Table)
    ensures top == UserTop(current)
  {
    top := ZeroTable();
    for i := 256 to 512
      invariant forall k :: 0 <= k < 512 ==> top[k] == if 256 <= k < i then current[k] else EMPTY_ENTRY
    {
      top := top[i := current[i]];
    }
  }

  lemma LowerHalfEmpty(current: Table)
    ensures forall k :: 0 <= k < 256 ==> !UserTop(current)[k].Present()
  {
  }

  lemma NothingBelow(m: Memory, root: Frame)
    requires forall w: VirtAddr :: Lower(w) ==> PageEntry(m, root, w) == None
    ensures StackUnmapped(m, root, USER_STACK_PAGES)
  {
    hide PageEntry, P4;
    forall i: nat | i < USER_STACK_PAGES
      ensures PageEntry(m, root, StackPage(i)) == None
    {
      StackPages(i);
    }
  }

  /** Create a user address space below a fresh root, from the table in cr3. */
  method CreateUserAddressSpace(memory: PhysicalMemory, cr3: Frame) returns (r: Result<(PageTableManager, int)>)
    requires memory.Valid() && IsRoot(memory.place, cr3)
    modifies memory
    ensures memory.Valid() && Extends(old(memory.place), memory.place)
    ensures SameTranslations(old(memory.mem), memory.mem, old(memory.place))
    ensures KeepsData(old(memory.mem), memory.mem)
    ensures r.Ok? ==>
              var (pt, top) := r.value;
              && pt.memory == memory && pt.Valid() && pt.p4 !in old(memory.place) && top == 0x7FFF_FFE1_0000
              && StackMapped(memory.mem, pt.p4, USER_STACK_PAGES)
              && (forall w: VirtAddr :: !Lower(w) ==> PageEntry(memory.mem, pt.p4, w) == PageEntry(memory.mem, cr3, w))
              && (forall w: VirtAddr :: Lower(w) && PageEntry(memory.mem, pt.p4, w).Some? ==>
                    STACK_FIRST <= PageOf(w) < STACK_FIRST + USER_STACK_PAGES)
              && Plain(memory.mem, pt.p4)
    ensures r.Ok? <==> |old(memory.mem.free)| >= 20
    ensures r.Err? ==> r.error == OutOfMemory
    ensures KeepsPlain(old(memory.mem), memory.mem, old(memory.place))
  {
    hide SameTranslations, OnlyPagesChange, PageEntry, WellFormed, Extends, StackMapped, Plain, UserTop;
    hide StackRange, Cost, StackUnmapped;
    var frame := memory.AllocateFrame();
    SameTablesAgree(old(memory.mem), memory.mem, memory.place);
    SameTablesPlain(old(memory.mem), memory.mem, memory.place);
    ExtendsSelf(memory.place);
    if frame.None? {
      return Err(OutOfMemory);
    }
    var n := frame.value;
    NewRootKeeps(memory.mem, memory.place, memory.kernel, cr3, n);
    NewRootPlain(memory.mem, memory.place, memory.kernel, memory.mem.tables[cr3], n);
    memory.place := memory.place[n := Place(n, [])];
    var topTable := CopyKernelHalf(memory.mem.tables[cr3]);
    memory.mem := memory.mem.(tables := memory.mem.tables[n := topTable]);
    SameTranslationsTrans(old(memory.mem), old(memory.mem).(free := memory.mem.free), memory.mem, old(memory.place));
    var pt := new PageTableManager(memory, n);
    ghost var before, place := memory.mem, memory.place;
    assert forall k :: 0 <= k < 256 ==> !topTable[k].Present() by { LowerHalfEmpty(old(memory.mem.tables[cr3])); }
    StackCost(before, n);
    NothingBelow(before, n);
    var top := AllocateUserStack(pt);
    StackOnNewRoot(old(memory.mem), before, memory.mem, old(memory.place), place, cr3, n);
    ExtendsNew(old(memory.place), n, memory.place);
    if top.Err? {
      return Err(top.error);
    }
    r := Ok((pt, top.value));
  }
}
