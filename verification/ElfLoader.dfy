/** Loading ELF segments into a user address space (kernel/src/usermode/spawn.rs). */
module ElfLoader {
  import opened Common
  import opened Paging
  import opened FrameCost
  import opened UserSpace
  import opened Rights

  datatype ProgramHeader = ProgramHeader(load: bool, executable: bool, writable: bool,
                                         offset: nat, vaddr: nat, filesz: nat, memsz: nat)

  function PageUp(a: nat): nat { AlignUp(a, 4096) }

  function PageBase(a: nat): nat { a - a % 4096 }

  /** The segment lies in the lower half of the address space. */
  predicate InLowerHalf(ph: ProgramHeader) { ph.load ==> ph.vaddr + ph.memsz <= 0x8000_0000_0000 }

  /** The end of the file bytes that loading places: file data past the last page
      of the segment is dropped. */
  function FileEnd(ph: ProgramHeader): nat {
    var pages := PageUp(ph.vaddr + ph.memsz);
    if !ph.load || ph.memsz == 0 then ph.vaddr
    else if ph.vaddr + ph.filesz <= pages then ph.vaddr + ph.filesz
    else pages
  }

  function FileByte(elf: seq<Byte>, ph: ProgramHeader, a: nat): Byte
    requires ph.vaddr <= a
  {
    var i := ph.offset + (a - ph.vaddr);
    if i < |elf| then elf[i] else 0
  }

  /** The byte at `a` once the headers are loaded in order: the last segment whose
      file bytes cover it wins, and uncovered bytes are zero. */
  function Image(elf: seq<Byte>, phs: seq<ProgramHeader>, a: nat): Byte {
    if phs == [] then 0
    else
      var ph := phs[|phs| - 1];
      if ph.vaddr <= a < FileEnd(ph) then FileByte(elf, ph, a) else Image(elf, phs[..|phs| - 1], a)
  }

  /** The image while `ph` is being copied and only its bytes below `end` are in place. */
  function PartialImage(elf: seq<Byte>, phs: seq<ProgramHeader>, ph: ProgramHeader, end: nat, a: nat): Byte {
    if ph.vaddr <= a < end then FileByte(elf, ph, a) else Image(elf, phs, a)
  }

  /** The byte that user code sees at `a`. */
  ghost function ByteAt(m: Memory, root: Frame, a: VirtAddr): Option<Byte> {
    match Translate(m, root, a)
    case None => None
    case Some(f) => if f in m.data then Some(m.data[f][a % 4096]) else None
  }

  // ---------------------------------------------------------------------------
  // What the tracking map means

  /** Every tracked page is mapped to its own data frame. */
  ghost predicate Tracks(m: Memory, root: Frame, mapped: map<nat, Frame>) {
    && (forall p: nat :: p in mapped ==>
          p < 0x8000_0000_0000 && p % 4096 == 0 && mapped[p] in m.data && Translate(m, root, p) == Some(mapped[p]))
    && (forall p, q :: p in mapped && q in mapped && p != q ==> mapped[p] != mapped[q])
  }

  ghost predicate Shows(m: Memory, mapped: map<nat, Frame>, elf: seq<Byte>, phs: seq<ProgramHeader>,
                        ph: ProgramHeader, end: nat) {
    forall p, o :: p in mapped && 0 <= o < 4096 && mapped[p] in m.data ==>
      m.data[mapped[p]][o] == PartialImage(elf, phs, ph, end, p + o)
  }

  ghost predicate Covers(mapped: map<nat, Frame>, ph: ProgramHeader) {
    ph.load && ph.memsz > 0 ==>
      forall a: nat :: ph.vaddr <= a < PageUp(ph.vaddr + ph.memsz) ==> PageBase(a) in mapped
  }

  ghost predicate CoversAll(mapped: map<nat, Frame>, phs: seq<ProgramHeader>) {
    forall k :: 0 <= k < |phs| ==> Covers(mapped, phs[k])
  }

  ghost predicate Loaded(m: Memory, root: Frame, mapped: map<nat, Frame>, elf: seq<Byte>, phs: seq<ProgramHeader>,
                         ph: ProgramHeader, end: nat) {
    Tracks(m, root, mapped) && CoversAll(mapped, phs) && Shows(m, mapped, elf, phs, ph, end)
  }

  /** An untracked page holds no file byte yet. */
  lemma {:induction false} UntrackedIsZero(mapped: map<nat, Frame>, elf: seq<Byte>, phs: seq<ProgramHeader>, a: nat)
    requires CoversAll(mapped, phs) && PageBase(a) !in mapped
    ensures Image(elf, phs, a) == 0
  {
    if phs != [] {
      var ph := phs[|phs| - 1];
      assert Covers(mapped, ph);
      UntrackedIsZero(mapped, elf, phs[..|phs| - 1], a);
    }
  }

  lemma PageOfAligned(p: nat, o: nat)
    requires p < 0x8000_0000_0000 && p % 4096 == 0 && o < 4096
    ensures PageOf(p + o) == p / 4096 && Lower(p + o) && PageBase(p + o) == p && (p + o) % 4096 == o
  {
    LowerPages(p + o);
  }

  lemma NewPageKeepsTracks(m: Memory, m': Memory, place: map<Frame, Place>, root: Frame, mapped: map<nat, Frame>,
                           p: nat, f: Frame)
    requires Tracks(m, root, mapped) && IsRoot(place, root)
    requires p < 0x8000_0000_0000 && p % 4096 == 0 && p !in mapped
    requires OnlyPagesChange(m, m', place, root, p / 4096, p / 4096 + 1)
    requires f !in m.data && m'.data == m.data[f := ZeroBytes()] && Translate(m', root, p) == Some(f)
    ensures Tracks(m', root, mapped[p := f])
  {
    forall q | q in mapped
      ensures Translate(m', root, q) == Some(mapped[q])
    {
      hide PageEntry;
      PageOfAligned(q, 0);
      assert PageEntry(m', root, q) == PageEntry(m, root, q);
    }
  }

  lemma NewPageKeepsShows(m: Memory, m': Memory, root: Frame, mapped: map<nat, Frame>,
                          elf: seq<Byte>, phs: seq<ProgramHeader>, ph: ProgramHeader, p: nat, f: Frame)
    requires Loaded(m, root, mapped, elf, phs, ph, ph.vaddr)
    requires p < 0x8000_0000_0000 && p % 4096 == 0 && p !in mapped
    requires f !in m.data && m'.data == m.data[f := ZeroBytes()]
    ensures Shows(m', mapped[p := f], elf, phs, ph, ph.vaddr)
  {
    hide PageEntry;
    var mapped' := mapped[p := f];
    forall q, o | q in mapped' && 0 <= o < 4096 && mapped'[q] in m'.data
      ensures m'.data[mapped'[q]][o] == PartialImage(elf, phs, ph, ph.vaddr, q + o)
    {
      if q == p {
        PageOfAligned(p, o);
        UntrackedIsZero(mapped, elf, phs, p + o);
      } else {
        assert mapped[q] in m.data;
      }
    }
  }

  /** Mapping one more fresh zero page keeps what is loaded. */
  lemma NewPageKeepsLoaded(m: Memory, m': Memory, place: map<Frame, Place>, root: Frame, mapped: map<nat, Frame>,
                           elf: seq<Byte>, phs: seq<ProgramHeader>, ph: ProgramHeader, p: nat, f: Frame)
    requires Loaded(m, root, mapped, elf, phs, ph, ph.vaddr) && IsRoot(place, root)
    requires p < 0x8000_0000_0000 && p % 4096 == 0 && p !in mapped
    requires OnlyPagesChange(m, m', place, root, p / 4096, p / 4096 + 1)
    requires f !in m.data && m'.data == m.data[f := ZeroBytes()] && Translate(m', root, p) == Some(f)
    ensures Loaded(m', root, mapped[p := f], elf, phs, ph, ph.vaddr)
  {
    hide PageEntry, OnlyPagesChange, Shows, Tracks;
    NewPageKeepsTracks(m, m', place, root, mapped, p, f);
    NewPageKeepsShows(m, m', root, mapped, elf, phs, ph, p, f);
  }

  // ---------------------------------------------------------------------------
  // Mapping the pages of a segment

  function SegmentFlags(ph: ProgramHeader): Flags {
    Flags(PRESENT + USER + (if ph.writable then WRITABLE else 0), !ph.executable)
  }

  // ---------------------------------------------------------------------------
  // What loading leaves alone, and the permissions it gives

  /** The segment has bytes in the page with this number. */
  predicate Touches(ph: ProgramHeader, page: int) {
    ph.load && ph.memsz > 0 && ph.vaddr / 4096 <= page < PageUp(ph.vaddr + ph.memsz) / 4096
  }

  /** The first segment that touches the page, or the number of segments. */
  function FirstTouching(phs: seq<ProgramHeader>, page: int): (k: nat)
    ensures k <= |phs| && (forall j :: 0 <= j < k ==> !Touches(phs[j], page))
    ensures k < |phs| ==> Touches(phs[k], page)
  {
    if phs == [] || Touches(phs[0], page) then 0 else 1 + FirstTouching(phs[1..], page)
  }

  predicate Touched(phs: seq<ProgramHeader>, page: int) { FirstTouching(phs, page) < |phs| }

  /** The distinct pages of all segments, by address. */
  function TouchedPages(phs: seq<ProgramHeader>): (pages: set<nat>)
    ensures Addresses(pages)
  {
    set p: nat | p < 0x8000_0000_0000 && p % 4096 == 0 && Touched(phs, p / 4096)
  }

  /** The free frames are fewer than the pages of the segments and the tables they lack. */
  ghost predicate Short(m: Memory, root: Frame, phs: seq<ProgramHeader>) {
    |m.free| < Cost(m, root, TouchedPages(phs))
  }

  /** Only pages of the segments differ, and only below `root`. */
  ghost predicate OnlyTouched(m: Memory, m': Memory, place: map<Frame, Place>, root: Frame, phs: seq<ProgramHeader>) {
    forall r: Frame, w: VirtAddr :: IsRoot(place, r) && !(r == root && Touched(phs, PageOf(w))) ==>
      PageEntry(m', r, w) == PageEntry(m, r, w)
  }

  /** Tracked pages lie in segments and have the permissions of the first segment there. */
  ghost predicate Permitted(m: Memory, root: Frame, mapped: map<nat, Frame>, phs: seq<ProgramHeader>) {
    forall p: nat :: p in mapped && p < 0x8000_0000_0000 ==>
      && Touched(phs, p / 4096)
      && PageEntry(m, root, p) == Some(Entry(mapped[p], SegmentFlags(phs[FirstTouching(phs, p / 4096)])))
  }

  /** A page was mapped before, and the first segment that touches it is not executable. */
  ghost predicate Conflicts(m: Memory, root: Frame, phs: seq<ProgramHeader>, w: VirtAddr) {
    && Touched(phs, PageOf(w)) && PageEntry(m, root, w).Some?
    && !phs[FirstTouching(phs, PageOf(w))].executable
  }

  ghost predicate Conflict(m: Memory, root: Frame, phs: seq<ProgramHeader>) {
    exists w: VirtAddr :: Conflicts(m, root, phs, w)
  }

  /** Pages that are not tracked are as they were, and tracked ones do not conflict. */
  ghost predicate Settled(m0: Memory, m: Memory, root: Frame, phs: seq<ProgramHeader>, mapped: map<nat, Frame>) {
    forall p: nat :: p < 0x8000_0000_0000 && p % 4096 == 0 ==>
      if p in mapped then !Conflicts(m0, root, phs, p) else PageEntry(m, root, p) == PageEntry(m0, root, p)
  }

  /** The state since loading began at `m0`: nothing but pages of the segments moved, old
      data stayed, and tracked frames are new. */
  ghost predicate Since(m0: Memory, place0: map<Frame, Place>, m: Memory, place: map<Frame, Place>, root: Frame,
                        phs: seq<ProgramHeader>, mapped: map<nat, Frame>) {
    && Extends(place0, place) && KeepsData(m0, m) && OnlyTouched(m0, m, place0, root, phs)
    && Permitted(m, root, mapped, phs) && Settled(m0, m, root, phs, mapped)
    && (Plain(m0, root) ==> Plain(m, root))
    && forall p :: p in mapped ==> mapped[p] !in m0.data
  }

  lemma FirstTouchingIs(phs: seq<ProgramHeader>, page: int, k: nat)
    requires k < |phs| && Touches(phs[k], page) && forall j :: 0 <= j < k ==> !Touches(phs[j], page)
    ensures FirstTouching(phs, page) == k
  {
    hide Touches;
    var f := FirstTouching(phs, page);
    assert f < k ==> false;
    assert k < f ==> false;
  }

  lemma CoveredPage(mapped: map<nat, Frame>, ph: ProgramHeader, page: nat)
    requires Covers(mapped, ph) && Touches(ph, page)
    ensures page * 4096 in mapped
  {
    var p := page * 4096;
    var a := if ph.vaddr <= p then p else ph.vaddr;
    assert ph.vaddr <= a < PageUp(ph.vaddr + ph.memsz) && PageBase(a) == p;
  }

  /** A page that earlier segments touch is tracked, so a new page is first touched now. */
  lemma NewPageIsFirst(phs: seq<ProgramHeader>, k: nat, mapped: map<nat, Frame>, p: nat)
    requires k < |phs| && CoversAll(mapped, phs[..k]) && p % 4096 == 0 && p !in mapped && Touches(phs[k], p / 4096)
    ensures FirstTouching(phs, p / 4096) == k
  {
    forall j | 0 <= j < k
      ensures !Touches(phs[j], p / 4096)
    {
      var ph := phs[..k][j];
      assert Covers(mapped, ph);
      if Touches(ph, p / 4096) {
        CoveredPage(mapped, ph, p / 4096);
      }
    }
    FirstTouchingIs(phs, p / 4096, k);
  }

  lemma StartsHere(m: Memory, place: map<Frame, Place>, root: Frame, phs: seq<ProgramHeader>)
    ensures Since(m, place, m, place, root, phs, map[])
  {
  }

  /** One more page keeps the account. */
  lemma PageKeepsSince(m0: Memory, place0: map<Frame, Place>, m: Memory, place: map<Frame, Place>, m': Memory,
                       place': map<Frame, Place>, root: Frame, phs: seq<ProgramHeader>, mapped: map<nat, Frame>,
                       p: nat, f: Frame)
    requires Since(m0, place0, m, place, root, phs, mapped) && IsRoot(place0, root) && IsRoot(place, root)
    requires Extends(place, place') && KeepsData(m, m') && f !in m.data
    requires p < 0x8000_0000_0000 && p % 4096 == 0 && p !in mapped && Touched(phs, p / 4096)
    requires forall q :: q in mapped ==> q % 4096 == 0
    requires OnlyPagesChange(m, m', place, root, p / 4096, p / 4096 + 1)
    requires PageEntry(m', root, p) == Some(Entry(f, SegmentFlags(phs[FirstTouching(phs, p / 4096)])))
    requires !phs[FirstTouching(phs, p / 4096)].executable ==> PageEntry(m, root, p) == None
    requires KeepsPlain(m, m', place)
    ensures Since(m0, place0, m', place', root, phs, mapped[p := f])
  {
    hide Plain, OnlyPagesChange, OnlyTouched, Permitted, Touched, Settled, FirstTouching;
    PageKeepsSettled(m0, m, place, m', root, phs, mapped, p, f);
    PageKeepsOnlyTouched(m0, place0, m, place, m', root, phs, p);
    PageKeepsPermitted(m, place, m', root, phs, mapped, p, f);
  }

  lemma PageKeepsSettled(m0: Memory, m: Memory, place: map<Frame, Place>, m': Memory, root: Frame,
                         phs: seq<ProgramHeader>, mapped: map<nat, Frame>, p: nat, f: Frame)
    requires Settled(m0, m, root, phs, mapped) && IsRoot(place, root) && Touched(phs, p / 4096)
    requires p < 0x8000_0000_0000 && p % 4096 == 0 && p !in mapped
    requires OnlyPagesChange(m, m', place, root, p / 4096, p / 4096 + 1)
    requires !phs[FirstTouching(phs, p / 4096)].executable ==> PageEntry(m, root, p) == None
    ensures Settled(m0, m', root, phs, mapped[p := f])
  {
    PageOfAligned(p, 0);
    assert !Conflicts(m0, root, phs, p) by {
      hide PageEntry, FirstTouching, OnlyPagesChange, PageOf, Touched;
      assert PageEntry(m, root, p) == PageEntry(m0, root, p);
    }
    hide PageEntry, FirstTouching, PageOf, Conflicts, Touched;
    forall q: nat | q < 0x8000_0000_0000 && q % 4096 == 0 && q != p
      ensures PageEntry(m', root, q) == PageEntry(m, root, q)
    {
      PageOfAligned(q, 0);
    }
  }

  lemma PageKeepsOnlyTouched(m0: Memory, place0: map<Frame, Place>, m: Memory, place: map<Frame, Place>, m': Memory,
                             root: Frame, phs: seq<ProgramHeader>, p: nat)
    requires OnlyTouched(m0, m, place0, root, phs) && Extends(place0, place) && Touched(phs, p / 4096)
    requires OnlyPagesChange(m, m', place, root, p / 4096, p / 4096 + 1)
    ensures OnlyTouched(m0, m', place0, root, phs)
  {
    hide PageEntry, PageOf, Touched;
    forall r: Frame, w: VirtAddr | IsRoot(place0, r) && !(r == root && Touched(phs, PageOf(w)))
      ensures PageEntry(m', r, w) == PageEntry(m0, r, w)
    {
      assert PageEntry(m', r, w) == PageEntry(m, r, w);
    }
  }

  lemma PageKeepsPermitted(m: Memory, place: map<Frame, Place>, m': Memory, root: Frame, phs: seq<ProgramHeader>,
                           mapped: map<nat, Frame>, p: nat, f: Frame)
    requires Permitted(m, root, mapped, phs) && IsRoot(place, root)
    requires p < 0x8000_0000_0000 && p % 4096 == 0 && p !in mapped && Touched(phs, p / 4096)
    requires forall q :: q in mapped ==> q % 4096 == 0
    requires OnlyPagesChange(m, m', place, root, p / 4096, p / 4096 + 1)
    requires PageEntry(m', root, p) == Some(Entry(f, SegmentFlags(phs[FirstTouching(phs, p / 4096)])))
    ensures Permitted(m', root, mapped[p := f], phs)
  {
    hide PageEntry, FirstTouching, SegmentFlags, PageOf;
    forall q: nat | q in mapped && q < 0x8000_0000_0000
      ensures PageEntry(m', root, q) == PageEntry(m, root, q)
    {
      PageOfAligned(q, 0);
    }
  }

  /** A call that changed no mapping keeps the account. */
  lemma SameKeepsSince(m0: Memory, place0: map<Frame, Place>, m: Memory, place: map<Frame, Place>, m': Memory,
                       place': map<Frame, Place>, root: Frame, phs: seq<ProgramHeader>, mapped: map<nat, Frame>)
    requires Since(m0, place0, m, place, root, phs, mapped) && IsRoot(place0, root)
    requires Extends(place, place') && KeepsData(m, m') && SameTranslations(m, m', place) && KeepsPlain(m, m', place)
    ensures Since(m0, place0, m', place', root, phs, mapped)
  {
    hide Plain, PageEntry, FirstTouching, SegmentFlags, PageOf, Conflicts;
    assert IsRoot(place, root);
    forall q: nat | q < 0x8000_0000_0000
      ensures PageEntry(m', root, q) == PageEntry(m, root, q)
    {
    }
  }

  /** Bytes stored into a tracked frame keep the account. */
  lemma StoreKeepsSince(m0: Memory, place0: map<Frame, Place>, m: Memory, place: map<Frame, Place>, m': Memory,
                        root: Frame, phs: seq<ProgramHeader>, mapped: map<nat, Frame>, f: Frame)
    requires Since(m0, place0, m, place, root, phs, mapped) && m'.tables == m.tables && f !in m0.data
    requires f in m.data && f in m'.data && m'.data == m.data[f := m'.data[f]]
    ensures Since(m0, place0, m', place, root, phs, mapped)
  {
    hide FirstTouching, SegmentFlags, PageOf, Conflicts, PlainWalk;
    assert forall r: Frame, w: VirtAddr :: PageEntry(m', r, w) == PageEntry(m, r, w);
  }

  // ---------------------------------------------------------------------------
  // Mapping

  /** One page of the first loop: reuse the tracked frame or map a fresh one. */
  method TrackPage(pt: PageTableManager, ph: ProgramHeader, page: nat, tracked: map<nat, Frame>,
                   ghost elf: seq<Byte>, ghost phs: seq<ProgramHeader>, ghost k: nat,
                   ghost m0: Memory, ghost place0: map<Frame, Place>)
    returns (r: Result<Frame>, mapped: map<nat, Frame>)
    requires pt.Valid() && page < 0x8000_0000_0000 && page % 4096 == 0
    requires k < |phs| && phs[k] == ph && Touches(ph, page / 4096) && IsRoot(place0, pt.p4)
    requires Loaded(pt.memory.mem, pt.p4, tracked, elf, phs[..k], ph, ph.vaddr)
    requires Since(m0, place0, pt.memory.mem, pt.memory.place, pt.p4, phs, tracked)
    requires Spent(m0, pt.memory.mem, pt.p4, tracked.Keys)
    modifies pt.memory
    ensures pt.Valid() && Since(m0, place0, pt.memory.mem, pt.memory.place, pt.p4, phs, mapped)
    ensures r.Ok? ==>
              && Loaded(pt.memory.mem, pt.p4, mapped, elf, phs[..k], ph, ph.vaddr)
              && page in mapped && mapped[page] == r.value
              && (mapped == tracked || (page !in tracked && mapped == tracked[page := r.value]))
    ensures r.Ok? ==> Spent(m0, pt.memory.mem, pt.p4, mapped.Keys)
    ensures r.Err? ==> r.error == AlreadyMapped || r.error == OutOfMemory
    ensures r == Err(AlreadyMapped) ==> Conflict(m0, pt.p4, phs)
    ensures r == Err(OutOfMemory) ==> Short(m0, pt.p4, phs)
  {
    hide Loaded, WellFormed, PageEntry, OnlyPagesChange, Since, Touches, PageOf, KeepsData, SameTranslations;
    hide KeepsPlain, TablesAdded, PlainWalk, Missing, Spent, Short, Conflict;
    mapped := tracked;
    if page in mapped {
      return Ok(mapped[page]), mapped;
    }
    PageOfAligned(page, 0);
    ghost var before, place := pt.memory.mem, pt.memory.place;
    LoadedFacts(before, pt.p4, tracked, elf, phs[..k], ph, ph.vaddr);
    NewPageIsFirst(phs, k, tracked, page);
    r := MapNewPage(pt, page, SegmentFlags(ph), ph.executable);
    UntrackedIsOld(m0, place0, before, place, pt.p4, phs, tracked, page);
    if r.Err? {
      SameKeepsSince(m0, place0, before, place, pt.memory.mem, pt.memory.place, pt.p4, phs, tracked);
      if r.error == AlreadyMapped {
        assert Conflict(m0, pt.p4, phs) by { ConflictAt(m0, pt.p4, phs, page); }
      } else {
        PageTooFew(m0, place0, before, place, pt.p4, elf, phs, k, ph, tracked, page);
      }
      return;
    }
    PageSpent(m0, before, pt.memory.mem, pt.p4, tracked, page, r.value);
    NewPageKeepsLoaded(before, pt.memory.mem, place, pt.p4, mapped, elf, phs[..k], ph, page, r.value);
    PageKeepsSince(m0, place0, before, place, pt.memory.mem, pt.memory.place, pt.p4, phs, tracked, page, r.value);
    mapped := mapped[page := r.value];
  }

  lemma ConflictAt(m: Memory, root: Frame, phs: seq<ProgramHeader>, w: VirtAddr)
    requires Conflicts(m, root, phs, w)
    ensures Conflict(m, root, phs)
  {
  }

  /** A page that finds too few frames is one of the pages of the segments. */
  lemma PageTooFew(m0: Memory, place0: map<Frame, Place>, m: Memory, place: map<Frame, Place>, root: Frame,
                   elf: seq<Byte>, phs: seq<ProgramHeader>, k: nat, ph: ProgramHeader, tracked: map<nat, Frame>, p: nat)
    requires Since(m0, place0, m, place, root, phs, tracked) && Spent(m0, m, root, tracked.Keys)
    requires k < |phs| && Loaded(m, root, tracked, elf, phs[..k], ph, ph.vaddr)
    requires p < 0x8000_0000_0000 && p % 4096 == 0 && p !in tracked && Touched(phs, p / 4096)
    requires |m.free| < 1 + Missing(m.tables, root, Path(p))
    ensures Short(m0, root, phs)
  {
    TrackedAreTouched(m0, place0, m, place, root, elf, phs, phs[..k], ph, tracked);
    var pages := tracked.Keys + {p};
    assert pages <= TouchedPages(phs) by { hide Touched; }
    hide TouchedPages, Cost, TablesBrought, Loaded, Since, Missing;
    TooFew(m0, m, root, tracked.Keys, p);
    CostGrows(m0, root, pages, TouchedPages(phs));
  }

  lemma TrackedAreTouched(m0: Memory, place0: map<Frame, Place>, m: Memory, place: map<Frame, Place>, root: Frame,
                          elf: seq<Byte>, phs: seq<ProgramHeader>, done: seq<ProgramHeader>, ph: ProgramHeader,
                          tracked: map<nat, Frame>)
    requires Since(m0, place0, m, place, root, phs, tracked) && Loaded(m, root, tracked, elf, done, ph, ph.vaddr)
    ensures tracked.Keys <= TouchedPages(phs)
  {
    hide Touched, PageEntry, Shows;
  }

  lemma PageSpent(m0: Memory, m: Memory, m': Memory, root: Frame, tracked: map<nat, Frame>, p: nat, f: Frame)
    requires Spent(m0, m, root, tracked.Keys) && p < 0x8000_0000_0000 && p !in tracked && TablesAdded(m, m', root, p)
    requires |m'.free| == |m.free| - 1 - Missing(m.tables, root, Path(p))
    ensures Spent(m0, m', root, tracked[p := f].Keys)
  {
    hide Spent, Missing, TablesAdded;
    assert tracked[p := f].Keys == tracked.Keys + {p};
    SpentMore(m0, m, m', root, tracked.Keys, p);
  }

  lemma UntrackedIsOld(m0: Memory, place0: map<Frame, Place>, m: Memory, place: map<Frame, Place>, root: Frame,
                       phs: seq<ProgramHeader>, mapped: map<nat, Frame>, p: nat)
    requires Since(m0, place0, m, place, root, phs, mapped) && p < 0x8000_0000_0000 && p % 4096 == 0 && p !in mapped
    ensures PageEntry(m, root, p) == PageEntry(m0, root, p)
  {
  }

  lemma LoadedFacts(m: Memory, root: Frame, mapped: map<nat, Frame>, elf: seq<Byte>, phs: seq<ProgramHeader>,
                    ph: ProgramHeader, end: nat)
    requires Loaded(m, root, mapped, elf, phs, ph, end)
    ensures CoversAll(mapped, phs) && forall p :: p in mapped ==> p % 4096 == 0 && p < 0x8000_0000_0000
  {
  }

  ghost predicate FramesOf(mapped: map<nat, Frame>, start: nat, frames: seq<Frame>) {
    forall j :: 0 <= j < |frames| ==> start + j * 4096 in mapped && frames[j] == mapped[start + j * 4096]
  }

  lemma FramesGrow(mapped: map<nat, Frame>, mapped': map<nat, Frame>, start: nat, frames: seq<Frame>, page: nat,
                   f: Frame)
    requires FramesOf(mapped, start, frames) && page == start + |frames| * 4096
    requires page in mapped' && mapped'[page] == f
    requires mapped' == mapped || (page !in mapped && mapped' == mapped[page := f])
    ensures FramesOf(mapped', start, frames + [f])
  {
  }

  lemma PagesOfSegment(ph: ProgramHeader, i: nat)
    requires InLowerHalf(ph) && ph.load && ph.memsz > 0
    requires i < (PageUp(ph.vaddr + ph.memsz) - PageBase(ph.vaddr)) / 4096
    ensures PageBase(ph.vaddr) + i * 4096 < 0x8000_0000_0000
    ensures (PageBase(ph.vaddr) + i * 4096) % 4096 == 0
    ensures Touches(ph, (PageBase(ph.vaddr) + i * 4096) / 4096)
  {
  }

  /** The first loop: map every page of the segment that is not tracked yet. */
  method MapSegment(pt: PageTableManager, ph: ProgramHeader, tracked: map<nat, Frame>,
                    ghost elf: seq<Byte>, ghost phs: seq<ProgramHeader>, ghost k: nat,
                    ghost m0: Memory, ghost place0: map<Frame, Place>)
    returns (r: Result<()>, mapped: map<nat, Frame>, frames: seq<Frame>)
    requires pt.Valid() && ph.load && ph.memsz > 0 && InLowerHalf(ph)
    requires k < |phs| && phs[k] == ph && IsRoot(place0, pt.p4)
    requires Loaded(pt.memory.mem, pt.p4, tracked, elf, phs[..k], ph, ph.vaddr)
    requires Since(m0, place0, pt.memory.mem, pt.memory.place, pt.p4, phs, tracked)
    requires Spent(m0, pt.memory.mem, pt.p4, tracked.Keys)
    modifies pt.memory
    ensures pt.Valid() && Since(m0, place0, pt.memory.mem, pt.memory.place, pt.p4, phs, mapped)
    ensures r.Ok? ==>
              && Loaded(pt.memory.mem, pt.p4, mapped, elf, phs[..k], ph, ph.vaddr)
              && |frames| == (PageUp(ph.vaddr + ph.memsz) - PageBase(ph.vaddr)) / 4096
              && FramesOf(mapped, PageBase(ph.vaddr), frames)
    ensures r.Ok? ==> Spent(m0, pt.memory.mem, pt.p4, mapped.Keys)
    ensures r.Err? ==> r.error == AlreadyMapped || r.error == OutOfMemory
    ensures r == Err(AlreadyMapped) ==> Conflict(m0, pt.p4, phs)
    ensures r == Err(OutOfMemory) ==> Short(m0, pt.p4, phs)
  {
    hide Loaded, WellFormed, Since, IsRoot, FramesOf, Touches, Spent, Short, Conflict;
    var start := PageBase(ph.vaddr);
    var numPages := (PageUp(ph.vaddr + ph.memsz) - start) / 4096;
    mapped, frames := tracked, [];
    assert FramesOf(mapped, start, []) by { NoFrames(mapped, start); }
    for i := 0 to numPages
      invariant pt.Valid() && Since(m0, place0, pt.memory.mem, pt.memory.place, pt.p4, phs, mapped)
      invariant Loaded(pt.memory.mem, pt.p4, mapped, elf, phs[..k], ph, ph.vaddr)
      invariant Spent(m0, pt.memory.mem, pt.p4, mapped.Keys)
      invariant |frames| == i && FramesOf(mapped, start, frames)
    {
      ghost var was := mapped;
      PagesOfSegment(ph, i);
      var frame: Result<Frame>;
      frame, mapped := TrackPage(pt, ph, start + i * 4096, mapped, elf, phs, k, m0, place0);
      if frame.Err? {
        return Err(frame.error), mapped, frames;
      }
      FramesGrow(was, mapped, start, frames, start + i * 4096, frame.value);
      frames := frames + [frame.value];
    }
    r := Ok(());
  }

  lemma NoFrames(mapped: map<nat, Frame>, start: nat)
    ensures FramesOf(mapped, start, [])
  {
  }

  // ---------------------------------------------------------------------------
  // Copying the file bytes

  /** Storing the next file byte through the tracked frame of its page moves the
      partial image on by one. */
  lemma ByteExtendsImage(m: Memory, m': Memory, root: Frame, mapped: map<nat, Frame>,
                         elf: seq<Byte>, phs: seq<ProgramHeader>, ph: ProgramHeader, a: nat)
    requires Loaded(m, root, mapped, elf, phs, ph, a) && ph.vaddr <= a && PageBase(a) in mapped
    requires var f := mapped[PageBase(a)];
             m' == m.(data := m.data[f := m.data[f][a % 4096 := FileByte(elf, ph, a)]])
    ensures Loaded(m', root, mapped, elf, phs, ph, a + 1)
  {
    hide PageEntry, CoversAll, Image, FileByte;
    forall q, o | q in mapped && 0 <= o < 4096 && mapped[q] in m'.data
      ensures m'.data[mapped[q]][o] == PartialImage(elf, phs, ph, a + 1, q + o)
    {
      SplitAddress(q, o, a);
    }
    SameTablesTranslate(m, m', root);
  }

  lemma SplitAddress(q: nat, o: nat, a: nat)
    requires q % 4096 == 0 && o < 4096
    ensures q + o == a <==> q == PageBase(a) && o == a % 4096
  {
  }

  lemma SameTablesTranslate(m: Memory, m': Memory, root: Frame)
    requires m'.tables == m.tables
    ensures forall w: VirtAddr :: Translate(m', root, w) == Translate(m, root, w)
  {
  }

  lemma FrameIndex(ph: ProgramHeader, a: nat)
    requires ph.load && ph.memsz > 0 && ph.vaddr <= a
    ensures var start := PageBase(ph.vaddr);
            var i := (PageBase(a) - start) / 4096;
            && 0 <= i && PageBase(a) == start + i * 4096
            && (i < (PageUp(ph.vaddr + ph.memsz) - start) / 4096 <==> a < PageUp(ph.vaddr + ph.memsz))
            && PageBase(ph.vaddr) <= PageBase(a)
  {
  }

  /** The second loop: copy the file bytes into the frames of the segment. */
  method CopySegment(pt: PageTableManager, ph: ProgramHeader, frames: seq<Frame>, elf: seq<Byte>,
                     ghost mapped: map<nat, Frame>, ghost phs: seq<ProgramHeader>, ghost k: nat,
                     ghost m0: Memory, ghost place0: map<Frame, Place>)
    requires pt.Valid() && ph.load && ph.memsz > 0 && ph.offset + ph.filesz <= |elf|
    requires k < |phs| && Loaded(pt.memory.mem, pt.p4, mapped, elf, phs[..k], ph, ph.vaddr)
    requires Since(m0, place0, pt.memory.mem, pt.memory.place, pt.p4, phs, mapped)
    requires |frames| == (PageUp(ph.vaddr + ph.memsz) - PageBase(ph.vaddr)) / 4096
    requires FramesOf(mapped, PageBase(ph.vaddr), frames)
    modifies pt.memory
    ensures pt.Valid() && Since(m0, place0, pt.memory.mem, pt.memory.place, pt.p4, phs, mapped)
    ensures Loaded(pt.memory.mem, pt.p4, mapped, elf, phs[..k], ph, FileEnd(ph))
    ensures pt.memory.mem.tables == old(pt.memory.mem.tables) && pt.memory.mem.free == old(pt.memory.mem.free)
  {
    StartsBeforeEnd(ph);
    hide Loaded, WellFormed, IsRoot, Since, FramesOf, PageUp, PageBase, FileByte;
    var start := PageBase(ph.vaddr);
    for offset := 0 to ph.filesz
      invariant pt.memory.mem.tables == old(pt.memory.mem.tables) && pt.memory.mem.free == old(pt.memory.mem.free)
      invariant pt.Valid() && Since(m0, place0, pt.memory.mem, pt.memory.place, pt.p4, phs, mapped)
      invariant ph.vaddr + offset <= FileEnd(ph) ==>
                  Loaded(pt.memory.mem, pt.p4, mapped, elf, phs[..k], ph, ph.vaddr + offset)
      invariant ph.vaddr + offset > FileEnd(ph) ==>
                  Loaded(pt.memory.mem, pt.p4, mapped, elf, phs[..k], ph, FileEnd(ph))
    {
      var virt := ph.vaddr + offset;
      FrameIndex(ph, virt);
      var pageIndex := (PageBase(virt) - start) / 4096;
      if pageIndex < |frames| {
        FrameAt(mapped, start, frames, pageIndex);
        assert elf[ph.offset + offset] == FileByte(elf, ph, virt) by {
          FileByteAt(elf, ph, offset);
        }
        LoadedFrame(pt.memory.mem, pt.p4, mapped, elf, phs[..k], ph, virt);
        ghost var before := pt.memory.mem;
        TrackedIsNew(m0, place0, before, pt.memory.place, pt.p4, phs, mapped, PageBase(virt));
        pt.memory.WriteByte(frames[pageIndex], virt % 4096, elf[ph.offset + offset]);
        ByteExtendsImage(before, pt.memory.mem, pt.p4, mapped, elf, phs[..k], ph, virt);
        StoreKeepsSince(m0, place0, before, pt.memory.place, pt.memory.mem, pt.p4, phs, mapped, frames[pageIndex]);
      }
    }
  }

  lemma StartsBeforeEnd(ph: ProgramHeader)
    ensures ph.vaddr <= FileEnd(ph)
  {
  }

  lemma FrameAt(mapped: map<nat, Frame>, start: nat, frames: seq<Frame>, i: nat)
    requires FramesOf(mapped, start, frames) && i < |frames|
    ensures start + i * 4096 in mapped && frames[i] == mapped[start + i * 4096]
  {
  }

  lemma FileByteAt(elf: seq<Byte>, ph: ProgramHeader, i: nat)
    requires ph.offset + i < |elf|
    ensures FileByte(elf, ph, ph.vaddr + i) == elf[ph.offset + i]
  {
  }

  lemma TrackedIsNew(m0: Memory, place0: map<Frame, Place>, m: Memory, place: map<Frame, Place>, root: Frame,
                     phs: seq<ProgramHeader>, mapped: map<nat, Frame>, p: nat)
    requires Since(m0, place0, m, place, root, phs, mapped) && p in mapped
    ensures mapped[p] !in m0.data
  {
  }

  lemma LoadedFrame(m: Memory, root: Frame, mapped: map<nat, Frame>,
                    elf: seq<Byte>, phs: seq<ProgramHeader>, ph: ProgramHeader, a: nat)
    requires Loaded(m, root, mapped, elf, phs, ph, a) && PageBase(a) in mapped
    ensures mapped[PageBase(a)] in m.data
  {
  }

  // ---------------------------------------------------------------------------
  // Loading

  /** A tracked page keeps its page of the image when only the header list grows. */
  lemma ImageGrows(m: Memory, root: Frame, mapped: map<nat, Frame>, elf: seq<Byte>, phs: seq<ProgramHeader>,
                   ph: ProgramHeader, next: ProgramHeader)
    requires Loaded(m, root, mapped, elf, phs, ph, FileEnd(ph)) && Covers(mapped, ph)
    ensures Loaded(m, root, mapped, elf, phs + [ph], next, next.vaddr)
  {
    hide PageEntry, Tracks, PartialImage, FileEnd, Covers;
    assert forall p :: p in mapped && mapped[p] in m.data ==> |m.data[mapped[p]]| == 4096;
    forall a: nat
      ensures PartialImage(elf, phs + [ph], next, next.vaddr, a) == PartialImage(elf, phs, ph, FileEnd(ph), a)
    {
      ImageOfOneMore(elf, phs, ph, next, a);
    }
  }

  lemma ImageOfOneMore(elf: seq<Byte>, phs: seq<ProgramHeader>, ph: ProgramHeader, next: ProgramHeader, a: nat)
    ensures PartialImage(elf, phs + [ph], next, next.vaddr, a) == PartialImage(elf, phs, ph, FileEnd(ph), a)
  {
    hide FileEnd, FileByte;
    assert (phs + [ph])[..|phs|] == phs;
  }

  lemma FramesCover(mapped: map<nat, Frame>, ph: ProgramHeader, frames: seq<Frame>)
    requires ph.load && ph.memsz > 0 && FramesOf(mapped, PageBase(ph.vaddr), frames)
    requires |frames| == (PageUp(ph.vaddr + ph.memsz) - PageBase(ph.vaddr)) / 4096
    ensures Covers(mapped, ph)
  {
    forall a: nat | ph.vaddr <= a < PageUp(ph.vaddr + ph.memsz)
      ensures PageBase(a) in mapped
    {
      FrameIndex(ph, a);
      assert frames[(PageBase(a) - PageBase(ph.vaddr)) / 4096] == mapped[PageBase(a)];
    }
  }

  /** Load one segment, reusing the frames of pages that earlier segments share. */
  method LoadSegment(pt: PageTableManager, ph: ProgramHeader, elf: seq<Byte>, tracked: map<nat, Frame>,
                     ghost phs: seq<ProgramHeader>, ghost k: nat, ghost next: ProgramHeader,
                     ghost m0: Memory, ghost place0: map<Frame, Place>)
    returns (r: Result<()>, mapped: map<nat, Frame>)
    requires pt.Valid() && ph.load && InLowerHalf(ph) && k < |phs| && phs[k] == ph && IsRoot(place0, pt.p4)
    requires Loaded(pt.memory.mem, pt.p4, tracked, elf, phs[..k], ph, ph.vaddr)
    requires Since(m0, place0, pt.memory.mem, pt.memory.place, pt.p4, phs, tracked)
    requires Spent(m0, pt.memory.mem, pt.p4, tracked.Keys)
    modifies pt.memory
    ensures pt.Valid() && Since(m0, place0, pt.memory.mem, pt.memory.place, pt.p4, phs, mapped)
    ensures r.Ok? ==> Loaded(pt.memory.mem, pt.p4, mapped, elf, phs[..k] + [ph], next, next.vaddr)
    ensures r.Ok? ==> InFile(elf, ph)
    ensures r.Ok? ==> Spent(m0, pt.memory.mem, pt.p4, mapped.Keys)
    ensures r.Err? ==> r.error == InvalidSegment || r.error == AlreadyMapped || r.error == OutOfMemory
    ensures r == Err(InvalidSegment) ==> !InFile(elf, ph)
    ensures r == Err(AlreadyMapped) ==> Conflict(m0, pt.p4, phs)
    ensures r == Err(OutOfMemory) ==> Short(m0, pt.p4, phs)
  {
    hide Loaded, WellFormed, Since, IsRoot, FramesOf, Covers, Spent, Short, Conflict;
    mapped := tracked;
    if ph.memsz == 0 {
      assert Covers(mapped, ph) by { EmptyCovers(mapped, ph); }
      ImageGrows(pt.memory.mem, pt.p4, mapped, elf, phs[..k], ph, next);
      return Ok(()), mapped;
    }
    var frames: seq<Frame>;
    r, mapped, frames := MapSegment(pt, ph, mapped, elf, phs, k, m0, place0);
    if r.Err? {
      return;
    }
    FramesCover(mapped, ph, frames);
    if ph.filesz > 0 {
      if ph.offset + ph.filesz > |elf| {
        return Err(InvalidSegment), mapped;
      }
      ghost var before := pt.memory.mem;
      CopySegment(pt, ph, frames, elf, mapped, phs, k, m0, place0);
      SameFreeAndTables(m0, before, pt.memory.mem, pt.p4, mapped.Keys);
    }
    ImageGrows(pt.memory.mem, pt.p4, mapped, elf, phs[..k], ph, next);
  }

  /** The file holds all file bytes of the segment, if any are copied. */
  predicate InFile(elf: seq<Byte>, ph: ProgramHeader) {
    ph.load && ph.memsz > 0 && ph.filesz > 0 ==> ph.offset + ph.filesz <= |elf|
  }

  lemma EmptyCovers(mapped: map<nat, Frame>, ph: ProgramHeader)
    requires ph.memsz == 0
    ensures Covers(mapped, ph)
  {
  }

  datatype SpawnImage = SpawnImage(mapped: map<nat, Frame>, heapStart: nat)

  /** A header that is in no segment. */
  const NO_HEADER := ProgramHeader(false, false, false, 0, 0, 0, 0)

  /** The segments lie below this address. */
  ghost predicate EndBelow(phs: seq<ProgramHeader>, highest: nat) {
    forall j :: 0 <= j < |phs| && phs[j].load ==> phs[j].vaddr + phs[j].memsz <= highest
  }

  /** Some segment ends there. */
  ghost predicate EndsAt(phs: seq<ProgramHeader>, end: nat) {
    exists j :: 0 <= j < |phs| && phs[j].load && phs[j].vaddr + phs[j].memsz == end
  }

  lemma EndOf(phs: seq<ProgramHeader>, k: nat)
    requires k < |phs| && phs[k].load
    ensures EndsAt(phs, phs[k].vaddr + phs[k].memsz)
  {
  }

  ghost predicate AllInFile(elf: seq<Byte>, phs: seq<ProgramHeader>) {
    forall k :: 0 <= k < |phs| ==> InFile(elf, phs[k])
  }

  /** The segment loop of spawn_user_process: load every PT_LOAD header in order. */
  method LoadHeaders(pt: PageTableManager, phs: seq<ProgramHeader>, elf: seq<Byte>)
    returns (r: Result<()>, mapped: map<nat, Frame>, highest: nat)
    requires pt.Valid() && forall k :: 0 <= k < |phs| ==> InLowerHalf(phs[k])
    modifies pt.memory
    ensures pt.Valid()
    ensures Since(old(pt.memory.mem), old(pt.memory.place), pt.memory.mem, pt.memory.place, pt.p4, phs, mapped)
    ensures r.Ok? ==> Loaded(pt.memory.mem, pt.p4, mapped, elf, phs, NO_HEADER, 0)
    ensures r.Ok? ==> AllInFile(elf, phs) && EndBelow(phs, highest) && (highest == 0 || EndsAt(phs, highest))
    ensures r.Ok? ==> Spent(old(pt.memory.mem), pt.memory.mem, pt.p4, mapped.Keys)
    ensures r.Err? ==> r.error == InvalidSegment || r.error == AlreadyMapped || r.error == OutOfMemory
    ensures r == Err(InvalidSegment) ==> !AllInFile(elf, phs)
    ensures r == Err(AlreadyMapped) ==> Conflict(old(pt.memory.mem), pt.p4, phs)
    ensures r == Err(OutOfMemory) ==> Short(old(pt.memory.mem), pt.p4, phs)
  {
    hide Loaded, WellFormed, Since, IsRoot, InLowerHalf, EndBelow, EndsAt, AllInFile, Conflict, Spent, Short;
    mapped, highest := map[], 0;
    ghost var m0, place0 := pt.memory.mem, pt.memory.place;
    StartsHere(m0, place0, pt.p4, phs);
    SpentNothing(m0, pt.p4);
    assert mapped.Keys == {};
    assert phs[..0] == [];
    NothingLoaded(m0, pt.p4, elf, NO_HEADER);
    for k := 0 to |phs|
      invariant pt.Valid() && Since(m0, place0, pt.memory.mem, pt.memory.place, pt.p4, phs, mapped)
      invariant Loaded(pt.memory.mem, pt.p4, mapped, elf, phs[..k], NO_HEADER, 0)
      invariant AllInFile(elf, phs[..k]) && EndBelow(phs[..k], highest) && (highest == 0 || EndsAt(phs, highest))
      invariant Spent(m0, pt.memory.mem, pt.p4, mapped.Keys)
    {
      var ph := phs[k];
      assert phs[..k + 1] == phs[..k] + [ph];
      if ph.load {
        LoadedAny(pt.memory.mem, pt.p4, mapped, elf, phs[..k], NO_HEADER, ph);
        r, mapped := LoadSegment(pt, ph, elf, mapped, phs, k, NO_HEADER, m0, place0);
        if r.Err? {
          NotAllInFile(elf, phs, k);
          return;
        }
      } else {
        SkipHeader(pt.memory.mem, pt.p4, mapped, elf, phs[..k], ph, NO_HEADER);
      }
      OneMoreHeader(elf, phs[..k], ph, highest);
      if ph.load && ph.vaddr + ph.memsz > highest {
        assert EndsAt(phs, ph.vaddr + ph.memsz) by { EndOf(phs, k); }
        highest := ph.vaddr + ph.memsz;
      }
    }
    assert phs[..|phs|] == phs;
    r := Ok(());
  }

  lemma NotAllInFile(elf: seq<Byte>, phs: seq<ProgramHeader>, k: nat)
    requires k < |phs|
    ensures !InFile(elf, phs[k]) ==> !AllInFile(elf, phs)
  {
  }

  lemma OneMoreHeader(elf: seq<Byte>, phs: seq<ProgramHeader>, ph: ProgramHeader, highest: nat)
    requires AllInFile(elf, phs) && InFile(elf, ph) && EndBelow(phs, highest)
    ensures AllInFile(elf, phs + [ph])
    ensures EndBelow(phs + [ph],
                     if ph.load && ph.vaddr + ph.memsz > highest then ph.vaddr + ph.memsz else highest)
  {
  }

  /** The part of spawn_user_process that loads the segments and places the heap one page above
      the highest segment end. */
  method LoadSegments(pt: PageTableManager, phs: seq<ProgramHeader>, elf: seq<Byte>)
    returns (r: Result<SpawnImage>)
    requires pt.Valid() && forall k :: 0 <= k < |phs| ==> InLowerHalf(phs[k])
    modifies pt.memory
    ensures pt.Valid() && Confined(old(pt.memory.mem), old(pt.memory.place), pt.memory.mem, pt.memory.place, pt.p4)
    ensures OnlyTouched(old(pt.memory.mem), pt.memory.mem, old(pt.memory.place), pt.p4, phs)
    ensures KeepsData(old(pt.memory.mem), pt.memory.mem)
    ensures r.Ok? ==> ShowsImage(pt.memory.mem, pt.p4, elf, phs) && AllInFile(elf, phs)
    ensures r.Ok? && Proper(phs) ==> ShowsSegments(pt.memory.mem, pt.p4, elf, phs)
    ensures r.Ok? ==> SegmentsPermitted(pt.memory.mem, pt.p4, phs)
    ensures Plain(old(pt.memory.mem), pt.p4) ==> Plain(pt.memory.mem, pt.p4)
    ensures r.Ok? ==> ReplacesTouched(old(pt.memory.mem), pt.memory.mem, pt.p4, phs)
    ensures r.Ok? <==>
              && AllInFile(elf, phs) && !Conflict(old(pt.memory.mem), pt.p4, phs)
              && !Short(old(pt.memory.mem), pt.p4, phs)
    ensures r.Err? ==> r.error == InvalidSegment || r.error == AlreadyMapped || r.error == OutOfMemory
    ensures r == Err(InvalidSegment) ==> !AllInFile(elf, phs)
    ensures r == Err(AlreadyMapped) ==> Conflict(old(pt.memory.mem), pt.p4, phs)
    ensures r == Err(OutOfMemory) ==> Short(old(pt.memory.mem), pt.p4, phs)
    ensures r.Ok? ==> r.value.heapStart % 4096 == 0 && r.value.heapStart >= 4096
    ensures r.Ok? ==> EndBelow(phs, r.value.heapStart - 4096)
    ensures r.Ok? ==> forall h: nat :: h % 4096 == 0 && h >= 4096 && EndBelow(phs, h - 4096) ==> r.value.heapStart <= h
  {
    hide Loaded, WellFormed, Since, Confined, IsRoot, ShowsImage, ShowsSegments, SegmentsPermitted, ReplacesTouched;
    hide OnlyTouched, KeepsData, AllInFile, Proper, EndBelow, InLowerHalf, PageUp, Conflict, Plain, Spent, Short;
    hide EndsAt;
    ghost var m0, place0 := pt.memory.mem, pt.memory.place;
    var loaded, mapped, highest := LoadHeaders(pt, phs, elf);
    SinceConfined(m0, place0, pt.memory.mem, pt.memory.place, pt.p4, phs, mapped);
    if loaded.Err? {
      return Err(loaded.error);
    }
    AllLoaded(m0, place0, pt.memory.mem, pt.memory.place, pt.p4, mapped, elf, phs, NO_HEADER);
    AllSpent(m0, place0, pt.memory.mem, pt.memory.place, pt.p4, elf, phs, NO_HEADER, mapped);
    AboveAll(phs, highest);
    r := Ok(SpawnImage(mapped, PageUp(highest + 0x1000)));
  }

  /** A completed load took exactly what the pages of the segments cost. */
  lemma AllSpent(m0: Memory, place0: map<Frame, Place>, m: Memory, place: map<Frame, Place>, root: Frame,
                 elf: seq<Byte>, phs: seq<ProgramHeader>, any: ProgramHeader, mapped: map<nat, Frame>)
    requires Since(m0, place0, m, place, root, phs, mapped) && Loaded(m, root, mapped, elf, phs, any, any.vaddr)
    requires Spent(m0, m, root, mapped.Keys)
    ensures mapped.Keys == TouchedPages(phs) && |m.free| + Cost(m0, root, TouchedPages(phs)) == |m0.free|
    ensures !Short(m0, root, phs)
  {
    TrackedAreTouched(m0, place0, m, place, root, elf, phs, phs, any, mapped);
    AllTracked(phs, mapped);
    hide TouchedPages, Since, Loaded, TablesBrought, Cost;
  }

  lemma AllTracked(phs: seq<ProgramHeader>, mapped: map<nat, Frame>)
    requires CoversAll(mapped, phs)
    ensures TouchedPages(phs) <= mapped.Keys
  {
    hide Touched, Covers;
    forall p | p in TouchedPages(phs)
      ensures p in mapped
    {
      TouchedIsTracked(phs, mapped, p / 4096);
      assert p / 4096 * 4096 == p;
    }
  }

  lemma AboveAll(phs: seq<ProgramHeader>, highest: nat)
    requires EndBelow(phs, highest) && (highest == 0 || EndsAt(phs, highest))
    ensures forall h: nat :: h % 4096 == 0 && h >= 4096 && EndBelow(phs, h - 4096) ==> PageUp(highest + 0x1000) <= h
    ensures PageUp(highest + 0x1000) % 4096 == 0 && PageUp(highest + 0x1000) >= 4096
    ensures EndBelow(phs, PageUp(highest + 0x1000) - 4096)
  {
  }

  lemma AllLoaded(m0: Memory, place0: map<Frame, Place>, m: Memory, place: map<Frame, Place>, root: Frame,
                  mapped: map<nat, Frame>, elf: seq<Byte>, phs: seq<ProgramHeader>, any: ProgramHeader)
    requires Since(m0, place0, m, place, root, phs, mapped) && Loaded(m, root, mapped, elf, phs, any, any.vaddr)
    requires IsRoot(place0, root)
    requires AllInFile(elf, phs) && forall k :: 0 <= k < |phs| ==> InLowerHalf(phs[k])
    ensures ShowsImage(m, root, elf, phs) && (Proper(phs) ==> ShowsSegments(m, root, elf, phs))
    ensures SegmentsPermitted(m, root, phs) && ReplacesTouched(m0, m, root, phs) && !Conflict(m0, root, phs)
  {
    hide Loaded, Since, IsRoot, ShowsImage, ShowsSegments, SegmentsPermitted, ReplacesTouched, Proper, Conflict;
    LoadedWithoutConflict(m0, place0, m, place, root, mapped, elf, phs, any);
    LoadedShowsImage(m, root, mapped, elf, phs, any);
    if Proper(phs) {
      ImageShowsSegments(m, root, elf, phs);
    }
    LoadedPermits(m0, place0, m, place, root, mapped, elf, phs, any);
    LoadedReplaces(m0, place0, m, place, root, mapped, elf, phs, any);
  }

  lemma SinceConfined(m0: Memory, place0: map<Frame, Place>, m: Memory, place: map<Frame, Place>, root: Frame,
                      phs: seq<ProgramHeader>, mapped: map<nat, Frame>)
    requires Since(m0, place0, m, place, root, phs, mapped) && forall k :: 0 <= k < |phs| ==> InLowerHalf(phs[k])
    ensures Confined(m0, place0, m, place, root) && OnlyTouched(m0, m, place0, root, phs) && KeepsData(m0, m)
    ensures Plain(m0, root) ==> Plain(m, root)
  {
    hide PageEntry, PageOf, FirstTouching, Plain;
    forall r: Frame, w: VirtAddr | IsRoot(place0, r) && (r != root || !Lower(w))
      ensures PageEntry(m, r, w) == PageEntry(m0, r, w)
    {
      if Touched(phs, PageOf(w)) {
        TouchedIsLower(phs, w);
      }
    }
  }

  lemma TouchedIsLower(phs: seq<ProgramHeader>, w: VirtAddr)
    requires Touched(phs, PageOf(w)) && forall k :: 0 <= k < |phs| ==> InLowerHalf(phs[k])
    ensures Lower(w)
  {
    var k := FirstTouching(phs, PageOf(w));
    assert InLowerHalf(phs[k]);
    LowerPages(w);
  }

  /** A page of a segment begins at a tracked address. */
  lemma TouchedIsTracked(phs: seq<ProgramHeader>, mapped: map<nat, Frame>, page: int)
    requires CoversAll(mapped, phs) && Touched(phs, page)
    ensures page * 4096 in mapped
  {
    var ph := phs[FirstTouching(phs, page)];
    assert Covers(mapped, ph);
    CoveredPage(mapped, ph, page);
  }

  /** Every page of a segment has the permissions of the first segment in it: a later segment
      that shares the page has a permission there exactly if the first one has it. */
  ghost predicate SegmentsPermitted(m: Memory, root: Frame, phs: seq<ProgramHeader>) {
    forall w: VirtAddr :: Touched(phs, PageOf(w)) ==>
      && PageEntry(m, root, w).Some?
      && PageEntry(m, root, w).value.flags == SegmentFlags(phs[FirstTouching(phs, PageOf(w))])
  }

  /** Below a plain root the processor grants a segment's page what the first segment in it
      asks for, whatever the tables above. */
  lemma SegmentRights(m: Memory, root: Frame, phs: seq<ProgramHeader>, w: VirtAddr)
    requires SegmentsPermitted(m, root, phs) && Plain(m, root) && Lower(w) && Touched(phs, PageOf(w))
    ensures var ph := phs[FirstTouching(phs, PageOf(w))];
            Effective(m.tables, root, Path(w)) == Some(Rights(ph.writable, true, ph.executable))
  {
    hide PageEntry, Effective, FirstTouching, PageOf;
    PlainRights(m, root, w);
  }

  /** A page that held data before, such as a stack page, keeps its frame exactly when no
      segment touches it. */
  ghost predicate ReplacesTouched(m0: Memory, m: Memory, root: Frame, phs: seq<ProgramHeader>) {
    forall w: VirtAddr :: Translate(m0, root, w).Some? && Translate(m0, root, w).value in m0.data ==>
      (Translate(m, root, w) == Translate(m0, root, w) <==> !Touched(phs, PageOf(w)))
  }

  /** The page of an address in a segment, as it is tracked. */
  lemma TrackedPage(m0: Memory, place0: map<Frame, Place>, m: Memory, place: map<Frame, Place>, root: Frame,
                    mapped: map<nat, Frame>, elf: seq<Byte>, phs: seq<ProgramHeader>, any: ProgramHeader, w: VirtAddr)
    requires Since(m0, place0, m, place, root, phs, mapped) && Loaded(m, root, mapped, elf, phs, any, any.vaddr)
    requires Touched(phs, PageOf(w))
    ensures PageEntry(m, root, w).Some? && PageEntry(m, root, w).value.frame !in m0.data
    ensures PageEntry(m, root, w).value.flags == SegmentFlags(phs[FirstTouching(phs, PageOf(w))])
  {
    hide PageEntry, FirstTouching, SegmentFlags, Shows;
    var page := PageOf(w);
    TouchedIsTracked(phs, mapped, page);
    var p := page * 4096;
    PageOfAligned(p, 0);
    assert p / 4096 == page;
    SamePageEntry(m, root, p, w);
  }

  /** A completed load met no page that was mapped before under a segment that is not
      executable. */
  lemma LoadedWithoutConflict(m0: Memory, place0: map<Frame, Place>, m: Memory, place: map<Frame, Place>, root: Frame,
                              mapped: map<nat, Frame>, elf: seq<Byte>, phs: seq<ProgramHeader>, any: ProgramHeader)
    requires Since(m0, place0, m, place, root, phs, mapped) && Loaded(m, root, mapped, elf, phs, any, any.vaddr)
    ensures !Conflict(m0, root, phs)
  {
    hide PageEntry, FirstTouching, Shows, PageOf;
    forall w: VirtAddr
      ensures !Conflicts(m0, root, phs, w)
    {
      if Touched(phs, PageOf(w)) {
        var p := PageOf(w) * 4096;
        TouchedIsTracked(phs, mapped, PageOf(w));
        assert p in mapped;
        PageNumber(w);
        PageOfAligned(p, 0);
        SamePageEntry(m0, root, p, w);
        assert !Conflicts(m0, root, phs, p);
      }
    }
  }

  lemma PageNumber(w: VirtAddr)
    ensures PageOf(w) >= 0 && PageOf(w) * 4096 % 4096 == 0 && PageOf(w) * 4096 / 4096 == PageOf(w)
  {
  }

  lemma LoadedPermits(m0: Memory, place0: map<Frame, Place>, m: Memory, place: map<Frame, Place>, root: Frame,
                      mapped: map<nat, Frame>, elf: seq<Byte>, phs: seq<ProgramHeader>, any: ProgramHeader)
    requires Since(m0, place0, m, place, root, phs, mapped) && Loaded(m, root, mapped, elf, phs, any, any.vaddr)
    ensures SegmentsPermitted(m, root, phs)
  {
    hide PageEntry, FirstTouching, SegmentFlags, Loaded, Since, PageOf;
    forall w: VirtAddr | Touched(phs, PageOf(w))
      ensures PageEntry(m, root, w).Some?
      ensures PageEntry(m, root, w).value.flags == SegmentFlags(phs[FirstTouching(phs, PageOf(w))])
    {
      TrackedPage(m0, place0, m, place, root, mapped, elf, phs, any, w);
    }
  }

  lemma LoadedReplaces(m0: Memory, place0: map<Frame, Place>, m: Memory, place: map<Frame, Place>, root: Frame,
                       mapped: map<nat, Frame>, elf: seq<Byte>, phs: seq<ProgramHeader>, any: ProgramHeader)
    requires Since(m0, place0, m, place, root, phs, mapped) && Loaded(m, root, mapped, elf, phs, any, any.vaddr)
    requires IsRoot(place0, root)
    ensures ReplacesTouched(m0, m, root, phs)
  {
    hide PageEntry, FirstTouching, SegmentFlags, Loaded, PageOf;
    forall w: VirtAddr | Translate(m0, root, w).Some? && Translate(m0, root, w).value in m0.data
      ensures Translate(m, root, w) == Translate(m0, root, w) <==> !Touched(phs, PageOf(w))
    {
      if Touched(phs, PageOf(w)) {
        TrackedPage(m0, place0, m, place, root, mapped, elf, phs, any, w);
      } else {
        assert PageEntry(m, root, w) == PageEntry(m0, root, w);
      }
    }
  }

  /** The stack of a new address space survives loading exactly when no segment touches it. */
  lemma StackSurvivesIff(m0: Memory, m: Memory, place: map<Frame, Place>, root: Frame, phs: seq<ProgramHeader>)
    requires StackMapped(m0, root, USER_STACK_PAGES) && IsRoot(place, root) && KeepsData(m0, m)
    requires OnlyTouched(m0, m, place, root, phs) && ReplacesTouched(m0, m, root, phs)
    ensures (forall i: nat :: i < USER_STACK_PAGES ==>
               Translate(m, root, StackPage(i)) == Translate(m0, root, StackPage(i))) <==>
            (forall i: nat :: i < USER_STACK_PAGES ==> !Touched(phs, PageOf(StackPage(i))))
    ensures (forall i: nat :: i < USER_STACK_PAGES ==> !Touched(phs, PageOf(StackPage(i)))) ==>
              StackMapped(m, root, USER_STACK_PAGES)
  {
    hide PageEntry, FirstTouching, PageOf;
    forall i: nat | i < USER_STACK_PAGES
      ensures Translate(m, root, StackPage(i)) == Translate(m0, root, StackPage(i)) <==>
                !Touched(phs, PageOf(StackPage(i)))
      ensures !Touched(phs, PageOf(StackPage(i))) ==>
                PageEntry(m, root, StackPage(i)) == PageEntry(m0, root, StackPage(i))
    {
      assert Translate(m0, root, StackPage(i)).Some?;
    }
  }

  /** After a successful load, a stack page was replaced exactly if an executable segment is
      the first to touch it; no other segment can touch it. */
  lemma StackReplacedIff(m0: Memory, m: Memory, root: Frame, phs: seq<ProgramHeader>, i: nat)
    requires StackMapped(m0, root, USER_STACK_PAGES) && i < USER_STACK_PAGES
    requires ReplacesTouched(m0, m, root, phs) && !Conflict(m0, root, phs)
    ensures var k := FirstTouching(phs, PageOf(StackPage(i)));
            && (Translate(m, root, StackPage(i)) != Translate(m0, root, StackPage(i)) <==>
                  k < |phs| && phs[k].executable)
            && (k < |phs| ==> phs[k].executable)
  {
    hide PageEntry, FirstTouching, PageOf;
    assert Translate(m0, root, StackPage(i)).Some?;
    assert !Conflicts(m0, root, phs, StackPage(i));
  }

  /** One page at the base of the stack, as a segment. */
  function OverStack(executable: bool): seq<ProgramHeader> {
    [ProgramHeader(true, executable, true, 0, USER_STACK_BASE, 0, 4096)]
  }

  /** Such a segment touches the first stack page: it conflicts unless it is executable. */
  lemma OverStackTouches(m: Memory, root: Frame, executable: bool)
    requires StackMapped(m, root, USER_STACK_PAGES)
    ensures InLowerHalf(OverStack(executable)[0]) && Touched(OverStack(executable), PageOf(StackPage(0)))
    ensures !executable ==> Conflict(m, root, OverStack(executable))
  {
    hide PageEntry;
    StackPages(0);
    FirstTouchingIs(OverStack(executable), STACK_FIRST, 0);
    if !executable {
      assert Conflicts(m, root, OverStack(executable), StackPage(0));
    }
  }

  /** An executable segment and a writable one that share the page at 0x400000. */
  const SHARED_PAGE := [ProgramHeader(true, true, false, 0, 0x400000, 0, 0x800),
                        ProgramHeader(true, false, true, 0, 0x400800, 0, 0x800)]

  /** The writable one does not get its page writable. */
  lemma SharedPageNotWritable(m: Memory, root: Frame)
    requires SegmentsPermitted(m, root, SHARED_PAGE)
    ensures Proper(SHARED_PAGE) && InSegment(SHARED_PAGE[1], 0x400800)
    ensures PageEntry(m, root, 0x400800).Some? && PageEntry(m, root, 0x400800).value.flags.low / WRITABLE % 2 == 0
    ensures SegmentFlags(SHARED_PAGE[1]).low / WRITABLE % 2 == 1
  {
    hide PageEntry;
    assert PageOf(0x400800) == 0x400;
    FirstTouchingIs(SHARED_PAGE, 0x400, 0);
  }

  /** `a` lies in the memory range of the segment. */
  predicate InSegment(ph: ProgramHeader, a: nat) { ph.load && ph.vaddr <= a < ph.vaddr + ph.memsz }

  /** Every byte of every loaded segment, seen through the page table, is the image's. */
  ghost predicate ShowsImage(m: Memory, root: Frame, elf: seq<Byte>, phs: seq<ProgramHeader>) {
    forall k, a: nat :: 0 <= k < |phs| && InSegment(phs[k], a) ==> ShowsByte(m, root, elf, phs, a)
  }

  ghost predicate ShowsByte(m: Memory, root: Frame, elf: seq<Byte>, phs: seq<ProgramHeader>, a: nat) {
    a < 0x8000_0000_0000 && ByteAt(m, root, a) == Some(Image(elf, phs, a))
  }

  lemma NothingLoaded(m: Memory, root: Frame, elf: seq<Byte>, ph: ProgramHeader)
    ensures Loaded(m, root, map[], elf, [], ph, ph.vaddr) && AllInFile(elf, []) && EndBelow([], 0)
  {
  }

  lemma LoadedAny(m: Memory, root: Frame, mapped: map<nat, Frame>, elf: seq<Byte>, phs: seq<ProgramHeader>,
                  ph: ProgramHeader, other: ProgramHeader)
    requires Loaded(m, root, mapped, elf, phs, ph, ph.vaddr)
    ensures Loaded(m, root, mapped, elf, phs, other, other.vaddr)
  {
    hide PageEntry;
    forall p, o | p in mapped && 0 <= o < 4096 && mapped[p] in m.data
      ensures m.data[mapped[p]][o] == PartialImage(elf, phs, other, other.vaddr, p + o)
    {
      assert m.data[mapped[p]][o] == PartialImage(elf, phs, ph, ph.vaddr, p + o);
    }
  }

  lemma SkipHeader(m: Memory, root: Frame, mapped: map<nat, Frame>, elf: seq<Byte>, phs: seq<ProgramHeader>,
                   ph: ProgramHeader, any: ProgramHeader)
    requires Loaded(m, root, mapped, elf, phs, any, any.vaddr) && !ph.load
    ensures Loaded(m, root, mapped, elf, phs + [ph], any, any.vaddr)
  {
    hide PageEntry;
    LoadedAny(m, root, mapped, elf, phs, any, ph);
    ImageGrows(m, root, mapped, elf, phs, ph, any);
  }

  lemma LoadedShowsImage(m: Memory, root: Frame, mapped: map<nat, Frame>,
                         elf: seq<Byte>, phs: seq<ProgramHeader>, any: ProgramHeader)
    requires Loaded(m, root, mapped, elf, phs, any, any.vaddr)
    requires forall k :: 0 <= k < |phs| ==> InLowerHalf(phs[k])
    ensures ShowsImage(m, root, elf, phs)
  {
    hide InSegment, ShowsByte, Loaded;
    forall k, a: nat | 0 <= k < |phs| && InSegment(phs[k], a)
      ensures ShowsByte(m, root, elf, phs, a)
    {
      LoadedBytes(m, root, mapped, elf, phs, any, k, a);
    }
  }

  lemma LoadedBytes(m: Memory, root: Frame, mapped: map<nat, Frame>,
                    elf: seq<Byte>, phs: seq<ProgramHeader>, any: ProgramHeader, k: int, a: nat)
    requires Loaded(m, root, mapped, elf, phs, any, any.vaddr)
    requires 0 <= k < |phs| && InSegment(phs[k], a) && InLowerHalf(phs[k])
    ensures ShowsByte(m, root, elf, phs, a)
  {
    assert Covers(mapped, phs[k]);
    var p, o := PageBase(a), a % 4096;
    assert a < PageUp(phs[k].vaddr + phs[k].memsz);
    assert p in mapped && p + o == a;
    assert m.data[mapped[p]][o] == PartialImage(elf, phs, any, any.vaddr, p + o);
    PageOfAligned(p, o);
    PageOfAligned(p, 0);
    SamePageEntry(m, root, p, a);
  }

  // ---------------------------------------------------------------------------
  // The image of disjoint segments

  /** The memory ranges of the loadable segments do not overlap. */
  predicate Disjoint(phs: seq<ProgramHeader>) {
    forall j, k :: 0 <= j < k < |phs| && phs[j].load && phs[k].load ==>
      phs[j].vaddr + phs[j].memsz <= phs[k].vaddr || phs[k].vaddr + phs[k].memsz <= phs[j].vaddr
  }

  /** Disjoint memory ranges, and no segment with more file bytes than memory. */
  predicate Proper(phs: seq<ProgramHeader>) {
    Disjoint(phs) && forall j :: 0 <= j < |phs| && phs[j].load ==> phs[j].filesz <= phs[j].memsz
  }

  /** Byte `i` of segment `k`, seen through the page table, is the file's byte there, and 0
      from filesz to memsz. */
  ghost predicate ShowsSegments(m: Memory, root: Frame, elf: seq<Byte>, phs: seq<ProgramHeader>) {
    forall k, i: nat :: 0 <= k < |phs| && phs[k].load && i < phs[k].memsz ==> ShowsFileByte(m, root, elf, phs[k], i)
  }

  ghost predicate ShowsFileByte(m: Memory, root: Frame, elf: seq<Byte>, ph: ProgramHeader, i: nat) {
    && ph.vaddr + i < 0x8000_0000_0000
    && (i < ph.filesz ==> ph.offset + i < |elf|)
    && ByteAt(m, root, ph.vaddr + i) == Some(if i < ph.filesz then elf[ph.offset + i] else 0)
  }

  lemma ImageShowsSegments(m: Memory, root: Frame, elf: seq<Byte>, phs: seq<ProgramHeader>)
    requires ShowsImage(m, root, elf, phs) && Proper(phs) && AllInFile(elf, phs)
    ensures ShowsSegments(m, root, elf, phs)
  {
    hide ByteAt, Image, Disjoint;
    forall k, i: nat | 0 <= k < |phs| && phs[k].load && i < phs[k].memsz
      ensures ShowsFileByte(m, root, elf, phs[k], i)
    {
      var a := phs[k].vaddr + i;
      assert InSegment(phs[k], a) && InFile(elf, phs[k]);
      assert ShowsByte(m, root, elf, phs, a);
      DisjointImage(elf, phs, k, i);
    }
  }

  /** With disjoint memory ranges and filesz <= memsz every segment shows its file
      bytes, then zeros up to memsz, even where segments share pages. */
  lemma {:induction false} DisjointImage(elf: seq<Byte>, phs: seq<ProgramHeader>, k: nat, i: nat)
    requires Disjoint(phs) && forall j :: 0 <= j < |phs| && phs[j].load ==> phs[j].filesz <= phs[j].memsz
    requires k < |phs| && phs[k].load && i < phs[k].memsz
    ensures Image(elf, phs, phs[k].vaddr + i) ==
            if i < phs[k].filesz then FileByte(elf, phs[k], phs[k].vaddr + i) else 0
  {
    var a := phs[k].vaddr + i;
    var last := phs[|phs| - 1];
    if k < |phs| - 1 {
      DisjointImage(elf, phs[..|phs| - 1], k, i);
    } else if i >= phs[k].filesz {
      OutsideImage(elf, phs[..|phs| - 1], a);
    }
  }

  lemma {:induction false} OutsideImage(elf: seq<Byte>, phs: seq<ProgramHeader>, a: nat)
    requires forall j :: 0 <= j < |phs| && phs[j].load ==> phs[j].filesz <= phs[j].memsz
    requires forall j :: 0 <= j < |phs| ==> !InSegment(phs[j], a)
    ensures Image(elf, phs, a) == 0
  {
    if phs != [] {
      assert !InSegment(phs[|phs| - 1], a);
      OutsideImage(elf, phs[..|phs| - 1], a);
    }
  }
}
