/** The four-level page tables of kernel/src/memory/paging.rs.

    Physical memory is a set of frames. A frame in use is either a page table of
    512 entries or a page of 4096 bytes. Every table carries a ghost place: the
    root it hangs below and the indices that lead to it. All roots share the
    tables below entries 256..511, which belong to the kernel's root.

    `free` lists the frames that later calls of allocate_frame hand out, in that
    order; when it is empty allocate_frame returns None. */
module Paging {
  import opened Common

  datatype Result<+T> = Ok(value: T) | Err(error: Error)

  datatype Error = OutOfMemory | AlreadyMapped | P3NotPresent | P2NotPresent | P1NotPresent | NotMapped
                 | InvalidSegment

  /** A physical frame number: the 40 address bits 12..51 of an entry. */
  type Frame = f: int | 0 <= f < 0x100_0000_0000

  /** The bits of a flags word that set_address keeps: bits 0..11 and bit 63. */
  datatype Flags = Flags(low: int, nx: bool)

  const PRESENT := 1
  const WRITABLE := 2
  const USER := 4
  const WRITE_THROUGH := 8
  const NO_CACHE := 16

  /** A page table entry by bit fields: address, low flags and NO_EXECUTE. */
  datatype Entry = Entry(frame: Frame, flags: Flags) {
    predicate Present() { flags.low % 2 == 1 }
  }

  const EMPTY_ENTRY := Entry(0, Flags(0, false))
  const INTERMEDIATE := Flags(PRESENT + WRITABLE + USER, false)

  type Table = t: seq<Entry> | |t| == 512 witness seq(512, i => EMPTY_ENTRY)

  function ZeroTable(): Table { seq(512, i => EMPTY_ENTRY) }

  type Page = p: seq<Byte> | |p| == 4096 witness seq(4096, i => 0)

  function ZeroBytes(): Page { seq(4096, i => 0) }

  datatype Memory = Memory(tables: map<Frame, Table>, data: map<Frame, Page>, free: seq<Frame>)

  // ---------------------------------------------------------------------------
  // Words and entries

  const BIT63 := 0x8000_0000_0000_0000

  /** The 64-bit word of an entry. */
  function Word(e: Entry): int {
    e.frame * 4096 + e.flags.low + (if e.flags.nx then BIT63 else 0)
  }

  /** The flags a 64-bit word carries. */
  function FlagsOf(word: int): Flags
    requires 0 <= word < 0x1_0000_0000_0000_0000
  {
    Flags(word % 4096, word >= BIT63)
  }

  /** The address field of a word, as a frame number. */
  function FrameOf(word: int): Frame
    requires 0 <= word < 0x1_0000_0000_0000_0000
  {
    word / 4096 % 0x100_0000_0000
  }

  /** The word that set_address stores: three disjoint bit fields. */
  function AddressWord(addr: int, flags: int): int
    requires 0 <= addr < 0x1_0000_0000_0000_0000
    requires 0 <= flags < 0x1_0000_0000_0000_0000
  {
    FrameOf(addr) * 4096 + flags % 4096 + flags / BIT63 * BIT63
  }

  /** Reading back a stored word gives the address masked to bits 12..51 and the
      kept flags, and nothing of one field leaks into the other. */
  lemma AddressWordRoundTrip(addr: int, flags: int)
    requires 0 <= addr < 0x1_0000_0000_0000_0000
    requires 0 <= flags < 0x1_0000_0000_0000_0000
    ensures 0 <= AddressWord(addr, flags) < 0x1_0000_0000_0000_0000
    ensures FrameOf(AddressWord(addr, flags)) == FrameOf(addr)
    ensures FlagsOf(AddressWord(addr, flags)) == FlagsOf(flags)
    ensures AddressWord(addr, flags) == Word(Entry(FrameOf(addr), FlagsOf(flags)))
  {
    var w := AddressWord(addr, flags);
    var nx := flags / BIT63;
    assert nx == 0 || nx == 1;
    assert w / 4096 == FrameOf(addr) + nx * (BIT63 / 4096);
  }

  // ---------------------------------------------------------------------------
  // Virtual addresses

  type VirtAddr = v: int | 0 <= v < 0x1_0000_0000_0000_0000

  function P4(v: VirtAddr): int { v / 0x80_0000_0000 % 512 }
  function P3(v: VirtAddr): int { v / 0x4000_0000 % 512 }
  function P2(v: VirtAddr): int { v / 0x20_0000 % 512 }
  function P1(v: VirtAddr): int { v / 0x1000 % 512 }

  predicate IsPath(path: seq<int>) {
    forall k :: 0 <= k < |path| ==> 0 <= path[k] < 512
  }

  function Path(v: VirtAddr): (p: seq<int>)
    ensures |p| == 4 && IsPath(p)
  {
    [P4(v), P3(v), P2(v), P1(v)]
  }

  /** The virtual page of an address: bits 12..47. */
  function PageOf(v: VirtAddr): int { v / 0x1000 % 0x10_0000_0000 }

  /** Dividing by 512 and a power of it in turn is dividing by their product. */
  lemma DivTwice(x: nat, k: nat)
    requires k in {512, 0x4_0000, 0x800_0000}
    ensures x / (512 * k) == x / 512 / k
  {
    var y := x / 512;
    assert x == 512 * y + x % 512;
    assert y == k * (y / k) + y % k;
  }

  lemma IndicesOfPage(v: VirtAddr)
    ensures PageOf(v) == P1(v) + 512 * (P2(v) + 512 * (P3(v) + 512 * P4(v)))
  {
    var x := v / 0x1000;
    assert v / 0x20_0000 == x / 512;
    assert v / 0x4000_0000 == x / 0x4_0000;
    assert v / 0x80_0000_0000 == x / 0x800_0000;
    DivTwice(x, 512);
    DivTwice(x, 0x4_0000);
    DivTwice(x / 512, 512);
    Digits(x, x / 512, x / 512 / 512, x / 512 / 512 / 512);
  }

  /** The low four base-512 digits of a number. */
  lemma Digits(x: nat, y1: nat, y2: nat, y3: nat)
    requires y1 == x / 512 && y2 == y1 / 512 && y3 == y2 / 512
    ensures x % 0x10_0000_0000 == x % 512 + 512 * (y1 % 512 + 512 * (y2 % 512 + 512 * (y3 % 512)))
  {
    var low := x % 512 + 512 * (y1 % 512 + 512 * (y2 % 512 + 512 * (y3 % 512)));
    assert y3 == 512 * (y3 / 512) + y3 % 512;
    assert x == 0x10_0000_0000 * (y3 / 512) + low;
    assert 0 <= low < 0x10_0000_0000;
  }

  lemma EqualDigit(a: int, h: int, b: int, k: int)
    requires 0 <= a < 512 && 0 <= b < 512
    ensures a + 512 * h == b + 512 * k <==> a == b && h == k
  {
  }

  /** Two addresses walk the same four indices exactly when they lie in one page. */
  lemma PathIdentifiesPage(v: VirtAddr, w: VirtAddr)
    ensures Path(v) == Path(w) <==> PageOf(v) == PageOf(w)
  {
    IndicesOfPage(v);
    IndicesOfPage(w);
    EqualDigit(P1(v), P2(v) + 512 * (P3(v) + 512 * P4(v)), P1(w), P2(w) + 512 * (P3(w) + 512 * P4(w)));
    EqualDigit(P2(v), P3(v) + 512 * P4(v), P2(w), P3(w) + 512 * P4(w));
    EqualDigit(P3(v), P4(v), P3(w), P4(w));
    assert Path(v) == Path(w) <==>
      Path(v)[0] == Path(w)[0] && Path(v)[1] == Path(w)[1] && Path(v)[2] == Path(w)[2] && Path(v)[3] == Path(w)[3];
  }

  /** The walk goes from the highest index to the lowest: spelled in base 512 it is the page
      number, most significant digit first. */
  lemma PathSpellsPage(v: VirtAddr)
    ensures PageOf(v) == Path(v)[3] + 512 * (Path(v)[2] + 512 * (Path(v)[1] + 512 * Path(v)[0]))
  {
    IndicesOfPage(v);
  }

  // ---------------------------------------------------------------------------
  // The tree

  /** Where a table hangs: below `root`, at the end of `path`. */
  datatype Place = Place(root: Frame, path: seq<int>)

  /** The place of the table that entry `i` of a table at `p` may point to. */
  function Child(kernel: Frame, p: Place, i: int): Place {
    Place(if p.path == [] && i >= 256 then kernel else p.root, p.path + [i])
  }

  ghost predicate Placed(tables: map<Frame, Table>, place: map<Frame, Place>, kernel: Frame) {
    && place.Keys == tables.Keys
    && (forall f :: f in place ==>
          |place[f].path| <= 3 && (place[f].path == [] ==> place[f].root == f))
    && (forall f, i :: f in place && |place[f].path| < 3 && 0 <= i < 512 && tables[f][i].Present() ==>
          tables[f][i].frame in place && place[tables[f][i].frame] == Child(kernel, place[f], i))
  }

  ghost predicate WellFormed(m: Memory, place: map<Frame, Place>, kernel: Frame) {
    && Placed(m.tables, place, kernel)
    && m.tables.Keys !! m.data.Keys
    && (forall k :: 0 <= k < |m.free| ==> m.free[k] !in m.tables && m.free[k] !in m.data)
    && (forall j, k :: 0 <= j < k < |m.free| ==> m.free[j] != m.free[k])
  }

  ghost predicate IsRoot(place: map<Frame, Place>, r: Frame) {
    r in place && place[r] == Place(r, [])
  }

  /** The leaf entry that a walk of `path` from table `f` finds. */
  ghost function Lookup(tables: map<Frame, Table>, f: Frame, path: seq<int>): Option<Entry>
    requires |path| > 0 && IsPath(path)
    decreases |path|
  {
    if f !in tables || !tables[f][path[0]].Present() then None
    else if |path| == 1 then Some(tables[f][path[0]])
    else Lookup(tables, tables[f][path[0]].frame, path[1..])
  }

  /** What a last-level entry maps. */
  function Leaf(e: Entry): Option<Entry> {
    if e.Present() then Some(e) else None
  }

  /** The walk of `path` from `f` ends at slot `i` of table `g`. */
  ghost predicate Reaches(tables: map<Frame, Table>, f: Frame, path: seq<int>, g: Frame, i: int)
    requires |path| > 0 && IsPath(path)
    decreases |path|
  {
    if |path| == 1 then f == g && path[0] == i
    else f in tables && tables[f][path[0]].Present() && Reaches(tables, tables[f][path[0]].frame, path[1..], g, i)
  }

  /** The entry that maps the page of `v`: its frame and its permissions. */
  ghost function PageEntry(m: Memory, root: Frame, v: VirtAddr): Option<Entry> {
    Lookup(m.tables, root, Path(v))
  }

  lemma SamePageEntry(m: Memory, root: Frame, v: VirtAddr, w: VirtAddr)
    requires PageOf(v) == PageOf(w)
    ensures PageEntry(m, root, v) == PageEntry(m, root, w)
  {
    hide Lookup, PageOf;
    PathIdentifiesPage(v, w);
  }

  ghost function Translate(m: Memory, root: Frame, v: VirtAddr): Option<Frame> {
    match PageEntry(m, root, v)
    case None => None
    case Some(e) => Some(e.frame)
  }

  /** What entry `i` of table `f` points to, if both are there. */
  function Read(tables: map<Frame, Table>, f: Option<Frame>, i: int): Option<Frame>
    requires 0 <= i < 512
  {
    if f.None? || f.value !in tables || !tables[f.value][i].Present() then None else Some(tables[f.value][i].frame)
  }

  /** The processor's translation, read by read: bits 39..47, 30..38, 21..29 and 12..20 of the
      address select the entries, in this order. */
  function FourReads(tables: map<Frame, Table>, root: Frame, v: VirtAddr): Option<Frame> {
    var l3 := Read(tables, Some(root), v / 0x80_0000_0000 % 512);
    var l2 := Read(tables, l3, v / 0x4000_0000 % 512);
    var l1 := Read(tables, l2, v / 0x20_0000 % 512);
    Read(tables, l1, v / 0x1000 % 512)
  }

  /** Translations are what the processor reads. */
  lemma TranslateIsFourReads(m: Memory, root: Frame, v: VirtAddr)
    ensures Translate(m, root, v) == FourReads(m.tables, root, v)
  {
    hide Read, Lookup;
    LookupReads(m.tables, root, Path(v));
  }

  lemma LookupReads(tables: map<Frame, Table>, f: Frame, p: seq<int>)
    requires |p| == 4 && IsPath(p)
    ensures var l1 := Read(tables, Read(tables, Read(tables, Some(f), p[0]), p[1]), p[2]);
            Read(tables, l1, p[3]) ==
            match Lookup(tables, f, p) case None => None case Some(e) => Some(e.frame)
  {
    LookupStep(tables, f, p);
    if f in tables && tables[f][p[0]].Present() {
      var f3 := tables[f][p[0]].frame;
      LookupStep(tables, f3, p[1..]);
      if f3 in tables && tables[f3][p[1]].Present() {
        LookupStep(tables, tables[f3][p[1]].frame, p[1..][1..]);
      }
    }
  }

  lemma LookupStep(tables: map<Frame, Table>, f: Frame, path: seq<int>)
    requires |path| > 1 && IsPath(path)
    ensures Lookup(tables, f, path) ==
            match Read(tables, Some(f), path[0]) case None => None case Some(c) => Lookup(tables, c, path[1..])
  {
  }

  /** The number of intermediate tables that the walk of `path` from `f` lacks. */
  ghost function Missing(tables: map<Frame, Table>, f: Frame, path: seq<int>): nat
    requires |path| > 0 && IsPath(path)
    decreases |path|
  {
    if |path| == 1 then 0
    else if f !in tables || !tables[f][path[0]].Present() then |path| - 1
    else Missing(tables, tables[f][path[0]].frame, path[1..])
  }

  function SetEntry(tables: map<Frame, Table>, f: Frame, i: int, e: Entry): map<Frame, Table>
    requires f in tables && 0 <= i < 512
  {
    tables[f := tables[f][i := e]]
  }

  /** A walk that ends at a slot stays below its root: the place of the table it
      ends in spells the walk. */
  lemma {:induction false} ReachesSpellsPlace(tables: map<Frame, Table>, place: map<Frame, Place>, kernel: Frame,
                                              f: Frame, path: seq<int>, g: Frame, i: int)
    requires Placed(tables, place, kernel)
    requires |path| > 0 && IsPath(path) && f in place && |place[f].path| + |path| == 4
    requires Reaches(tables, f, path, g, i)
    ensures g in place && i == path[|path| - 1]
    ensures place[g].path == place[f].path + path[..|path| - 1]
    ensures place[g].root == (if place[f].path == [] && path[0] >= 256 then kernel else place[f].root)
    decreases |path|
  {
    if |path| == 1 {
      assert place[f].path != [];
      assert place[f].path + path[..0] == place[f].path;
    } else {
      var c := tables[f][path[0]].frame;
      ReachesSpellsPlace(tables, place, kernel, c, path[1..], g, i);
      assert path[..|path| - 1] == [path[0]] + path[1..][..|path| - 2];
    }
  }

  /** Filling an absent entry above the leaves with a fresh zero table, or
      rewriting the flags of a present one, changes no walk. */
  lemma {:induction false} LinkKeepsLookup(tables: map<Frame, Table>, place: map<Frame, Place>, kernel: Frame,
                                           f: Frame, i: int, n: Frame, flags: Flags, g: Frame, path: seq<int>)
    requires Placed(tables, place, kernel)
    requires f in place && |place[f].path| < 3 && 0 <= i < 512 && flags.low % 2 == 1
    requires if tables[f][i].Present() then n == tables[f][i].frame else n !in tables
    requires |path| > 0 && IsPath(path) && g in place && |place[g].path| + |path| == 4
    ensures var base := if tables[f][i].Present() then tables else tables[n := ZeroTable()];
            Lookup(SetEntry(base, f, i, Entry(n, flags)), g, path) == Lookup(tables, g, path)
    decreases |path|
  {
    var base := if tables[f][i].Present() then tables else tables[n := ZeroTable()];
    var after := SetEntry(base, f, i, Entry(n, flags));
    if g == f && path[0] == i && !tables[f][i].Present() {
      assert after[n] == ZeroTable();
    } else if tables[g][path[0]].Present() && |path| > 1 {
      LinkKeepsLookup(tables, place, kernel, f, i, n, flags, tables[g][path[0]].frame, path[1..]);
    }
  }

  /** Writing a slot of a last-level table changes exactly the walks that end there. */
  lemma {:induction false} LeafChangesLookup(tables: map<Frame, Table>, place: map<Frame, Place>, kernel: Frame,
                                             f: Frame, i: int, e: Entry, g: Frame, path: seq<int>)
    requires Placed(tables, place, kernel)
    requires f in place && |place[f].path| == 3 && 0 <= i < 512
    requires |path| > 0 && IsPath(path) && g in place && |place[g].path| + |path| == 4
    ensures Lookup(SetEntry(tables, f, i, e), g, path) ==
            if Reaches(tables, g, path, f, i) then Leaf(e)
            else Lookup(tables, g, path)
    decreases |path|
  {
    if |path| > 1 && tables[g][path[0]].Present() {
      LeafChangesLookup(tables, place, kernel, f, i, e, tables[g][path[0]].frame, path[1..]);
    }
  }

  /** The slots two walks end at differ unless the walks are the same, from one
      root or through the shared half. */
  lemma SlotsAreSeparate(tables: map<Frame, Table>, place: map<Frame, Place>, kernel: Frame,
                         r: Frame, path: seq<int>, s: Frame, other: seq<int>, g: Frame, i: int)
    requires Placed(tables, place, kernel) && IsRoot(place, r) && IsRoot(place, s)
    requires |path| == 4 && IsPath(path) && |other| == 4 && IsPath(other)
    requires Reaches(tables, r, path, g, i) && Reaches(tables, s, other, g, i)
    ensures path == other
    ensures r == s || path[0] >= 256
  {
    ReachesSpellsPlace(tables, place, kernel, r, path, g, i);
    ReachesSpellsPlace(tables, place, kernel, s, other, g, i);
    assert path == path[..3] + [path[3]] && other == other[..3] + [other[3]];
    assert [] + path[..3] == path[..3] && [] + other[..3] == other[..3];
    assert path[..3][0] == other[..3][0];
  }

  // ---------------------------------------------------------------------------
  // Memory in place

  /** The two addresses share one leaf slot: same page, and the same root unless
      the page lies in the shared upper half. */
  predicate SameSlot(root: Frame, v: VirtAddr, r: Frame, w: VirtAddr) {
    PageOf(w) == PageOf(v) && (r == root || P4(v) >= 256)
  }

  /** No mapping through any root in `place` differs, except at `v` below `root`. */
  ghost predicate OnlySlotChanges(m: Memory, m': Memory, place: map<Frame, Place>, root: Frame, v: VirtAddr) {
    forall r: Frame, w: VirtAddr :: IsRoot(place, r) && !SameSlot(root, v, r, w) ==>
      PageEntry(m', r, w) == PageEntry(m, r, w)
  }

  ghost predicate SameTranslations(m: Memory, m': Memory, place: map<Frame, Place>) {
    forall r: Frame, w: VirtAddr :: IsRoot(place, r) ==> PageEntry(m', r, w) == PageEntry(m, r, w)
  }

  ghost predicate Extends(place: map<Frame, Place>, place': map<Frame, Place>) {
    forall f :: f in place ==> f in place' && place'[f] == place[f]
  }

  /** Point entry `i` of table `f` at table `n`, zeroing `n` first when the entry
      was absent. */
  function Linked(m: Memory, f: Frame, i: int, n: Frame): Memory
    requires f in m.tables && 0 <= i < 512
  {
    var base := if m.tables[f][i].Present() then m.tables else m.tables[n := ZeroTable()];
    m.(tables := SetEntry(base, f, i, Entry(n, INTERMEDIATE)))
  }

  ghost function LinkedPlace(m: Memory, place: map<Frame, Place>, kernel: Frame, f: Frame, i: int, n: Frame)
    : map<Frame, Place>
    requires f in m.tables && f in place && 0 <= i < 512
  {
    if m.tables[f][i].Present() then place else place[n := Child(kernel, place[f], i)]
  }

  ghost predicate CanLink(m: Memory, place: map<Frame, Place>, kernel: Frame, f: Frame, i: int, n: Frame) {
    && WellFormed(m, place, kernel)
    && f in place && |place[f].path| < 3 && 0 <= i < 512
    && if m.tables[f][i].Present() then n == m.tables[f][i].frame
       else n !in m.tables && n !in m.data && n !in m.free
  }

  lemma LinkKeepsWellFormed(m: Memory, place: map<Frame, Place>, kernel: Frame, f: Frame, i: int, n: Frame)
    requires CanLink(m, place, kernel, f, i, n)
    ensures WellFormed(Linked(m, f, i, n), LinkedPlace(m, place, kernel, f, i, n), kernel)
  {
    var m' := Linked(m, f, i, n);
    var place' := LinkedPlace(m, place, kernel, f, i, n);
    forall g, k | g in place' && |place'[g].path| < 3 && 0 <= k < 512 && m'.tables[g][k].Present()
      ensures m'.tables[g][k].frame in place'
      ensures place'[m'.tables[g][k].frame] == Child(kernel, place'[g], k)
    {
      if g in m.tables && !(g == f && k == i) {
        assert m'.tables[g][k] == m.tables[g][k];
      }
    }
  }

  lemma LinkKeepsTranslations(m: Memory, place: map<Frame, Place>, kernel: Frame, f: Frame, i: int, n: Frame)
    requires CanLink(m, place, kernel, f, i, n)
    ensures SameTranslations(m, Linked(m, f, i, n), place)
  {
    forall r: Frame, w: VirtAddr | IsRoot(place, r)
      ensures PageEntry(Linked(m, f, i, n), r, w) == PageEntry(m, r, w)
    {
      LinkKeepsLookup(m.tables, place, kernel, f, i, n, INTERMEDIATE, r, Path(w));
    }
  }

  // ---------------------------------------------------------------------------
  // Walking down, creating tables

  /** The table that entry `i` of table `f` points to, or the next frame of the
      supply when the entry is absent. */
  function Next(m: Memory, f: Frame, i: int): Option<Frame>
    requires f in m.tables && 0 <= i < 512
  {
    if m.tables[f][i].Present() then Some(m.tables[f][i].frame)
    else if m.free == [] then None
    else Some(m.free[0])
  }

  /** The memory after get-or-create at entry `i` of `f`. With `force` a present
      entry gets the intermediate flags, which clears its NO_EXECUTE. */
  function Descended(m: Memory, f: Frame, i: int, force: bool): Memory
    requires f in m.tables && 0 <= i < 512
  {
    if m.tables[f][i].Present() then (if force then Linked(m, f, i, m.tables[f][i].frame) else m)
    else if m.free == [] then m
    else Linked(m.(free := m.free[1..]), f, i, m.free[0])
  }

  ghost function DescendedPlace(m: Memory, place: map<Frame, Place>, kernel: Frame, f: Frame, i: int): map<Frame, Place>
    requires f in m.tables && f in place && 0 <= i < 512
  {
    if Next(m, f, i).Some? then LinkedPlace(m, place, kernel, f, i, Next(m, f, i).value) else place
  }

  ghost predicate InTree(m: Memory, place: map<Frame, Place>, kernel: Frame, f: Frame, path: seq<int>) {
    && WellFormed(m, place, kernel)
    && |path| > 0 && IsPath(path) && f in place && |place[f].path| + |path| == 4
  }

  lemma DescendKeeps(m: Memory, place: map<Frame, Place>, kernel: Frame, f: Frame, path: seq<int>, force: bool)
    requires InTree(m, place, kernel, f, path) && |path| > 1
    ensures var m' := Descended(m, f, path[0], force);
            var place' := DescendedPlace(m, place, kernel, f, path[0]);
            && WellFormed(m', place', kernel) && Extends(place, place') && m'.data == m.data
            && SameTranslations(m, m', place)
            && (Next(m, f, path[0]).Some? ==> InTree(m', place', kernel, Next(m, f, path[0]).value, path[1..]))
  {
    var i := path[0];
    if m.tables[f][i].Present() {
      LinkKeepsWellFormed(m, place, kernel, f, i, m.tables[f][i].frame);
      LinkKeepsTranslations(m, place, kernel, f, i, m.tables[f][i].frame);
    } else if m.free != [] {
      var m1 := m.(free := m.free[1..]);
      LinkKeepsWellFormed(m1, place, kernel, f, i, m.free[0]);
      LinkKeepsTranslations(m1, place, kernel, f, i, m.free[0]);
    }
  }

  /** Get or create every table on the way of `path` from `f`. */
  ghost function Walked(m: Memory, place: map<Frame, Place>, kernel: Frame, f: Frame, path: seq<int>, force: bool)
    : (Memory, map<Frame, Place>, Option<Frame>)
    requires InTree(m, place, kernel, f, path)
    decreases |path|
  {
    if |path| == 1 then (m, place, Some(f)) else
    DescendKeeps(m, place, kernel, f, path, force);
    var m' := Descended(m, f, path[0], force);
    var place' := DescendedPlace(m, place, kernel, f, path[0]);
    match Next(m, f, path[0])
    case None => (m', place', None)
    case Some(c) => Walked(m', place', kernel, c, path[1..], force)
  }

  /** Creating tables keeps every translation, even when it runs out of frames. */
  lemma {:induction false} WalkKeeps(m: Memory, place: map<Frame, Place>, kernel: Frame,
                                     f: Frame, path: seq<int>, force: bool)
    requires InTree(m, place, kernel, f, path)
    ensures var (m', place', r) := Walked(m, place, kernel, f, path, force);
            && WellFormed(m', place', kernel) && Extends(place, place') && m'.data == m.data
            && SameTranslations(m, m', place)
            && (r.Some? ==> r.value in place' && r.value in m'.tables && |place'[r.value].path| == 3)
    decreases |path|
  {
    if |path| > 1 {
      DescendKeeps(m, place, kernel, f, path, force);
      var next := Next(m, f, path[0]);
      if next.Some? {
        WalkKeeps(Descended(m, f, path[0], force), DescendedPlace(m, place, kernel, f, path[0]), kernel,
                  next.value, path[1..], force);
      }
    }
  }

  /** The tables at or above the start of a walk are not touched below it. */
  lemma {:induction false} WalkStaysBelow(m: Memory, place: map<Frame, Place>, kernel: Frame,
                                          f: Frame, path: seq<int>, force: bool, g: Frame)
    requires InTree(m, place, kernel, f, path)
    requires g in place && |place[g].path| <= |place[f].path| && g != f
    ensures g in Walked(m, place, kernel, f, path, force).0.tables
    ensures Walked(m, place, kernel, f, path, force).0.tables[g] == m.tables[g]
    decreases |path|
  {
    if |path| > 1 {
      DescendKeeps(m, place, kernel, f, path, force);
      var next := Next(m, f, path[0]);
      if next.Some? {
        WalkStaysBelow(Descended(m, f, path[0], force), DescendedPlace(m, place, kernel, f, path[0]), kernel,
                       next.value, path[1..], force, g);
      }
    }
  }

  lemma {:induction false} WalkReaches(m: Memory, place: map<Frame, Place>, kernel: Frame,
                                       f: Frame, path: seq<int>, force: bool)
    requires InTree(m, place, kernel, f, path)
    ensures var (m', place', r) := Walked(m, place, kernel, f, path, force);
            r.Some? ==> Reaches(m'.tables, f, path, r.value, path[|path| - 1])
    decreases |path|
  {
    hide SameTranslations, PageEntry, Lookup;
    if |path| > 1 {
      DescendKeeps(m, place, kernel, f, path, force);
      var next := Next(m, f, path[0]);
      if next.Some? {
        var m1 := Descended(m, f, path[0], force);
        var place1 := DescendedPlace(m, place, kernel, f, path[0]);
        WalkReaches(m1, place1, kernel, next.value, path[1..], force);
        WalkStaysBelow(m1, place1, kernel, next.value, path[1..], force, f);
      }
    }
  }

  /** The walk reaches table `g` through present entries that allow execution. */
  ghost predicate ExecutableTo(tables: map<Frame, Table>, f: Frame, path: seq<int>, g: Frame)
    requires |path| > 0 && IsPath(path)
    decreases |path|
  {
    if |path| == 1 then f == g
    else
      && f in tables && tables[f][path[0]].Present() && !tables[f][path[0]].flags.nx
      && ExecutableTo(tables, tables[f][path[0]].frame, path[1..], g)
  }

  /** Every entry of the walk, the leaf included, is present and allows execution. */
  ghost predicate ExecutablePath(tables: map<Frame, Table>, f: Frame, path: seq<int>)
    requires |path| > 0 && IsPath(path)
    decreases |path|
  {
    && f in tables && tables[f][path[0]].Present() && !tables[f][path[0]].flags.nx
    && (|path| > 1 ==> ExecutablePath(tables, tables[f][path[0]].frame, path[1..]))
  }

  /** The walk of map_executable clears NO_EXECUTE on its way. */
  lemma {:induction false} WalkForces(m: Memory, place: map<Frame, Place>, kernel: Frame, f: Frame, path: seq<int>)
    requires InTree(m, place, kernel, f, path)
    ensures var (m', place', r) := Walked(m, place, kernel, f, path, true);
            r.Some? ==> ExecutableTo(m'.tables, f, path, r.value)
    decreases |path|
  {
    hide SameTranslations, PageEntry, Lookup, Reaches;
    if |path| > 1 {
      DescendKeeps(m, place, kernel, f, path, true);
      var next := Next(m, f, path[0]);
      if next.Some? {
        var m1 := Descended(m, f, path[0], true);
        var place1 := DescendedPlace(m, place, kernel, f, path[0]);
        WalkForces(m1, place1, kernel, next.value, path[1..]);
        WalkStaysBelow(m1, place1, kernel, next.value, path[1..], true, f);
      }
    }
  }

  /** An executable leaf at the end of such a walk makes the whole path executable. */
  lemma {:induction false} LeafExecutable(tables: map<Frame, Table>, place: map<Frame, Place>, kernel: Frame,
                                          f: Frame, path: seq<int>, g: Frame, e: Entry)
    requires Placed(tables, place, kernel) && |path| > 0 && IsPath(path)
    requires f in place && |place[f].path| + |path| == 4 && g in place && |place[g].path| == 3
    requires ExecutableTo(tables, f, path, g) && e.Present() && !e.flags.nx
    ensures ExecutablePath(SetEntry(tables, g, path[|path| - 1], e), f, path)
    decreases |path|
  {
    if |path| > 1 {
      LeafExecutable(tables, place, kernel, tables[f][path[0]].frame, path[1..], g, e);
    }
  }

  /** Changing only table `f` changes no count below it. */
  lemma {:induction false} MissingBelow(tables: map<Frame, Table>, tables': map<Frame, Table>, place: map<Frame, Place>,
                                        kernel: Frame, f: Frame, g: Frame, path: seq<int>)
    requires Placed(tables, place, kernel) && f in place && g in place && |place[g].path| > |place[f].path|
    requires |path| > 0 && IsPath(path) && |place[g].path| + |path| == 4
    requires forall h :: h in tables && h != f ==> h in tables' && tables'[h] == tables[h]
    ensures Missing(tables', g, path) == Missing(tables, g, path)
    decreases |path|
  {
    if |path| > 1 && tables[g][path[0]].Present() {
      MissingBelow(tables, tables', place, kernel, f, tables[g][path[0]].frame, path[1..]);
    }
  }

  /** A walk takes exactly the missing tables from the supply, and fails exactly
      when the supply is shorter. */
  lemma {:induction false} WalkCost(m: Memory, place: map<Frame, Place>, kernel: Frame,
                                    f: Frame, path: seq<int>, force: bool)
    requires InTree(m, place, kernel, f, path)
    ensures var (m', place', r) := Walked(m, place, kernel, f, path, force);
            && (r.None? <==> |m.free| < Missing(m.tables, f, path))
            && (r.Some? ==> m'.free == m.free[Missing(m.tables, f, path)..])
    decreases |path|
  {
    if |path| > 1 {
      DescendKeeps(m, place, kernel, f, path, force);
      DescendCost(m, place, kernel, f, path, force);
      var next := Next(m, f, path[0]);
      hide SameTranslations, Extends, WellFormed, Descended, Next, Missing;
      if next.Some? {
        WalkCost(Descended(m, f, path[0], force), DescendedPlace(m, place, kernel, f, path[0]), kernel,
                 next.value, path[1..], force);
      }
    }
  }

  /** One level takes a frame exactly if its table was missing. */
  lemma DescendCost(m: Memory, place: map<Frame, Place>, kernel: Frame, f: Frame, path: seq<int>, force: bool)
    requires InTree(m, place, kernel, f, path) && |path| > 1
    ensures var next := Next(m, f, path[0]);
            var m1 := Descended(m, f, path[0], force);
            && (next.None? ==> m.free == [] && Missing(m.tables, f, path) > 0)
            && (next.Some? ==>
                  var used := Missing(m.tables, f, path) - Missing(m1.tables, next.value, path[1..]);
                  0 <= used <= |m.free| && m1.free == m.free[used..])
  {
    var next := Next(m, f, path[0]);
    var m1 := Descended(m, f, path[0], force);
    if m.tables[f][path[0]].Present() {
      MissingBelow(m.tables, m1.tables, place, kernel, f, next.value, path[1..]);
    } else if next.Some? {
      assert m1.tables[next.value] == ZeroTable();
    }
  }

  // ---------------------------------------------------------------------------
  // What a walk leaves missing on other paths

  function Min(a: int, b: int): int { if a < b then a else b }

  /** How many tables two walks from one table share below it. */
  function Shared(path: seq<int>, other: seq<int>): (n: nat)
    requires 0 < |path| == |other|
    ensures n < |path|
    decreases |path|
  {
    if |path| == 1 || path[0] != other[0] then 0 else 1 + Shared(path[1..], other[1..])
  }

  predicate Under(path: seq<int>, other: seq<int>) { |path| <= |other| && other[..|path|] == path }

  lemma UnderParent(path: seq<int>, i: int, other: seq<int>)
    ensures Under(path + [i], other) ==> Under(path, other)
  {
    if Under(path + [i], other) {
      assert other[..|path|] == other[..|path| + 1][..|path|];
    }
  }

  /** A walk touches no table outside the subtree it starts in. */
  lemma {:induction false} WalkStaysInside(m: Memory, place: map<Frame, Place>, kernel: Frame,
                                           f: Frame, path: seq<int>, force: bool, g: Frame)
    requires InTree(m, place, kernel, f, path) && g in place && !Under(place[f].path, place[g].path)
    ensures g in Walked(m, place, kernel, f, path, force).0.tables
    ensures Walked(m, place, kernel, f, path, force).0.tables[g] == m.tables[g]
    decreases |path|
  {
    hide SameTranslations, PageEntry, Lookup;
    if |path| > 1 {
      DescendKeeps(m, place, kernel, f, path, force);
      var next := Next(m, f, path[0]);
      if next.Some? {
        var place1 := DescendedPlace(m, place, kernel, f, path[0]);
        assert place1[next.value].path == place[f].path + [path[0]];
        UnderParent(place[f].path, path[0], place[g].path);
        WalkStaysInside(Descended(m, f, path[0], force), place1, kernel, next.value, path[1..], force, g);
      }
    }
  }

  /** Only the subtree of a table decides what walks from it lack. */
  lemma {:induction false} MissingInside(tables: map<Frame, Table>, tables': map<Frame, Table>,
                                         place: map<Frame, Place>, kernel: Frame, g: Frame, path: seq<int>)
    requires Placed(tables, place, kernel) && g in place
    requires |path| > 0 && IsPath(path) && |place[g].path| + |path| == 4
    requires forall h :: h in place && Under(place[g].path, place[h].path) ==> h in tables' && tables'[h] == tables[h]
    ensures Missing(tables', g, path) == Missing(tables, g, path)
    decreases |path|
  {
    assert Under(place[g].path, place[g].path);
    if |path| > 1 && tables[g][path[0]].Present() {
      var c := tables[g][path[0]].frame;
      assert place[c].path == place[g].path + [path[0]];
      forall h | h in place && Under(place[c].path, place[h].path)
        ensures Under(place[g].path, place[h].path)
      {
        UnderParent(place[g].path, path[0], place[h].path);
      }
      MissingInside(tables, tables', place, kernel, c, path[1..]);
    }
  }

  /** A walk that succeeds goes on below, and leaves the table it starts at as its first step
      does. */
  lemma StepOfWalk(m: Memory, place: map<Frame, Place>, kernel: Frame, f: Frame, path: seq<int>, force: bool)
    requires InTree(m, place, kernel, f, path) && |path| > 1 && Walked(m, place, kernel, f, path, force).2.Some?
    ensures f in m.tables && f in place && Next(m, f, path[0]).Some?
    ensures var m1 := Descended(m, f, path[0], force);
            var place1 := DescendedPlace(m, place, kernel, f, path[0]);
            var c := Next(m, f, path[0]).value;
            && InTree(m1, place1, kernel, c, path[1..])
            && Walked(m, place, kernel, f, path, force) == Walked(m1, place1, kernel, c, path[1..], force)
            && f in m1.tables && f in Walked(m, place, kernel, f, path, force).0.tables
            && Walked(m, place, kernel, f, path, force).0.tables[f] == m1.tables[f]
  {
    hide SameTranslations, PageEntry, Lookup;
    DescendKeeps(m, place, kernel, f, path, force);
    WalkStaysBelow(Descended(m, f, path[0], force), DescendedPlace(m, place, kernel, f, path[0]), kernel,
                   Next(m, f, path[0]).value, path[1..], force, f);
  }

  /** After a walk of `path`, another walk lacks what it lacked before, less what it shares. */
  lemma {:induction false} WalkMissing(m: Memory, place: map<Frame, Place>, kernel: Frame,
                                       f: Frame, path: seq<int>, force: bool, other: seq<int>)
    requires InTree(m, place, kernel, f, path) && |other| == |path| && IsPath(other)
    requires Walked(m, place, kernel, f, path, force).2.Some?
    ensures Missing(Walked(m, place, kernel, f, path, force).0.tables, f, other) ==
            Min(Missing(m.tables, f, other), |path| - 1 - Shared(path, other))
    decreases |path|
  {
    hide InTree, DescendedPlace, Descended, Next, Walked, Missing, Shared;
    PathOfTree(m, place, kernel, f, path);
    if |path| == 1 {
      WalkOfOne(m, place, kernel, f, path, force);
      NothingMissing(m.tables, f, other);
      NothingShared(path, other);
    } else {
      StepOfWalk(m, place, kernel, f, path, force);
      if other[0] == path[0] {
        WalkMissing(Descended(m, f, path[0], force), DescendedPlace(m, place, kernel, f, path[0]), kernel,
                    Next(m, f, path[0]).value, path[1..], force, other[1..]);
        MissingAlong(m, place, kernel, f, path, force, other);
      } else {
        OtherBranch(m, place, kernel, f, path, force, other);
        NothingShared(path, other);
        MissingAtMost(m.tables, f, other);
      }
    }
  }

  lemma PathOfTree(m: Memory, place: map<Frame, Place>, kernel: Frame, f: Frame, path: seq<int>)
    requires InTree(m, place, kernel, f, path)
    ensures |path| > 0 && IsPath(path)
  {
  }

  lemma NothingMissing(tables: map<Frame, Table>, f: Frame, path: seq<int>)
    requires |path| == 1 && IsPath(path)
    ensures Missing(tables, f, path) == 0
  {
  }

  /** From the walk below a common entry to the whole walk. */
  lemma MissingAlong(m: Memory, place: map<Frame, Place>, kernel: Frame, f: Frame, path: seq<int>, force: bool,
                     other: seq<int>)
    requires InTree(m, place, kernel, f, path) && |other| == |path| > 1 && IsPath(other) && other[0] == path[0]
    requires f in m.tables && Next(m, f, path[0]).Some?
    requires var m1, c := Descended(m, f, path[0], force), Next(m, f, path[0]).value;
             var after := Walked(m, place, kernel, f, path, force).0.tables;
             && f in m1.tables && f in after && after[f] == m1.tables[f]
             && Missing(after, c, other[1..]) ==
                Min(Missing(m1.tables, c, other[1..]), |path| - 2 - Shared(path[1..], other[1..]))
    ensures Missing(Walked(m, place, kernel, f, path, force).0.tables, f, other) ==
            Min(Missing(m.tables, f, other), |path| - 1 - Shared(path, other))
  {
    hide InTree, Descended, Next, Walked, Missing, Shared;
    SameBranch(m, place, kernel, f, path, force, other);
    MissingStep(Walked(m, place, kernel, f, path, force).0.tables, f, other);
    SharedStep(path, other);
    MissingAtMost(m.tables, f, other);
  }

  lemma WalkOfOne(m: Memory, place: map<Frame, Place>, kernel: Frame, f: Frame, path: seq<int>, force: bool)
    requires InTree(m, place, kernel, f, path) && |path| == 1
    ensures Walked(m, place, kernel, f, path, force) == (m, place, Some(f))
  {
  }

  lemma NothingShared(path: seq<int>, other: seq<int>)
    requires 0 < |path| == |other| && (|path| == 1 || path[0] != other[0])
    ensures Shared(path, other) == 0
  {
  }

  lemma MissingStep(tables: map<Frame, Table>, f: Frame, path: seq<int>)
    requires |path| > 1 && IsPath(path) && f in tables
    ensures tables[f][path[0]].Present() ==>
              Missing(tables, f, path) == Missing(tables, tables[f][path[0]].frame, path[1..])
  {
  }

  lemma SharedStep(path: seq<int>, other: seq<int>)
    requires 1 < |path| == |other| && path[0] == other[0]
    ensures Shared(path, other) == 1 + Shared(path[1..], other[1..])
  {
  }

  lemma {:induction false} MissingAtMost(tables: map<Frame, Table>, f: Frame, path: seq<int>)
    requires |path| > 0 && IsPath(path)
    ensures Missing(tables, f, path) <= |path| - 1
    decreases |path|
  {
    if |path| > 1 && f in tables && tables[f][path[0]].Present() {
      MissingAtMost(tables, tables[f][path[0]].frame, path[1..]);
    }
  }

  /** One step along a common entry. */
  lemma SameBranch(m: Memory, place: map<Frame, Place>, kernel: Frame, f: Frame, path: seq<int>, force: bool,
                   other: seq<int>)
    requires InTree(m, place, kernel, f, path) && |other| == |path| > 1 && IsPath(other) && other[0] == path[0]
    requires Next(m, f, path[0]).Some?
    ensures var m1 := Descended(m, f, path[0], force);
            var c := Next(m, f, path[0]).value;
            && f in m1.tables && m1.tables[f][path[0]].Present() && m1.tables[f][path[0]].frame == c
            && Missing(m1.tables, c, other[1..]) == Min(Missing(m.tables, f, other), |path| - 2)
  {
    var m1 := Descended(m, f, path[0], force);
    var c := Next(m, f, path[0]).value;
    MissingAtMost(m1.tables, c, other[1..]);
    if m.tables[f][path[0]].Present() {
      MissingBelow(m.tables, m1.tables, place, kernel, f, c, other[1..]);
    } else {
      assert m1.tables[c] == ZeroTable();
    }
  }

  /** Walks that leave `f` through another entry lack what they lacked. */
  lemma OtherBranch(m: Memory, place: map<Frame, Place>, kernel: Frame, f: Frame, path: seq<int>, force: bool,
                    other: seq<int>)
    requires InTree(m, place, kernel, f, path) && |other| == |path| > 1 && IsPath(other) && other[0] != path[0]
    requires Walked(m, place, kernel, f, path, force).2.Some?
    ensures Missing(Walked(m, place, kernel, f, path, force).0.tables, f, other) == Missing(m.tables, f, other)
  {
    var after := Walked(m, place, kernel, f, path, force).0.tables;
    StepOfWalk(m, place, kernel, f, path, force);
    assert after[f][other[0]] == m.tables[f][other[0]];
    if m.tables[f][other[0]].Present() {
      var d := m.tables[f][other[0]].frame;
      assert place[d].path == place[f].path + [other[0]];
      hide Walked, InTree, Next, Descended, DescendedPlace;
      forall h | h in place && Under(place[d].path, place[h].path)
        ensures h in after && after[h] == m.tables[h]
      {
        OtherSubtree(m, place, kernel, f, path, force, other[0], h);
      }
      MissingInside(m.tables, after, place, kernel, d, other[1..]);
    }
  }

  lemma OtherSubtree(m: Memory, place: map<Frame, Place>, kernel: Frame, f: Frame, path: seq<int>, force: bool,
                     j: int, h: Frame)
    requires InTree(m, place, kernel, f, path) && |path| > 1 && j != path[0]
    requires Walked(m, place, kernel, f, path, force).2.Some?
    requires h in place && Under(place[f].path + [j], place[h].path)
    ensures h in Walked(m, place, kernel, f, path, force).0.tables
    ensures Walked(m, place, kernel, f, path, force).0.tables[h] == m.tables[h]
  {
    var depth := |place[f].path|;
    assert place[h].path[..depth + 1][depth] == j;
    var m1 := Descended(m, f, path[0], force);
    var place1 := DescendedPlace(m, place, kernel, f, path[0]);
    var c := Next(m, f, path[0]).value;
    StepOfWalk(m, place, kernel, f, path, force);
    assert place1[c].path == place[f].path + [path[0]];
    assert h in place1 && m1.tables[h] == m.tables[h];
    WalkStaysInside(m1, place1, kernel, c, path[1..], force, h);
  }

  /** Leaves do not count. */
  lemma {:induction false} LeafKeepsMissing(tables: map<Frame, Table>, place: map<Frame, Place>, kernel: Frame,
                                            f: Frame, i: int, e: Entry, g: Frame, path: seq<int>)
    requires Placed(tables, place, kernel) && f in place && |place[f].path| == 3 && 0 <= i < 512
    requires |path| > 0 && IsPath(path) && g in place && |place[g].path| + |path| == 4
    ensures Missing(SetEntry(tables, f, i, e), g, path) == Missing(tables, g, path)
    decreases |path|
  {
    if |path| > 1 && tables[g][path[0]].Present() {
      LeafKeepsMissing(tables, place, kernel, f, i, e, tables[g][path[0]].frame, path[1..]);
    }
  }

  /** The tables of the walk of `v` are there now, and no others are new. */
  ghost predicate TablesAdded(m: Memory, m': Memory, root: Frame, v: VirtAddr) {
    forall w: VirtAddr ::
      Missing(m'.tables, root, Path(w)) == Min(Missing(m.tables, root, Path(w)), 3 - Shared(Path(v), Path(w)))
  }

  lemma WalkAddsTables(m: Memory, place: map<Frame, Place>, kernel: Frame, root: Frame, v: VirtAddr, force: bool)
    requires WellFormed(m, place, kernel) && IsRoot(place, root)
    requires Walked(m, place, kernel, root, Path(v), force).2.Some?
    ensures TablesAdded(m, Walked(m, place, kernel, root, Path(v), force).0, root, v)
  {
    hide Walked, Missing, Shared, P4, P3, P2, P1;
    forall w: VirtAddr
      ensures Missing(Walked(m, place, kernel, root, Path(v), force).0.tables, root, Path(w)) ==
              Min(Missing(m.tables, root, Path(w)), 3 - Shared(Path(v), Path(w)))
    {
      WalkMissing(m, place, kernel, root, Path(v), force, Path(w));
    }
  }

  lemma LeafAddsNoTables(m: Memory, m1: Memory, place: map<Frame, Place>, kernel: Frame, root: Frame, v: VirtAddr,
                         f: Frame, i: int, e: Entry)
    requires TablesAdded(m, m1, root, v) && WellFormed(m1, place, kernel) && IsRoot(place, root)
    requires f in place && |place[f].path| == 3 && 0 <= i < 512
    ensures TablesAdded(m, m1.(tables := SetEntry(m1.tables, f, i, e)), root, v)
  {
    hide Missing, Shared, P4, P3, P2, P1;
    forall w: VirtAddr
      ensures Missing(SetEntry(m1.tables, f, i, e), root, Path(w)) == Missing(m1.tables, root, Path(w))
    {
      LeafKeepsMissing(m1.tables, place, kernel, f, i, e, root, Path(w));
    }
  }

  // ---------------------------------------------------------------------------
  // Plain walks

  /** Every present entry above the leaves has the flags that get-or-create gives it. */
  ghost predicate PlainWalk(tables: map<Frame, Table>, f: Frame, path: seq<int>)
    requires |path| > 0 && IsPath(path)
    decreases |path|
  {
    |path| > 1 && f in tables && tables[f][path[0]].Present() ==>
      && tables[f][path[0]].flags == INTERMEDIATE
      && PlainWalk(tables, tables[f][path[0]].frame, path[1..])
  }

  /** All walks of the lower half of `root` are plain. */
  ghost predicate Plain(m: Memory, root: Frame) {
    forall w: VirtAddr :: P4(w) < 256 ==> PlainWalk(m.tables, root, Path(w))
  }

  ghost predicate KeepsPlain(m: Memory, m': Memory, place: map<Frame, Place>) {
    forall r: Frame :: IsRoot(place, r) && Plain(m, r) ==> Plain(m', r)
  }

  lemma {:induction false} LinkKeepsPlain(tables: map<Frame, Table>, place: map<Frame, Place>, kernel: Frame,
                                          f: Frame, i: int, n: Frame, g: Frame, path: seq<int>)
    requires Placed(tables, place, kernel)
    requires f in place && |place[f].path| < 3 && 0 <= i < 512
    requires if tables[f][i].Present() then n == tables[f][i].frame else n !in tables
    requires |path| > 0 && IsPath(path) && g in place && |place[g].path| + |path| == 4
    requires PlainWalk(tables, g, path)
    ensures var base := if tables[f][i].Present() then tables else tables[n := ZeroTable()];
            PlainWalk(SetEntry(base, f, i, Entry(n, INTERMEDIATE)), g, path)
    decreases |path|
  {
    var base := if tables[f][i].Present() then tables else tables[n := ZeroTable()];
    var after := SetEntry(base, f, i, Entry(n, INTERMEDIATE));
    if g == f && path[0] == i && !tables[f][i].Present() {
      assert after[n] == ZeroTable();
    } else if tables[g][path[0]].Present() && |path| > 1 {
      LinkKeepsPlain(tables, place, kernel, f, i, n, tables[g][path[0]].frame, path[1..]);
    }
  }

  lemma {:induction false} LeafKeepsPlain(tables: map<Frame, Table>, place: map<Frame, Place>, kernel: Frame,
                                          f: Frame, i: int, e: Entry, g: Frame, path: seq<int>)
    requires Placed(tables, place, kernel) && f in place && |place[f].path| == 3 && 0 <= i < 512
    requires |path| > 0 && IsPath(path) && g in place && |place[g].path| + |path| == 4 && PlainWalk(tables, g, path)
    ensures PlainWalk(SetEntry(tables, f, i, e), g, path)
    decreases |path|
  {
    if |path| > 1 && tables[g][path[0]].Present() {
      LeafKeepsPlain(tables, place, kernel, f, i, e, tables[g][path[0]].frame, path[1..]);
    }
  }

  lemma DescendKeepsPlain(m: Memory, place: map<Frame, Place>, kernel: Frame, f: Frame, i: int, force: bool,
                          g: Frame, other: seq<int>)
    requires WellFormed(m, place, kernel) && f in place && |place[f].path| < 3 && 0 <= i < 512
    requires g in place && |other| > 0 && IsPath(other) && |place[g].path| + |other| == 4
    requires PlainWalk(m.tables, g, other)
    ensures PlainWalk(Descended(m, f, i, force).tables, g, other)
  {
    if m.tables[f][i].Present() {
      LinkKeepsPlain(m.tables, place, kernel, f, i, m.tables[f][i].frame, g, other);
    } else if m.free != [] {
      LinkKeepsPlain(m.tables, place, kernel, f, i, m.free[0], g, other);
    }
  }

  lemma {:induction false} WalkKeepsPlain(m: Memory, place: map<Frame, Place>, kernel: Frame,
                                          f: Frame, path: seq<int>, force: bool, g: Frame, other: seq<int>)
    requires InTree(m, place, kernel, f, path)
    requires g in place && |other| > 0 && IsPath(other) && |place[g].path| + |other| == 4
    requires PlainWalk(m.tables, g, other)
    ensures PlainWalk(Walked(m, place, kernel, f, path, force).0.tables, g, other)
    decreases |path|
  {
    hide PlainWalk;
    if |path| > 1 {
      DescendKeeps(m, place, kernel, f, path, force);
      DescendKeepsPlain(m, place, kernel, f, path[0], force, g, other);
      var next := Next(m, f, path[0]);
      if next.Some? {
        WalkKeepsPlain(Descended(m, f, path[0], force), DescendedPlace(m, place, kernel, f, path[0]), kernel,
                       next.value, path[1..], force, g, other);
      }
    }
  }

  /** The walk of map_executable makes its own path plain. */
  lemma {:induction false} ForcedWalkIsPlain(m: Memory, place: map<Frame, Place>, kernel: Frame,
                                             f: Frame, path: seq<int>)
    requires InTree(m, place, kernel, f, path)
    ensures var (m', place', r) := Walked(m, place, kernel, f, path, true);
            r.Some? ==> PlainWalk(m'.tables, f, path)
    decreases |path|
  {
    hide SameTranslations, PageEntry, Lookup, Reaches;
    if |path| > 1 {
      DescendKeeps(m, place, kernel, f, path, true);
      var next := Next(m, f, path[0]);
      if next.Some? {
        var m1 := Descended(m, f, path[0], true);
        var place1 := DescendedPlace(m, place, kernel, f, path[0]);
        ForcedWalkIsPlain(m1, place1, kernel, next.value, path[1..]);
        WalkStaysBelow(m1, place1, kernel, next.value, path[1..], true, f);
      }
    }
  }

  lemma WalkKeepsPlainRoots(m: Memory, place: map<Frame, Place>, kernel: Frame, root: Frame, v: VirtAddr, force: bool)
    requires WellFormed(m, place, kernel) && IsRoot(place, root)
    ensures KeepsPlain(m, Walked(m, place, kernel, root, Path(v), force).0, place)
  {
    hide Walked, PlainWalk, P3, P2, P1;
    forall r: Frame, w: VirtAddr | IsRoot(place, r) && Plain(m, r) && P4(w) < 256
      ensures PlainWalk(Walked(m, place, kernel, root, Path(v), force).0.tables, r, Path(w))
    {
      WalkKeepsPlain(m, place, kernel, root, Path(v), force, r, Path(w));
    }
  }

  lemma LeafKeepsPlainRoots(m: Memory, m1: Memory, place: map<Frame, Place>, place1: map<Frame, Place>, kernel: Frame,
                            f: Frame, i: int, e: Entry)
    requires KeepsPlain(m, m1, place) && WellFormed(m1, place1, kernel) && Extends(place, place1)
    requires f in place1 && |place1[f].path| == 3 && 0 <= i < 512
    ensures KeepsPlain(m, m1.(tables := SetEntry(m1.tables, f, i, e)), place)
  {
    hide PlainWalk, P3, P2, P1;
    forall r: Frame, w: VirtAddr | IsRoot(place, r) && Plain(m, r) && P4(w) < 256
      ensures PlainWalk(SetEntry(m1.tables, f, i, e), r, Path(w))
    {
      assert Plain(m1, r);
      LeafKeepsPlain(m1.tables, place1, kernel, f, i, e, r, Path(w));
    }
  }

  lemma LeafKeepsPlainPath(m: Memory, place: map<Frame, Place>, kernel: Frame, root: Frame, v: VirtAddr,
                           f: Frame, e: Entry)
    requires WellFormed(m, place, kernel) && IsRoot(place, root) && f in place && |place[f].path| == 3
    requires PlainWalk(m.tables, root, Path(v))
    ensures PlainWalk(SetEntry(m.tables, f, P1(v), e), root, Path(v))
  {
    hide P4, P3, P2, P1;
    LeafKeepsPlain(m.tables, place, kernel, f, Path(v)[3], e, root, Path(v));
  }

  lemma KeepsPlainTrans(m: Memory, m1: Memory, m2: Memory, place: map<Frame, Place>, place1: map<Frame, Place>)
    requires KeepsPlain(m, m1, place) && Extends(place, place1) && KeepsPlain(m1, m2, place1)
    ensures KeepsPlain(m, m2, place)
  {
    hide Plain;
  }

  class PhysicalMemory {
    var mem: Memory
    ghost var place: map<Frame, Place>
    const kernel: Frame

    ghost predicate Valid()
      reads this
    {
      WellFormed(mem, place, kernel)
    }

    constructor (tables: map<Frame, Table>, data: map<Frame, Page>, free: seq<Frame>,
                 ghost place: map<Frame, Place>, kernel: Frame)
      requires WellFormed(Memory(tables, data, free), place, kernel)
      ensures Valid() && mem == Memory(tables, data, free) && this.place == place && this.kernel == kernel
    {
      mem := Memory(tables, data, free);
      this.place := place;
      this.kernel := kernel;
    }

    /** allocate_frame: the next frame of the supply. */
    method AllocateFrame() returns (r: Option<Frame>)
      requires Valid()
      modifies this`mem
      ensures Valid() && r.None? == (old(mem.free) == [])
      ensures r.None? ==> mem == old(mem)
      ensures r.Some? ==> r.value == old(mem.free)[0] && mem == old(mem).(free := old(mem.free)[1..])
      ensures r.Some? ==> r.value !in mem.tables && r.value !in mem.data && r.value !in mem.free
    {
      if mem.free == [] {
        return None;
      }
      r := Some(mem.free[0]);
      mem := mem.(free := mem.free[1..]);
    }

    /** Use an allocated frame as a page of zero bytes. */
    method ZeroPage(f: Frame)
      requires Valid() && f !in mem.tables && f !in mem.free
      modifies this`mem
      ensures Valid() && mem == old(mem).(data := old(mem.data)[f := ZeroBytes()])
    {
      mem := mem.(data := mem.data[f := ZeroBytes()]);
    }

    /** Store one byte through the direct map. */
    method WriteByte(f: Frame, offset: int, b: Byte)
      requires Valid() && f in mem.data && 0 <= offset < 4096
      modifies this`mem
      ensures Valid() && mem == old(mem).(data := old(mem.data)[f := old(mem.data)[f][offset := b]])
    {
      mem := mem.(data := mem.data[f := mem.data[f][offset := b]]);
    }

    /** Get the table that entry `i` of table `f` points to, creating it when the
        entry is absent. */
    method Descend(f: Frame, i: int, force: bool) returns (r: Option<Frame>)
      requires f in mem.tables && f in place && 0 <= i < 512
      modifies this
      ensures r == old(Next(mem, f, i))
      ensures mem == old(Descended(mem, f, i, force))
      ensures place == old(DescendedPlace(mem, place, kernel, f, i))
    {
      place := DescendedPlace(mem, place, kernel, f, i);
      var e := mem.tables[f][i];
      if e.Present() {
        if force {
          mem := mem.(tables := SetEntry(mem.tables, f, i, Entry(e.frame, INTERMEDIATE)));
        }
        return Some(e.frame);
      }
      if mem.free == [] {
        return None;
      }
      var n := mem.free[0];
      mem := mem.(free := mem.free[1..]);
      mem := mem.(tables := mem.tables[n := ZeroTable()]);
      mem := mem.(tables := SetEntry(mem.tables, f, i, Entry(n, INTERMEDIATE)));
      r := Some(n);
    }
  }

  /** Three present entries lead the walk of `p` to a slot of the table after them. */
  lemma ReachesInFour(tables: map<Frame, Table>, root: Frame, p: seq<int>, f3: Frame, f2: Frame, f1: Frame)
    requires |p| == 4 && IsPath(p)
    requires root in tables && tables[root][p[0]].Present() && tables[root][p[0]].frame == f3
    requires f3 in tables && tables[f3][p[1]].Present() && tables[f3][p[1]].frame == f2
    requires f2 in tables && tables[f2][p[2]].Present() && tables[f2][p[2]].frame == f1
    ensures Reaches(tables, root, p, f1, p[3])
    ensures f1 in tables ==> Lookup(tables, root, p) == Leaf(tables[f1][p[3]])
  {
    assert Reaches(tables, f1, p[1..][1..][1..], f1, p[3]);
    assert Reaches(tables, f2, p[1..][1..], f1, p[3]);
    assert Reaches(tables, f3, p[1..], f1, p[3]);
    if f1 in tables {
      ReachesFindsLeaf(tables, root, p, f1, p[3]);
    }
  }

  lemma {:induction false} ReachesFindsLeaf(tables: map<Frame, Table>, f: Frame, path: seq<int>, g: Frame, i: int)
    requires |path| > 0 && IsPath(path) && g in tables && 0 <= i < 512 && Reaches(tables, f, path, g, i)
    ensures Lookup(tables, f, path) == Leaf(tables[g][i])
    decreases |path|
  {
    if |path| > 1 {
      ReachesFindsLeaf(tables, tables[f][path[0]].frame, path[1..], g, i);
    }
  }

  /** The count of missing tables by the first absent entry. */
  lemma MissingByLevel(tables: map<Frame, Table>, root: Frame, p: seq<int>)
    requires |p| == 4 && IsPath(p) && root in tables
    ensures !tables[root][p[0]].Present() ==> Missing(tables, root, p) == 3
    ensures var f3 := tables[root][p[0]].frame;
            tables[root][p[0]].Present() && f3 in tables ==>
              && (!tables[f3][p[1]].Present() ==> Missing(tables, root, p) == 2)
              && var f2 := tables[f3][p[1]].frame;
                 tables[f3][p[1]].Present() && f2 in tables ==>
                   Missing(tables, root, p) == if tables[f2][p[2]].Present() then 0 else 1
  {
    var f3 := tables[root][p[0]].frame;
    if tables[root][p[0]].Present() && f3 in tables {
      assert Missing(tables, root, p) == Missing(tables, f3, p[1..]);
      if tables[f3][p[1]].Present() {
        assert Missing(tables, f3, p[1..]) == Missing(tables, tables[f3][p[1]].frame, p[1..][1..]);
      }
    }
  }

  lemma {:induction false} MissingMeansUnmapped(tables: map<Frame, Table>, f: Frame, path: seq<int>)
    requires |path| > 0 && IsPath(path) && Missing(tables, f, path) > 0
    ensures Lookup(tables, f, path) == None
    decreases |path|
  {
    if f in tables && tables[f][path[0]].Present() {
      MissingMeansUnmapped(tables, tables[f][path[0]].frame, path[1..]);
    }
  }

  lemma MappedLacksNothing(tables: map<Frame, Table>, f: Frame, path: seq<int>)
    requires |path| > 0 && IsPath(path) && Lookup(tables, f, path).Some?
    ensures Missing(tables, f, path) == 0
  {
    if Missing(tables, f, path) > 0 {
      MissingMeansUnmapped(tables, f, path);
    }
  }

  lemma LeafChangesTranslations(m: Memory, place: map<Frame, Place>, kernel: Frame, root: Frame, v: VirtAddr,
                                f: Frame, e: Entry)
    requires WellFormed(m, place, kernel) && IsRoot(place, root)
    requires f in place && |place[f].path| == 3 && Reaches(m.tables, root, Path(v), f, P1(v))
    ensures var m' := m.(tables := SetEntry(m.tables, f, P1(v), e));
            && WellFormed(m', place, kernel)
            && OnlySlotChanges(m, m', place, root, v)
            && PageEntry(m', root, v) == Leaf(e)
  {
    var m' := m.(tables := SetEntry(m.tables, f, P1(v), e));
    forall r: Frame, w: VirtAddr | IsRoot(place, r) && !SameSlot(root, v, r, w)
      ensures PageEntry(m', r, w) == PageEntry(m, r, w)
    {
      LeafChangesLookup(m.tables, place, kernel, f, P1(v), e, r, Path(w));
      if Reaches(m.tables, r, Path(w), f, P1(v)) {
        SlotsAreSeparate(m.tables, place, kernel, root, Path(v), r, Path(w), f, P1(v));
        PathIdentifiesPage(v, w);
      }
    }
    LeafChangesLookup(m.tables, place, kernel, f, P1(v), e, root, Path(v));
  }

  lemma ExecutableLeaf(m: Memory, place: map<Frame, Place>, kernel: Frame, root: Frame, v: VirtAddr, f: Frame, e: Entry)
    requires WellFormed(m, place, kernel) && IsRoot(place, root) && f in place && |place[f].path| == 3
    requires ExecutableTo(m.tables, root, Path(v), f) && e.Present() && !e.flags.nx
    ensures ExecutablePath(SetEntry(m.tables, f, P1(v), e), root, Path(v))
  {
    hide P4, P3, P2, P1;
    LeafExecutable(m.tables, place, kernel, root, Path(v), f, e);
  }

  class PageTableManager {
    const memory: PhysicalMemory
    const p4: Frame

    ghost predicate Valid()
      reads this, memory
    {
      memory.Valid() && IsRoot(memory.place, p4)
    }

    /** The manager of the table in frame `p4` (from_phys, current). */
    constructor (memory: PhysicalMemory, p4: Frame)
      requires memory.Valid() && IsRoot(memory.place, p4)
      ensures Valid() && this.memory == memory && this.p4 == p4
    {
      this.memory := memory;
      this.p4 := p4;
    }

    /** The common part of map and map_executable: get or create three tables. */
    method Walk(p: seq<int>, force: bool) returns (r: Option<Frame>)
      requires Valid() && |p| == 4 && IsPath(p)
      modifies memory
      ensures (memory.mem, memory.place, r) == old(Walked(memory.mem, memory.place, memory.kernel, p4, p, force))
    {
      ghost var walked := Walked(memory.mem, memory.place, memory.kernel, p4, p, force);
      DescendKeeps(memory.mem, memory.place, memory.kernel, p4, p, force);
      r := memory.Descend(p4, p[0], force);
      if r.None? { return; }
      var p3 := r.value;
      assert walked == Walked(memory.mem, memory.place, memory.kernel, p3, p[1..], force);
      DescendKeeps(memory.mem, memory.place, memory.kernel, p3, p[1..], force);
      r := memory.Descend(p3, p[1], force);
      if r.None? { return; }
      var p2 := r.value;
      assert walked == Walked(memory.mem, memory.place, memory.kernel, p2, p[1..][1..], force);
      DescendKeeps(memory.mem, memory.place, memory.kernel, p2, p[1..][1..], force);
      r := memory.Descend(p2, p[2], force);
      if r.None? { return; }
      assert walked == Walked(memory.mem, memory.place, memory.kernel, r.value, p[1..][1..][1..], force);
    }

    /** Map a virtual page to a frame. */
    method Map(virt: VirtAddr, phys: Frame, flags: Flags) returns (r: Result<()>)
      requires Valid()
      modifies memory
      ensures Valid() && Extends(old(memory.place), memory.place) && memory.mem.data == old(memory.mem.data)
      ensures OnlySlotChanges(old(memory.mem), memory.mem, old(memory.place), p4, virt)
      ensures r.Ok? ==> PageEntry(memory.mem, p4, virt) == Leaf(Entry(phys, flags))
      ensures r.Err? ==> SameTranslations(old(memory.mem), memory.mem, old(memory.place))
      ensures r == Err(AlreadyMapped) <==> old(Translate(memory.mem, p4, virt)).Some?
      ensures r == Err(OutOfMemory) <==> |old(memory.mem.free)| < Missing(old(memory.mem.tables), p4, Path(virt))
      ensures r.Ok? ==> memory.mem.free == old(memory.mem.free)[Missing(old(memory.mem.tables), p4, Path(virt))..]
      ensures r.Err? ==> r.error == AlreadyMapped || r.error == OutOfMemory
      ensures r.Ok? ==> TablesAdded(old(memory.mem), memory.mem, p4, virt)
      ensures KeepsPlain(old(memory.mem), memory.mem, old(memory.place))
    {
      hide WellFormed, Walked, Lookup, Reaches, Missing, P4, P3, P2, TablesAdded, KeepsPlain;
      WalkKeeps(memory.mem, memory.place, memory.kernel, p4, Path(virt), false);
      WalkReaches(memory.mem, memory.place, memory.kernel, p4, Path(virt), false);
      WalkCost(memory.mem, memory.place, memory.kernel, p4, Path(virt), false);
      WalkKeepsPlainRoots(memory.mem, memory.place, memory.kernel, p4, virt, false);
      if Walked(memory.mem, memory.place, memory.kernel, p4, Path(virt), false).2.Some? {
        WalkAddsTables(memory.mem, memory.place, memory.kernel, p4, virt, false);
      }
      var f := Walk(Path(virt), false);
      if f.None? {
        MissingMeansUnmapped(old(memory.mem.tables), p4, Path(virt));
        return Err(OutOfMemory);
      }
      LeafChangesTranslations(memory.mem, memory.place, memory.kernel, p4, virt, f.value, Entry(phys, flags));
      ReachesFindsLeaf(memory.mem.tables, p4, Path(virt), f.value, P1(virt));
      var entry := memory.mem.tables[f.value][P1(virt)];
      if entry.Present() {
        return Err(AlreadyMapped);
      }
      LeafAddsNoTables(old(memory.mem), memory.mem, memory.place, memory.kernel, p4, virt, f.value, P1(virt),
                       Entry(phys, flags));
      LeafKeepsPlainRoots(old(memory.mem), memory.mem, old(memory.place), memory.place, memory.kernel,
                          f.value, P1(virt), Entry(phys, flags));
      memory.mem := memory.mem.(tables := SetEntry(memory.mem.tables, f.value, P1(virt), Entry(phys, flags)));
      r := Ok(());
    }

    /** Map an executable page: overwrites a present leaf and clears NO_EXECUTE on the way. */
    method MapExecutable(virt: VirtAddr, phys: Frame, flags: Flags) returns (r: Result<()>)
      requires Valid()
      modifies memory
      ensures Valid() && Extends(old(memory.place), memory.place) && memory.mem.data == old(memory.mem.data)
      ensures OnlySlotChanges(old(memory.mem), memory.mem, old(memory.place), p4, virt)
      ensures r.Ok? ==> PageEntry(memory.mem, p4, virt) == Leaf(Entry(phys, flags.(nx := false)))
      ensures r.Ok? && flags.low % 2 == 1 ==> ExecutablePath(memory.mem.tables, p4, Path(virt))
      ensures r.Err? ==> SameTranslations(old(memory.mem), memory.mem, old(memory.place))
      ensures r == if |old(memory.mem.free)| < Missing(old(memory.mem.tables), p4, Path(virt)) then Err(OutOfMemory)
                   else Ok(())
      ensures r.Ok? ==> memory.mem.free == old(memory.mem.free)[Missing(old(memory.mem.tables), p4, Path(virt))..]
      ensures r.Ok? ==> TablesAdded(old(memory.mem), memory.mem, p4, virt)
      ensures r.Ok? ==> PlainWalk(memory.mem.tables, p4, Path(virt))
      ensures KeepsPlain(old(memory.mem), memory.mem, old(memory.place))
    {
      hide WellFormed, Walked, Lookup, Reaches, Missing, P4, P3, P2, ExecutableTo, ExecutablePath;
      hide TablesAdded, KeepsPlain, PlainWalk;
      WalkKeeps(memory.mem, memory.place, memory.kernel, p4, Path(virt), true);
      WalkReaches(memory.mem, memory.place, memory.kernel, p4, Path(virt), true);
      WalkCost(memory.mem, memory.place, memory.kernel, p4, Path(virt), true);
      WalkForces(memory.mem, memory.place, memory.kernel, p4, Path(virt));
      WalkKeepsPlainRoots(memory.mem, memory.place, memory.kernel, p4, virt, true);
      ForcedWalkIsPlain(memory.mem, memory.place, memory.kernel, p4, Path(virt));
      if Walked(memory.mem, memory.place, memory.kernel, p4, Path(virt), true).2.Some? {
        WalkAddsTables(memory.mem, memory.place, memory.kernel, p4, virt, true);
      }
      var f := Walk(Path(virt), true);
      if f.None? {
        return Err(OutOfMemory);
      }
      var e := Entry(phys, flags.(nx := false));
      LeafChangesTranslations(memory.mem, memory.place, memory.kernel, p4, virt, f.value, e);
      if flags.low % 2 == 1 {
        ExecutableLeaf(memory.mem, memory.place, memory.kernel, p4, virt, f.value, e);
      }
      LeafAddsNoTables(old(memory.mem), memory.mem, memory.place, memory.kernel, p4, virt, f.value, P1(virt), e);
      LeafKeepsPlainRoots(old(memory.mem), memory.mem, old(memory.place), memory.place, memory.kernel,
                          f.value, P1(virt), e);
      LeafKeepsPlainPath(memory.mem, memory.place, memory.kernel, p4, virt, f.value, e);
      memory.mem := memory.mem.(tables := SetEntry(memory.mem.tables, f.value, P1(virt), e));
      r := Ok(());
    }

    /** Unmap a virtual page and return its frame; the tables stay. */
    method Unmap(virt: VirtAddr) returns (r: Result<Frame>)
      requires Valid()
      modifies memory
      ensures Valid() && memory.place == old(memory.place)
      ensures memory.mem == old(memory.mem).(tables := memory.mem.tables)
      ensures r.Ok? <==> old(Translate(memory.mem, p4, virt)).Some?
      ensures r.Ok? ==> Some(r.value) == old(Translate(memory.mem, p4, virt))
      ensures r.Ok? ==> Translate(memory.mem, p4, virt) == None
      ensures r.Ok? ==> Some(r.value) == FourReads(old(memory.mem.tables), p4, virt)
      ensures OnlySlotChanges(old(memory.mem), memory.mem, old(memory.place), p4, virt)
      ensures r.Err? ==> memory.mem == old(memory.mem)
      ensures KeepsPlain(old(memory.mem), memory.mem, old(memory.place))
      ensures r == Err(P3NotPresent) <==> Missing(old(memory.mem.tables), p4, Path(virt)) == 3
      ensures r == Err(P2NotPresent) <==> Missing(old(memory.mem.tables), p4, Path(virt)) == 2
      ensures r == Err(P1NotPresent) <==> Missing(old(memory.mem.tables), p4, Path(virt)) == 1
    {
      hide Plain, P4, P3, P2, P1;
      var tables := memory.mem.tables;
      TranslateIsFourReads(memory.mem, p4, virt);
      hide FourReads;
      MissingByLevel(tables, p4, Path(virt));
      if Missing(tables, p4, Path(virt)) > 0 {
        MissingMeansUnmapped(tables, p4, Path(virt));
      }
      var p3Entry := tables[p4][P4(virt)];
      if !p3Entry.Present() { return Err(P3NotPresent); }
      var p2Entry := tables[p3Entry.frame][P3(virt)];
      if !p2Entry.Present() { return Err(P2NotPresent); }
      var p1Entry := tables[p2Entry.frame][P2(virt)];
      if !p1Entry.Present() { return Err(P1NotPresent); }
      var f := p1Entry.frame;
      ReachesInFour(tables, p4, Path(virt), p3Entry.frame, p2Entry.frame, f);
      var entry := tables[f][P1(virt)];
      if !entry.Present() { return Err(NotMapped); }
      var cleared := Entry(entry.frame, entry.flags.(low := entry.flags.low - PRESENT));
      LeafChangesTranslations(memory.mem, memory.place, memory.kernel, p4, virt, f, cleared);
      LeafKeepsPlainRoots(memory.mem, memory.mem, memory.place, memory.place, memory.kernel, f, P1(virt), cleared);
      memory.mem := memory.mem.(tables := SetEntry(tables, f, P1(virt), cleared));
      r := Ok(entry.frame);
    }

    /** Translate a virtual address to the frame its page maps to. */
    method TranslateAddr(virt: VirtAddr) returns (r: Option<Frame>)
      requires Valid()
      ensures r == Translate(memory.mem, p4, virt)
      ensures r == FourReads(memory.mem.tables, p4, virt)
    {
      TranslateIsFourReads(memory.mem, p4, virt);
      var tables := memory.mem.tables;
      MissingByLevel(tables, p4, Path(virt));
      if Missing(tables, p4, Path(virt)) > 0 {
        MissingMeansUnmapped(tables, p4, Path(virt));
      }
      var p3Entry := tables[p4][P4(virt)];
      if !p3Entry.Present() { return None; }
      var p2Entry := tables[p3Entry.frame][P3(virt)];
      if !p2Entry.Present() { return None; }
      var p1Entry := tables[p2Entry.frame][P2(virt)];
      if !p1Entry.Present() { return None; }
      ReachesInFour(tables, p4, Path(virt), p3Entry.frame, p2Entry.frame, p1Entry.frame);
      var entry := tables[p1Entry.frame][P1(virt)];
      r := if entry.Present() then Some(entry.frame) else None;
    }
  }
}
