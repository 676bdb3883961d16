/** The kernel heap of kernel/src/memory/heap.rs: a first-fit, address-ordered,
    coalescing free list whose headers live inside the free memory. */
module Heap {
  import opened Common

  /** size_of::<FreeBlock>() */
  const HEADER := 16

  /** A range of bytes: a free block, or a live allocation. */
  datatype Block = Block(addr: nat, size: nat) {
    function End(): nat { addr + size }

    predicate Holds(x: int) { addr <= x < End() }

    predicate Apart(other: Block) { End() <= other.addr || other.End() <= addr }
  }

  // ---------------------------------------------------------------------------
  // Alignment

  lemma MulLess(a: int, b: int, n: nat)
    requires n * a < n * b
    ensures a < b
  {
  }

  lemma MulAtMost(a: int, b: int, n: nat)
    requires a <= b
    ensures n * a <= n * b
  {
  }

  /** A multiple of `align` leaves no remainder. */
  lemma MultipleMod(q: nat, align: nat)
    requires align > 0
    ensures q * align % align == 0
  {
    var x := q * align;
    assert x == align * (x / align) + x % align;
    var d := q - x / align;
    assert align * d == x % align;
    MulLess(d, 1, align);
    MulLess(-1, d, align);
  }

  predicate Aligned(addr: nat, align: nat)
    requires align > 0
  {
    addr % align == 0
  }

  lemma AlignUpNear(addr: nat, align: nat)
    requires align > 0
    ensures addr <= AlignUp(addr, align) < addr + align
  {
    var x := addr + align - 1;
    assert x == align * (x / align) + x % align;
  }

  lemma AlignUpAligned(addr: nat, align: nat)
    requires align > 0
    ensures Aligned(AlignUp(addr, align), align)
  {
    MultipleMod((addr + align - 1) / align, align);
  }

  /** The result is the least multiple of `align` that is not below `addr`. */
  lemma AlignUpLeast(addr: nat, align: nat, m: nat)
    requires align > 0 && addr <= m && Aligned(m, align)
    ensures AlignUp(addr, align) <= m
  {
    var q, c := (addr + align - 1) / align, m / align;
    assert m == align * c;
    MulLess(q, c + 1, align);
    MulAtMost(q, c, align);
  }

  // ---------------------------------------------------------------------------
  // The free list as a value

  /** Strictly sorted, inside lo..hi, every block large enough for its header, and no
      two blocks touch. */
  ghost predicate Coalesced(bs: seq<Block>, lo: nat, hi: nat) {
    && (forall i :: 0 <= i < |bs| ==> lo <= bs[i].addr && bs[i].End() <= hi && bs[i].size >= HEADER)
    && (forall i, j :: 0 <= i < j < |bs| ==> bs[i].End() < bs[j].addr)
  }

  ghost predicate Free(bs: seq<Block>, x: int) {
    exists i :: 0 <= i < |bs| && bs[i].Holds(x)
  }

  function Total(bs: seq<Block>): nat {
    if bs == [] then 0 else bs[0].size + Total(bs[1..])
  }

  /** The bytes of `b` an allocation takes: padding, then the request. */
  function Required(b: Block, size: nat, align: nat): nat
    requires align > 0
  {
    AlignUpNear(b.addr, align);
    AlignUp(b.addr, align) - b.addr + size
  }

  predicate Fits(b: Block, size: nat, align: nat)
    requires align > 0
  {
    b.size >= Required(b, size, align)
  }

  /** What remains of a block: nothing unless a header and more fit. */
  function Remainder(b: Block, size: nat, align: nat): seq<Block>
    requires align > 0
  {
    if b.size > Required(b, size, align) + HEADER
    then [Block(AlignUp(b.addr, align) + size, b.size - Required(b, size, align))]
    else []
  }

  /** The first block that fits, or the length of the list. */
  function FirstFit(bs: seq<Block>, size: nat, align: nat): (k: nat)
    requires align > 0
    ensures k <= |bs|
    ensures forall j :: 0 <= j < k ==> !Fits(bs[j], size, align)
    ensures k < |bs| ==> Fits(bs[k], size, align)
  {
    if bs == [] then 0
    else if Fits(bs[0], size, align) then 0
    else 1 + FirstFit(bs[1..], size, align)
  }

  function AfterAlloc(bs: seq<Block>, k: nat, size: nat, align: nat): seq<Block>
    requires align > 0 && k < |bs|
  {
    bs[..k] + Remainder(bs[k], size, align) + bs[k + 1..]
  }

  /** The number of blocks that start at or below `addr`. */
  function Position(bs: seq<Block>, addr: nat): (k: nat)
    ensures k <= |bs|
    ensures forall j :: 0 <= j < k ==> bs[j].addr <= addr
    ensures k < |bs| ==> bs[k].addr > addr
  {
    if bs == [] || bs[0].addr > addr then 0 else 1 + Position(bs[1..], addr)
  }

  /** Insert a freed range, merging it with the next and the previous block. */
  function AfterDealloc(bs: seq<Block>, b: Block): seq<Block> {
    var k := Position(bs, b.addr);
    var mergeNext := k < |bs| && bs[k].addr == b.End();
    var mergePrev := k > 0 && bs[k - 1].End() == b.addr;
    var mid := if mergeNext then Block(b.addr, b.size + bs[k].size) else b;
    var rest := if mergeNext then bs[k + 1..] else bs[k..];
    if mergePrev then bs[..k - 1] + [Block(bs[k - 1].addr, bs[k - 1].size + mid.size)] + rest
    else bs[..k] + [mid] + rest
  }

  // ---------------------------------------------------------------------------
  // What allocation does to the list

  /** The bytes of `b` that leave the free list: all up to the remainder. */
  function Taken(b: Block, size: nat, align: nat): nat
    requires align > 0
  {
    if Remainder(b, size, align) == [] then b.size else Required(b, size, align)
  }

  lemma RemainderShape(b: Block, size: nat, align: nat)
    requires align > 0 && size >= HEADER && Fits(b, size, align)
    ensures AlignUp(b.addr, align) + size <= b.addr + Taken(b, size, align) <= b.End()
    ensures var r := Remainder(b, size, align);
            r == [] || r == [Block(b.addr + Taken(b, size, align), b.size - Taken(b, size, align))]
    ensures Remainder(b, size, align) != [] ==> b.size - Taken(b, size, align) > HEADER
    ensures Remainder(b, size, align) == [] ==> Taken(b, size, align) == b.size
    ensures b.addr <= AlignUp(b.addr, align)
  {
    AlignUpNear(b.addr, align);
  }

  /** `rest` is what is left of block `b` after its first `taken` bytes. */
  predicate Tail(b: Block, taken: nat, rest: seq<Block>) {
    if rest == [] then taken == b.size
    else taken + HEADER < b.size && rest == [Block(b.addr + taken, b.size - taken)]
  }

  lemma CutKeepsCoalesced(bs: seq<Block>, k: nat, taken: nat, rest: seq<Block>, lo: nat, hi: nat)
    requires Coalesced(bs, lo, hi) && k < |bs| && Tail(bs[k], taken, rest)
    ensures Coalesced(bs[..k] + rest + bs[k + 1..], lo, hi)
  {
  }

  lemma FreeConcat(a: seq<Block>, b: seq<Block>, x: int)
    ensures Free(a + b, x) <==> Free(a, x) || Free(b, x)
  {
    if i :| 0 <= i < |a| && a[i].Holds(x) {
      assert (a + b)[i].Holds(x);
    }
    if i :| 0 <= i < |b| && b[i].Holds(x) {
      assert (a + b)[|a| + i].Holds(x);
    }
  }

  lemma FreeSingle(b: Block, x: int)
    ensures Free([b], x) <==> b.Holds(x)
  {
    assert [b][0] == b;
  }

  /** The free bytes around index `k`: those of the block and of its two sides. */
  lemma FreeAround(bs: seq<Block>, k: nat, mid: seq<Block>, x: int)
    requires k < |bs|
    ensures Free(bs, x) <==> Free(bs[..k], x) || bs[k].Holds(x) || Free(bs[k + 1..], x)
    ensures Free(bs[..k] + mid + bs[k + 1..], x) <==> Free(bs[..k], x) || Free(mid, x) || Free(bs[k + 1..], x)
  {
    hide Free;
    assert bs == bs[..k] + [bs[k]] + bs[k + 1..];
    FreeConcat(bs[..k] + [bs[k]], bs[k + 1..], x);
    FreeConcat(bs[..k], [bs[k]], x);
    FreeSingle(bs[k], x);
    FreeConcat(bs[..k] + mid, bs[k + 1..], x);
    FreeConcat(bs[..k], mid, x);
  }

  lemma CutRemovesBytes(bs: seq<Block>, k: nat, taken: nat, rest: seq<Block>, lo: nat, hi: nat, x: int)
    requires Coalesced(bs, lo, hi) && k < |bs| && Tail(bs[k], taken, rest)
    ensures Free(bs[..k] + rest + bs[k + 1..], x) <==>
            Free(bs, x) && !(bs[k].addr <= x < bs[k].addr + taken)
  {
    FreeAround(bs, k, rest, x);
    if rest != [] {
      FreeSingle(rest[0], x);
    }
    assert bs[k].Holds(x) ==> !Free(bs[..k], x) && !Free(bs[k + 1..], x);
  }

  lemma {:induction false} TotalConcat(a: seq<Block>, b: seq<Block>)
    ensures Total(a + b) == Total(a) + Total(b)
  {
    if a == [] {
      assert a + b == b;
    } else {
      TotalConcat(a[1..], b);
      assert (a + b)[1..] == a[1..] + b;
    }
  }

  lemma TotalAround(bs: seq<Block>, k: nat, mid: seq<Block>)
    requires k < |bs|
    ensures Total(bs[..k] + mid + bs[k + 1..]) == Total(bs) - bs[k].size + Total(mid)
  {
    TotalConcat(bs[..k] + mid, bs[k + 1..]);
    TotalConcat(bs[..k], mid);
    assert bs == bs[..k] + bs[k..] && bs[k..] == [bs[k]] + bs[k + 1..];
    TotalConcat(bs[..k], bs[k..]);
  }

  /** Taking a block keeps the list sorted and coalesced, removes exactly the taken
      bytes and lowers the free total by them. */
  lemma AllocKeepsList(bs: seq<Block>, k: nat, size: nat, align: nat, lo: nat, hi: nat)
    requires Coalesced(bs, lo, hi) && align > 0 && size >= HEADER && k < |bs| && Fits(bs[k], size, align)
    ensures Coalesced(AfterAlloc(bs, k, size, align), lo, hi)
    ensures forall x: int :: Free(AfterAlloc(bs, k, size, align), x) <==>
              Free(bs, x) && !(bs[k].addr <= x < bs[k].addr + Taken(bs[k], size, align))
    ensures Total(AfterAlloc(bs, k, size, align)) == Total(bs) - Taken(bs[k], size, align)
  {
    var rest, taken := Remainder(bs[k], size, align), Taken(bs[k], size, align);
    RemainderShape(bs[k], size, align);
    if rest != [] {
      SingleTotal(rest[0]);
    }
    assert Total(rest) == bs[k].size - taken;
    hide AlignUp, Remainder, Taken, Required, Fits, Coalesced, Free, Total;
    CutKeepsCoalesced(bs, k, taken, rest, lo, hi);
    forall x: int
      ensures Free(AfterAlloc(bs, k, size, align), x) <==> Free(bs, x) && !(bs[k].addr <= x < bs[k].addr + taken)
    {
      CutRemovesBytes(bs, k, taken, rest, lo, hi, x);
    }
    TotalAround(bs, k, rest);
  }

  // ---------------------------------------------------------------------------
  // What deallocation does to the list

  ghost predicate ApartFrom(bs: seq<Block>, b: Block) {
    forall i :: 0 <= i < |bs| ==> bs[i].Apart(b)
  }

  /** The list with blocks p..q replaced by `m`. */
  function Splice(bs: seq<Block>, p: nat, q: nat, m: Block): seq<Block>
    requires p <= q <= |bs|
  {
    bs[..p] + [m] + bs[q..]
  }

  /** The blocks that freeing `b` merges, and the block they become. */
  function Merge(bs: seq<Block>, b: Block): (r: (nat, nat, Block))
    ensures r.0 <= Position(bs, b.addr) <= r.1 <= |bs| && r.1 <= Position(bs, b.addr) + 1 <= r.0 + 2
  {
    var k := Position(bs, b.addr);
    var next := k < |bs| && bs[k].addr == b.End();
    var prev := k > 0 && bs[k - 1].End() == b.addr;
    (if prev then k - 1 else k, if next then k + 1 else k,
     Block(if prev then bs[k - 1].addr else b.addr,
           (if prev then bs[k - 1].size else 0) + b.size + (if next then bs[k].size else 0)))
  }

  lemma DeallocSplices(bs: seq<Block>, b: Block)
    ensures var (p, q, m) := Merge(bs, b); AfterDealloc(bs, b) == Splice(bs, p, q, m)
  {
  }

  /** Freed memory lies strictly above the blocks below that it is not merged with. */
  lemma MergeAbovePrev(bs: seq<Block>, b: Block, lo: nat, hi: nat)
    requires Coalesced(bs, lo, hi) && ApartFrom(bs, b) && b.size >= HEADER
    ensures var (p, q, m) := Merge(bs, b); var k := Position(bs, b.addr);
            && (forall i :: 0 <= i < p ==> bs[i].End() < m.addr)
            && m.addr <= b.addr
            && (p == k ==> m.addr == b.addr)
            && (p < k ==> p == k - 1 && m.addr == bs[p].addr && bs[p].End() == b.addr)
  {
    hide Position;
    var k := Position(bs, b.addr);
    assert forall i :: 0 <= i < k ==> bs[i].End() <= b.addr;
    if k > 0 {
      assert forall i :: 0 <= i < k - 1 ==> bs[i].End() < bs[k - 1].addr;
    }
  }

  /** ... and strictly below the blocks above that it is not merged with. */
  lemma MergeBelowNext(bs: seq<Block>, b: Block, lo: nat, hi: nat)
    requires Coalesced(bs, lo, hi) && ApartFrom(bs, b) && b.size >= HEADER
    ensures var (p, q, m) := Merge(bs, b); var k := Position(bs, b.addr);
            && (forall i :: q <= i < |bs| ==> m.End() < bs[i].addr)
            && b.End() <= m.End()
            && (q == k ==> m.End() == b.End())
            && (q > k ==> q == k + 1 && m.End() == bs[k].End() && bs[k].addr == b.End())
  {
    hide Position;
    var k := Position(bs, b.addr);
    MergeAbovePrev(bs, b, lo, hi);
    assert forall i :: k <= i < |bs| ==> b.End() <= bs[i].addr;
    if k < |bs| {
      assert forall i :: k < i < |bs| ==> bs[k].End() < bs[i].addr;
    }
  }

  lemma SpliceCoalesced(bs: seq<Block>, p: nat, q: nat, m: Block, lo: nat, hi: nat)
    requires Coalesced(bs, lo, hi) && p <= q <= |bs| && lo <= m.addr && m.End() <= hi && m.size >= HEADER
    requires forall i :: 0 <= i < p ==> bs[i].End() < m.addr
    requires forall i :: q <= i < |bs| ==> m.End() < bs[i].addr
    ensures Coalesced(Splice(bs, p, q, m), lo, hi)
  {
  }

  lemma SpliceBytes(bs: seq<Block>, p: nat, q: nat, m: Block, x: int)
    requires p <= q <= |bs| && forall i :: p <= i < q ==> bs[i].Holds(x) ==> m.Holds(x)
    ensures Free(Splice(bs, p, q, m), x) <==> Free(bs, x) || m.Holds(x)
  {
    assert bs == bs[..p] + bs[p..q] + bs[q..];
    FreeConcat(bs[..p] + bs[p..q], bs[q..], x);
    FreeConcat(bs[..p], bs[p..q], x);
    FreeConcat(bs[..p] + [m], bs[q..], x);
    FreeConcat(bs[..p], [m], x);
    FreeSingle(m, x);
    assert Free(bs[p..q], x) ==> m.Holds(x);
  }

  /** Freeing keeps the list sorted and coalesced. */
  lemma DeallocKeepsCoalesced(bs: seq<Block>, b: Block, lo: nat, hi: nat)
    requires Coalesced(bs, lo, hi) && ApartFrom(bs, b) && lo <= b.addr && b.End() <= hi && b.size >= HEADER
    ensures Coalesced(AfterDealloc(bs, b), lo, hi)
  {
    hide AfterDealloc, Merge, Position;
    var (p, q, m) := Merge(bs, b);
    DeallocSplices(bs, b);
    MergeAbovePrev(bs, b, lo, hi);
    MergeBelowNext(bs, b, lo, hi);
    SpliceCoalesced(bs, p, q, m, lo, hi);
  }

  /** Freeing adds exactly the freed bytes. */
  lemma DeallocAddsBytes(bs: seq<Block>, b: Block, lo: nat, hi: nat, x: int)
    requires Coalesced(bs, lo, hi) && ApartFrom(bs, b) && b.size >= HEADER
    ensures Free(AfterDealloc(bs, b), x) <==> Free(bs, x) || b.Holds(x)
  {
    hide AfterDealloc, Merge, Coalesced, ApartFrom, Position;
    var (p, q, m) := Merge(bs, b);
    DeallocSplices(bs, b);
    MergeAbovePrev(bs, b, lo, hi);
    MergeBelowNext(bs, b, lo, hi);
    SpliceBytes(bs, p, q, m, x);
    if m.Holds(x) && !b.Holds(x) {
      assert if x < b.addr then bs[p].Holds(x) else bs[q - 1].Holds(x);
    }
  }

  lemma DeallocAddsTotal(bs: seq<Block>, b: Block)
    ensures Total(AfterDealloc(bs, b)) == Total(bs) + b.size
  {
    hide Merge, AfterDealloc, Total, Position;
    var k := Position(bs, b.addr);
    var (p, q, m) := Merge(bs, b);
    DeallocSplices(bs, b);
    assert bs == bs[..p] + bs[p..q] + bs[q..];
    TotalConcat(bs[..p] + bs[p..q], bs[q..]);
    TotalConcat(bs[..p], bs[p..q]);
    TotalConcat(bs[..p] + [m], bs[q..]);
    TotalConcat(bs[..p], [m]);
    SingleTotal(m);
    MergedTotal(bs, b);
  }

  lemma MergedTotal(bs: seq<Block>, b: Block)
    ensures var (p, q, m) := Merge(bs, b); m.size == b.size + Total(bs[p..q])
  {
    var k := Position(bs, b.addr);
    var (p, q, m) := Merge(bs, b);
    assert bs[p..q] == bs[p..k] + bs[k..q];
    TotalConcat(bs[p..k], bs[k..q]);
    if p < k {
      assert bs[p..k] == [bs[k - 1]];
      SingleTotal(bs[k - 1]);
    }
    if k < q {
      assert bs[k..q] == [bs[k]];
      SingleTotal(bs[k]);
    }
  }

  lemma SingleTotal(b: Block)
    ensures Total([b]) == b.size
  {
  }

  // ---------------------------------------------------------------------------
  // The list is canonical

  /** A coalesced list is determined by its free bytes: two lists that free the same
      bytes are the same list. */
  lemma {:induction false} CanonicalList(bs: seq<Block>, cs: seq<Block>, lo: nat, hi: nat)
    requires Coalesced(bs, lo, hi) && Coalesced(cs, lo, hi)
    requires forall x: int :: Free(bs, x) <==> Free(cs, x)
    ensures bs == cs
  {
    if bs == [] || cs == [] {
      if bs != [] { assert bs[0].Holds(bs[0].addr); assert Free(bs, bs[0].addr); }
      if cs != [] { assert cs[0].Holds(cs[0].addr); assert Free(cs, cs[0].addr); }
    } else {
      SameFirst(bs, cs, lo, hi);
      SameFirst(cs, bs, lo, hi);
      assert bs[0] == cs[0];
      forall x: int
        ensures Free(bs[1..], x) <==> Free(cs[1..], x)
      {
        FreeTail(bs, lo, hi, x);
        FreeTail(cs, lo, hi, x);
      }
      CanonicalList(bs[1..], cs[1..], lo, hi);
      assert bs == [bs[0]] + bs[1..] && cs == [cs[0]] + cs[1..];
    }
  }

  lemma FreeTail(bs: seq<Block>, lo: nat, hi: nat, x: int)
    requires Coalesced(bs, lo, hi) && bs != []
    ensures Free(bs[1..], x) <==> Free(bs, x) && !bs[0].Holds(x)
  {
    FreeAround(bs, 0, [], x);
    assert bs[..0] + [] + bs[1..] == bs[1..];
    assert !Free(bs[..0], x);
    assert bs[0].Holds(x) ==> !Free(bs[1..], x);
  }

  lemma SameFirst(bs: seq<Block>, cs: seq<Block>, lo: nat, hi: nat)
    requires Coalesced(bs, lo, hi) && Coalesced(cs, lo, hi) && bs != [] && cs != []
    requires forall x: int :: Free(bs, x) <==> Free(cs, x)
    ensures cs[0].addr <= bs[0].addr && bs[0].addr == cs[0].addr ==> bs[0].End() <= cs[0].End()
    ensures cs[0].addr <= bs[0].addr
  {
    assert bs[0].Holds(bs[0].addr);
    assert Free(bs, bs[0].addr);
    assert !Free(cs, cs[0].End());
    assert !Free(bs, cs[0].End());
    assert !bs[0].Holds(cs[0].End());
  }

  // ---------------------------------------------------------------------------
  // Round trip and order

  /** Allocating from block `k` and freeing the result at once. */
  function AllocThenFree(bs: seq<Block>, k: nat, size: nat, align: nat): seq<Block>
    requires align > 0 && k < |bs|
  {
    AfterDealloc(AfterAlloc(bs, k, size, align), Block(AlignUp(bs[k].addr, align), size))
  }

  /** A range is apart from a list exactly when they share no byte. */
  lemma ApartByBytes(bs: seq<Block>, b: Block, lo: nat, hi: nat)
    requires Coalesced(bs, lo, hi) && b.size > 0
    ensures ApartFrom(bs, b) <==> forall x: int :: b.Holds(x) ==> !Free(bs, x)
  {
    if forall x: int :: b.Holds(x) ==> !Free(bs, x) {
      forall i | 0 <= i < |bs|
        ensures bs[i].Apart(b)
      {
        var x := if bs[i].addr <= b.addr then b.addr else bs[i].addr;
        assert b.Holds(x) ==> !Free(bs, x);
        assert !(bs[i].Holds(x) && b.Holds(x));
      }
    }
  }

  /** A fresh allocation lies in the bytes that left the free list. */
  lemma AllocIsApart(bs: seq<Block>, k: nat, size: nat, align: nat, lo: nat, hi: nat)
    requires Coalesced(bs, lo, hi) && align > 0 && size >= HEADER && k < |bs| && Fits(bs[k], size, align)
    ensures var b := Block(AlignUp(bs[k].addr, align), size);
            ApartFrom(AfterAlloc(bs, k, size, align), b) && lo <= b.addr && b.End() <= hi
  {
    var cs, b := AfterAlloc(bs, k, size, align), Block(AlignUp(bs[k].addr, align), size);
    RemainderShape(bs[k], size, align);
    AllocKeepsList(bs, k, size, align, lo, hi);
    hide AfterAlloc, Taken, AlignUp;
    ApartByBytes(cs, b, lo, hi);
  }

  /** Freeing a fresh allocation restores the list exactly when nothing was padded in
      front of it and no small remainder was absorbed behind it. */
  lemma AllocThenFreeRestores(bs: seq<Block>, k: nat, size: nat, align: nat, lo: nat, hi: nat)
    requires Coalesced(bs, lo, hi) && align > 0 && size >= HEADER && k < |bs| && Fits(bs[k], size, align)
    ensures AllocThenFree(bs, k, size, align) == bs <==>
            AlignUp(bs[k].addr, align) == bs[k].addr && (bs[k].size == size || bs[k].size > size + HEADER)
    ensures Total(AllocThenFree(bs, k, size, align)) == Total(bs) - Taken(bs[k], size, align) + size
  {
    var b, taken := bs[k], Taken(bs[k], size, align);
    var a := AlignUp(b.addr, align);
    var mid := AfterAlloc(bs, k, size, align);
    RemainderShape(b, size, align);
    AllocKeepsList(bs, k, size, align, lo, hi);
    AllocIsApart(bs, k, size, align, lo, hi);
    DeallocAddsTotal(mid, Block(a, size));
    assert taken == size ==> a == b.addr;
    if a == b.addr && taken == size {
      DeallocKeepsCoalesced(mid, Block(a, size), lo, hi);
      RestoresBytes(bs, k, mid, taken, lo, hi);
      CanonicalList(AllocThenFree(bs, k, size, align), bs, lo, hi);
    }
  }

  lemma RestoresBytes(bs: seq<Block>, k: nat, mid: seq<Block>, taken: nat, lo: nat, hi: nat)
    requires Coalesced(bs, lo, hi) && Coalesced(mid, lo, hi) && k < |bs| && HEADER <= taken <= bs[k].size
    requires ApartFrom(mid, Block(bs[k].addr, taken))
    requires forall x: int :: Free(mid, x) <==> Free(bs, x) && !(bs[k].addr <= x < bs[k].addr + taken)
    ensures forall x: int :: Free(AfterDealloc(mid, Block(bs[k].addr, taken)), x) <==> Free(bs, x)
  {
    var b := Block(bs[k].addr, taken);
    forall x: int
      ensures Free(AfterDealloc(mid, b), x) <==> Free(bs, x)
    {
      DeallocAddsBytes(mid, b, lo, hi, x);
      assert b.Holds(x) ==> bs[k].Holds(x);
    }
  }

  /** The order in which two allocations are freed does not matter. */
  lemma FreeingCommutes(bs: seq<Block>, b: Block, c: Block, lo: nat, hi: nat)
    requires Coalesced(bs, lo, hi) && ApartFrom(bs, b) && ApartFrom(bs, c) && b.Apart(c)
    requires lo <= b.addr && b.End() <= hi && b.size >= HEADER
    requires lo <= c.addr && c.End() <= hi && c.size >= HEADER
    ensures AfterDealloc(AfterDealloc(bs, b), c) == AfterDealloc(AfterDealloc(bs, c), b)
  {
    hide AfterDealloc;
    FreeTwo(bs, b, c, lo, hi);
    FreeTwo(bs, c, b, lo, hi);
    CanonicalList(AfterDealloc(AfterDealloc(bs, b), c), AfterDealloc(AfterDealloc(bs, c), b), lo, hi);
  }

  lemma FreeTwo(bs: seq<Block>, b: Block, c: Block, lo: nat, hi: nat)
    requires Coalesced(bs, lo, hi) && ApartFrom(bs, b) && ApartFrom(bs, c) && b.Apart(c)
    requires lo <= b.addr && b.End() <= hi && b.size >= HEADER
    requires lo <= c.addr && c.End() <= hi && c.size >= HEADER
    ensures Coalesced(AfterDealloc(AfterDealloc(bs, b), c), lo, hi)
    ensures forall x: int :: Free(AfterDealloc(AfterDealloc(bs, b), c), x) <==> Free(bs, x) || b.Holds(x) || c.Holds(x)
  {
    hide AfterDealloc;
    DeallocKeepsCoalesced(bs, b, lo, hi);
    DeallocKeepsApart(bs, b, c, lo, hi);
    DeallocKeepsCoalesced(AfterDealloc(bs, b), c, lo, hi);
    forall x: int
      ensures Free(AfterDealloc(AfterDealloc(bs, b), c), x) <==> Free(bs, x) || b.Holds(x) || c.Holds(x)
    {
      hide Coalesced, ApartFrom, Free;
      DeallocAddsBytes(bs, b, lo, hi, x);
      DeallocAddsBytes(AfterDealloc(bs, b), c, lo, hi, x);
    }
  }

  lemma DeallocKeepsApart(bs: seq<Block>, b: Block, c: Block, lo: nat, hi: nat)
    requires Coalesced(bs, lo, hi) && ApartFrom(bs, b) && ApartFrom(bs, c) && b.Apart(c)
    requires lo <= b.addr && b.End() <= hi && b.size >= HEADER && c.size > 0
    ensures ApartFrom(AfterDealloc(bs, b), c)
  {
    hide AfterDealloc;
    DeallocKeepsCoalesced(bs, b, lo, hi);
    ApartByBytes(bs, c, lo, hi);
    forall x: int | c.Holds(x)
      ensures !Free(AfterDealloc(bs, b), x)
    {
      DeallocAddsBytes(bs, b, lo, hi, x);
    }
    ApartByBytes(AfterDealloc(bs, b), c, lo, hi);
  }

  // ---------------------------------------------------------------------------
  // Runs

  /** The free list, the live allocations, the `allocated` counter, and the bytes
      that padding and absorbed remainders have taken out of use. */
  datatype State = State(free: seq<Block>, live: seq<Block>, allocatedBytes: int, lost: nat)

  datatype Op = Alloc(size: nat, align: nat) | Dealloc(index: nat)

  /** The size an allocation occupies: at least a header, rounded to the alignment. */
  function Rounded(size: nat, align: nat): nat
    requires align > 0
  {
    AlignUp(if size > HEADER then size else HEADER, align)
  }

  /** `n` bytes hold `size` bytes, or a header, in whole units of the alignment. */
  predicate Suits(n: nat, size: nat, align: nat)
    requires align > 0
  {
    n >= size && n >= 16 && n % align == 0
  }

  /** It is the least such number. */
  lemma RoundedIsLeast(size: nat, align: nat)
    requires align > 0
    ensures Suits(Rounded(size, align), size, align)
    ensures forall n: nat :: Suits(n, size, align) ==> Rounded(size, align) <= n
  {
    var want := if size > HEADER then size else HEADER;
    AlignUpNear(want, align);
    AlignUpAligned(want, align);
    forall n: nat | Suits(n, size, align)
      ensures Rounded(size, align) <= n
    {
      AlignUpLeast(want, align, n);
    }
  }

  /** `n` bytes at the aligned address `a` lie in block `b`. */
  predicate RoomAt(b: Block, a: nat, n: nat, align: nat)
    requires align > 0
  {
    a % align == 0 && b.addr <= a && a + n <= b.End()
  }

  /** A block fits exactly if there is room at some aligned address, and then the first one
      is the rounded start of the block. */
  lemma FitsIff(b: Block, n: nat, align: nat)
    requires align > 0
    ensures Fits(b, n, align) <==> exists a: nat :: RoomAt(b, a, n, align)
    ensures Fits(b, n, align) ==> RoomAt(b, AlignUp(b.addr, align), n, align)
    ensures forall a: nat :: RoomAt(b, a, n, align) ==> AlignUp(b.addr, align) <= a
  {
    AlignUpNear(b.addr, align);
    AlignUpAligned(b.addr, align);
    forall a: nat | RoomAt(b, a, n, align)
      ensures AlignUp(b.addr, align) <= a && Fits(b, n, align)
    {
      AlignUpLeast(b.addr, align, a);
    }
    if Fits(b, n, align) {
      assert RoomAt(b, AlignUp(b.addr, align), n, align);
    }
  }

  /** First fit finds the lowest aligned address with room in the whole list. */
  lemma FirstFitIsLowest(bs: seq<Block>, n: nat, align: nat, lo: nat, hi: nat, i: nat, a: nat)
    requires align > 0 && Coalesced(bs, lo, hi) && i < |bs| && RoomAt(bs[i], a, n, align)
    ensures var k := FirstFit(bs, n, align); k < |bs| && AlignUp(bs[k].addr, align) <= a
  {
    var k := FirstFit(bs, n, align);
    FitsIff(bs[i], n, align);
    if k < i {
      FitsIff(bs[k], n, align);
    }
  }

  /** The same for an allocation: no lower room for its size, and no room for any suitable size
      if it fails. */
  lemma LowestRoom(bs: seq<Block>, size: nat, align: nat, lo: nat, hi: nat)
    requires align > 0 && Coalesced(bs, lo, hi)
    ensures var n := Rounded(size, align);
            var k := FirstFit(bs, n, align);
            && Suits(n, size, align) && (forall s: nat :: Suits(s, size, align) ==> n <= s)
            && (k < |bs| ==> forall i: nat, a: nat :: i < |bs| && RoomAt(bs[i], a, n, align) ==>
                               AlignUp(bs[k].addr, align) <= a)
            && (k == |bs| ==> forall i: nat, a: nat, s: nat :: i < |bs| && Suits(s, size, align) ==>
                                !RoomAt(bs[i], a, s, align))
  {
    var n := Rounded(size, align);
    RoundedIsLeast(size, align);
    hide Rounded, FirstFit, AlignUp, Coalesced, Suits;
    forall i: nat, a: nat | i < |bs| && RoomAt(bs[i], a, n, align)
      ensures FirstFit(bs, n, align) < |bs| && AlignUp(bs[FirstFit(bs, n, align)].addr, align) <= a
    {
      FirstFitIsLowest(bs, n, align, lo, hi, i, a);
    }
    forall i: nat, a: nat, s: nat | i < |bs| && Suits(s, size, align) && RoomAt(bs[i], a, s, align)
      ensures RoomAt(bs[i], a, n, align)
    {
    }
  }

  /** The end of what an allocation of `n` bytes at `a` takes from block `b`: its own end, if
      more than a header is left behind it, and the end of the block if not. */
  function TakenEnd(b: Block, a: nat, n: nat): nat {
    if a + n + 16 < b.End() then a + n else b.End()
  }

  /** An allocation takes the bytes from the start of the block to that end, and no others. */
  lemma AllocTakes(bs: seq<Block>, k: nat, n: nat, align: nat, lo: nat, hi: nat)
    requires Coalesced(bs, lo, hi) && align > 0 && n >= HEADER && k < |bs| && Fits(bs[k], n, align)
    ensures RoomAt(bs[k], AlignUp(bs[k].addr, align), n, align)
    ensures forall x: int :: Free(AfterAlloc(bs, k, n, align), x) <==>
              Free(bs, x) && !(bs[k].addr <= x < TakenEnd(bs[k], AlignUp(bs[k].addr, align), n))
  {
    AllocKeepsList(bs, k, n, align, lo, hi);
    FitsIff(bs[k], n, align);
    AlignUpNear(bs[k].addr, align);
    hide AlignUp, Free, Coalesced, AfterAlloc;
    assert bs[k].addr + Taken(bs[k], n, align) == TakenEnd(bs[k], AlignUp(bs[k].addr, align), n);
  }

  /** The two free lists differ by what an allocation of `n` bytes at `a` takes from one block. */
  ghost predicate TakesSome(before: seq<Block>, after: seq<Block>, a: nat, n: nat) {
    exists b: Block :: b in before && TakesFrom(before, after, b, a, n)
  }

  ghost predicate TakesFrom(before: seq<Block>, after: seq<Block>, b: Block, a: nat, n: nat) {
    && b.addr <= a && a + n <= b.End()
    && forall x: int :: Free(after, x) <==> Free(before, x) && !(b.addr <= x < TakenEnd(b, a, n))
  }

  ghost predicate LiveApart(live: seq<Block>, lo: nat, hi: nat) {
    && (forall i :: 0 <= i < |live| ==> lo <= live[i].addr && live[i].End() <= hi && live[i].size >= HEADER)
    && (forall i, j :: 0 <= i < j < |live| ==> live[i].Apart(live[j]))
  }

  ghost predicate Good(s: State, lo: nat, hi: nat) {
    && Coalesced(s.free, lo, hi)
    && LiveApart(s.live, lo, hi)
    && (forall j :: 0 <= j < |s.live| ==> ApartFrom(s.free, s.live[j]))
    && s.allocatedBytes == Total(s.live)
    && Total(s.free) + s.allocatedBytes + s.lost == hi - lo
  }

  predicate Allowed(s: State, op: Op) {
    match op
    case Alloc(size, align) => align > 0
    case Dealloc(index) => index < |s.live|
  }

  /** One call: alloc_impl with any layout, or dealloc_impl of a live allocation. */
  function Step(s: State, op: Op): State
    requires Allowed(s, op)
  {
    match op
    case Alloc(size, align) =>
      var n := Rounded(size, align);
      var k := FirstFit(s.free, n, align);
      if k == |s.free| then s
      else
        AlignUpNear(if size > HEADER then size else HEADER, align);
        RemainderShape(s.free[k], n, align);
        State(AfterAlloc(s.free, k, n, align), s.live + [Block(AlignUp(s.free[k].addr, align), n)],
              s.allocatedBytes + n, s.lost + Taken(s.free[k], n, align) - n)
    case Dealloc(index) =>
      State(AfterDealloc(s.free, s.live[index]), s.live[..index] + s.live[index + 1..],
            s.allocatedBytes - s.live[index].size, s.lost)
  }

  lemma AllocApartFromLive(bs: seq<Block>, k: nat, n: nat, align: nat, c: Block, lo: nat, hi: nat)
    requires Coalesced(bs, lo, hi) && align > 0 && n >= HEADER && k < |bs| && Fits(bs[k], n, align)
    requires c.size > 0 && ApartFrom(bs, c)
    ensures ApartFrom(AfterAlloc(bs, k, n, align), c) && c.Apart(Block(AlignUp(bs[k].addr, align), n))
  {
    RemainderShape(bs[k], n, align);
    AllocKeepsList(bs, k, n, align, lo, hi);
    hide AfterAlloc, Taken, AlignUp, Fits, Remainder;
    ApartByBytes(bs, c, lo, hi);
    ApartByBytes(AfterAlloc(bs, k, n, align), c, lo, hi);
    assert bs[k].Apart(c);
  }

  lemma AddLive(live: seq<Block>, b: Block, lo: nat, hi: nat)
    requires LiveApart(live, lo, hi) && lo <= b.addr && b.End() <= hi && b.size >= HEADER
    requires forall j :: 0 <= j < |live| ==> live[j].Apart(b)
    ensures LiveApart(live + [b], lo, hi) && Total(live + [b]) == Total(live) + b.size
  {
    TotalConcat(live, [b]);
    SingleTotal(b);
  }

  lemma RemoveLive(live: seq<Block>, index: nat, lo: nat, hi: nat)
    requires LiveApart(live, lo, hi) && index < |live|
    ensures LiveApart(live[..index] + live[index + 1..], lo, hi)
    ensures Total(live[..index] + live[index + 1..]) == Total(live) - live[index].size
  {
    hide Total, LiveApart;
    assert live[..index] + [] + live[index + 1..] == live[..index] + live[index + 1..];
    TotalAround(live, index, []);
    TotalOfOne(live[index]);
    OthersApart(live, index, lo, hi);
  }

  lemma TotalOfOne(b: Block)
    ensures Total([]) == 0 && Total([b]) == b.size
  {
    SingleTotal(b);
  }

  lemma OthersApart(live: seq<Block>, index: nat, lo: nat, hi: nat)
    requires LiveApart(live, lo, hi) && index < |live|
    ensures LiveApart(live[..index] + live[index + 1..], lo, hi)
  {
    var rest := live[..index] + live[index + 1..];
    assert forall i :: 0 <= i < index ==> rest[i] == live[i];
    assert forall i :: index <= i < |rest| ==> rest[i] == live[i + 1];
  }

  /** Every allocation keeps the invariant. */
  lemma AllocKeepsGood(s: State, size: nat, align: nat, lo: nat, hi: nat)
    requires Good(s, lo, hi) && align > 0
    ensures Good(Step(s, Alloc(size, align)), lo, hi)
  {
    var n := Rounded(size, align);
    AlignUpNear(if size > HEADER then size else HEADER, align);
    var k := FirstFit(s.free, n, align);
    if k < |s.free| {
      var b := Block(AlignUp(s.free[k].addr, align), n);
      RemainderShape(s.free[k], n, align);
      AllocKeepsList(s.free, k, n, align, lo, hi);
      AllocIsApart(s.free, k, n, align, lo, hi);
      hide AfterAlloc, Taken, AlignUp, Fits, Remainder, Coalesced, Total, FirstFit, ApartFrom, Free, LiveApart;
      assert forall j :: 0 <= j < |s.live| ==> s.live[j].size >= HEADER by { LiveSizes(s.live, lo, hi); }
      forall j | 0 <= j < |s.live|
        ensures ApartFrom(AfterAlloc(s.free, k, n, align), s.live[j]) && s.live[j].Apart(b)
      {
        AllocApartFromLive(s.free, k, n, align, s.live[j], lo, hi);
      }
      AddLive(s.live, b, lo, hi);
    }
  }

  lemma LiveSizes(live: seq<Block>, lo: nat, hi: nat)
    requires LiveApart(live, lo, hi)
    ensures forall j :: 0 <= j < |live| ==> live[j].size >= HEADER
  {
  }

  /** Every deallocation of a live allocation keeps the invariant. */
  lemma DeallocKeepsGood(s: State, index: nat, lo: nat, hi: nat)
    requires Good(s, lo, hi) && index < |s.live|
    ensures Good(Step(s, Dealloc(index)), lo, hi)
  {
    var b := s.live[index];
    var live := s.live[..index] + s.live[index + 1..];
    RemoveLive(s.live, index, lo, hi);
    DeallocKeepsCoalesced(s.free, b, lo, hi);
    DeallocAddsTotal(s.free, b);
    hide AfterDealloc, Coalesced, Total, ApartFrom, Free;
    forall j | 0 <= j < |live|
      ensures ApartFrom(AfterDealloc(s.free, b), live[j])
    {
      DeallocKeepsApart(s.free, b, live[j], lo, hi);
    }
  }

  /** The heap after init: one block over the whole range. */
  function Initial(lo: nat, hi: nat): State
    requires lo <= hi
  {
    State([Block(lo, hi - lo)], [], 0, 0)
  }

  ghost predicate RunAllowed(s: State, ops: seq<Op>, lo: nat, hi: nat)
    requires Good(s, lo, hi)
    decreases |ops|
  {
    ops == [] ||
    (Allowed(s, ops[0]) && (StepKeepsGood(s, ops[0], lo, hi); RunAllowed(Step(s, ops[0]), ops[1..], lo, hi)))
  }

  ghost function Run(s: State, ops: seq<Op>, lo: nat, hi: nat): State
    requires Good(s, lo, hi) && RunAllowed(s, ops, lo, hi)
    decreases |ops|
  {
    if ops == [] then s
    else
      StepKeepsGood(s, ops[0], lo, hi);
      Run(Step(s, ops[0]), ops[1..], lo, hi)
  }

  lemma StepKeepsGood(s: State, op: Op, lo: nat, hi: nat)
    requires Good(s, lo, hi) && Allowed(s, op)
    ensures Good(Step(s, op), lo, hi)
  {
    match op
    case Alloc(size, align) => AllocKeepsGood(s, size, align, lo, hi);
    case Dealloc(index) => DeallocKeepsGood(s, index, lo, hi);
  }

  /** In every run from init the list stays sorted, in bounds and coalesced, free and
      live ranges stay disjoint, `allocated` is the live total, and free plus
      allocated never exceeds the heap. */
  lemma {:induction false} RunKeepsGood(s: State, ops: seq<Op>, lo: nat, hi: nat)
    requires Good(s, lo, hi) && RunAllowed(s, ops, lo, hi)
    ensures Good(Run(s, ops, lo, hi), lo, hi)
    decreases |ops|
  {
    if ops != [] {
      StepKeepsGood(s, ops[0], lo, hi);
      RunKeepsGood(Step(s, ops[0]), ops[1..], lo, hi);
    }
  }

  lemma InitialIsGood(lo: nat, hi: nat)
    requires lo + HEADER <= hi
    ensures Good(Initial(lo, hi), lo, hi)
  {
    SingleTotal(Block(lo, hi - lo));
  }

  // ---------------------------------------------------------------------------
  // Alignment of the headers

  /** align_of::<FreeBlock>() */
  const HEADER_ALIGN := 8

  /** What a layout promises of its alignment. */
  predicate PowerOfTwo(a: nat) { a == 1 || (a > 1 && a % 2 == 0 && PowerOfTwo(a / 2)) }

  ghost predicate AddressesAligned(bs: seq<Block>) {
    forall i :: 0 <= i < |bs| ==> Aligned(bs[i].addr, HEADER_ALIGN)
  }

  /** Every header lies where a FreeBlock may, now and when a live range is freed. */
  ghost predicate HeadersAligned(s: State) { AddressesAligned(s.free) && AddressesAligned(s.live) }

  lemma SmallOrWide(a: nat)
    requires PowerOfTwo(a)
    ensures a == 1 || a == 2 || a == 4 || a % HEADER_ALIGN == 0
  {
    if a > 1 && a / 2 > 1 {
      assert PowerOfTwo(a / 2 / 2);
    }
  }

  lemma AlignUpKeepsAligned(addr: nat, align: nat)
    requires PowerOfTwo(align) && Aligned(addr, HEADER_ALIGN)
    ensures Aligned(AlignUp(addr, align), HEADER_ALIGN)
  {
    SmallOrWide(align);
    hide PowerOfTwo, AlignUp;
    if align % HEADER_ALIGN == 0 {
      AlignUpWide(addr, align);
    } else {
      AlignUpLeast(addr, align, addr);
      AlignUpNear(addr, align);
    }
  }

  lemma AlignUpWide(addr: nat, align: nat)
    requires align > 0 && align % HEADER_ALIGN == 0
    ensures Aligned(AlignUp(addr, align), HEADER_ALIGN)
  {
    WideMultiple((addr + align - 1) / align, align);
  }

  lemma WideMultiple(q: nat, align: nat)
    requires align % HEADER_ALIGN == 0
    ensures Aligned(q * align, HEADER_ALIGN)
  {
    var w := align / HEADER_ALIGN;
    MultipleMod(q * w, HEADER_ALIGN);
    assert q * align == q * w * HEADER_ALIGN;
  }

  /** An allocation keeps all headers aligned exactly if it fails, leaves no remainder, or its
      rounded size is a multiple of the header's alignment. */
  lemma AllocKeepsAlignedIff(s: State, size: nat, align: nat)
    requires HeadersAligned(s) && PowerOfTwo(align)
    ensures var n := Rounded(size, align);
            var k := FirstFit(s.free, n, align);
            HeadersAligned(Step(s, Alloc(size, align))) <==>
              (k < |s.free| && Remainder(s.free[k], n, align) != [] ==> Aligned(n, HEADER_ALIGN))
  {
    var n := Rounded(size, align);
    var k := FirstFit(s.free, n, align);
    if k < |s.free| {
      var b := s.free[k];
      AlignUpKeepsAligned(b.addr, align);
      RemainderAligned(b, n, align);
      hide AlignUp, FirstFit, Rounded, Aligned, Remainder, Required, Fits, Taken, PowerOfTwo;
      AlignedAround(s.free, k, Remainder(b, n, align));
      assert AddressesAligned(s.live + [Block(AlignUp(b.addr, align), n)]);
    }
  }

  lemma RemainderAligned(b: Block, n: nat, align: nat)
    requires align > 0 && Aligned(AlignUp(b.addr, align), HEADER_ALIGN)
    ensures AddressesAligned(Remainder(b, n, align)) <==> (Remainder(b, n, align) != [] ==> Aligned(n, HEADER_ALIGN))
  {
    hide AlignUp, Required;
    var rest := Remainder(b, n, align);
    if rest != [] {
      SumAligned(AlignUp(b.addr, align), n);
      assert rest == [rest[0]];
    }
  }

  lemma SumAligned(a: nat, n: nat)
    requires Aligned(a, HEADER_ALIGN)
    ensures Aligned(a + n, HEADER_ALIGN) <==> Aligned(n, HEADER_ALIGN)
  {
  }

  lemma AlignedAround(bs: seq<Block>, k: nat, mid: seq<Block>)
    requires AddressesAligned(bs) && k < |bs|
    ensures AddressesAligned(bs[..k] + mid + bs[k + 1..]) <==> AddressesAligned(mid)
  {
    hide Aligned;
    var all := bs[..k] + mid + bs[k + 1..];
    assert forall i :: 0 <= i < |mid| ==> all[k + i] == mid[i];
  }

  /** Freeing always keeps them aligned. */
  lemma DeallocKeepsAligned(s: State, index: nat)
    requires HeadersAligned(s) && index < |s.live|
    ensures HeadersAligned(Step(s, Dealloc(index)))
  {
    var b := s.live[index];
    var (p, q, m) := Merge(s.free, b);
    DeallocSplices(s.free, b);
    hide Aligned, AfterDealloc, Position;
    assert Aligned(b.addr, HEADER_ALIGN);
    assert m.addr == b.addr || exists i :: 0 <= i < |s.free| && m.addr == s.free[i].addr;
    hide Merge;
    assert AddressesAligned(Splice(s.free, p, q, m));
    assert AddressesAligned(s.live[..index] + s.live[index + 1..]);
  }

  /** Every allocation of the run has a rounded size that is a multiple of the header's
      alignment. */
  ghost predicate WordSized(ops: seq<Op>) {
    forall i :: 0 <= i < |ops| && ops[i].Alloc? ==>
      PowerOfTwo(ops[i].align) && Aligned(Rounded(ops[i].size, ops[i].align), HEADER_ALIGN)
  }

  /** In every run of such calls all headers stay aligned. */
  lemma {:induction false} RunKeepsAligned(s: State, ops: seq<Op>, lo: nat, hi: nat)
    requires Good(s, lo, hi) && RunAllowed(s, ops, lo, hi) && HeadersAligned(s) && WordSized(ops)
    ensures HeadersAligned(Run(s, ops, lo, hi))
    decreases |ops|
  {
    if ops != [] {
      StepKeepsGood(s, ops[0], lo, hi);
      StepKeepsAligned(s, ops[0]);
      hide HeadersAligned, Rounded, Good, Step, PowerOfTwo, Aligned;
      RunKeepsAligned(Step(s, ops[0]), ops[1..], lo, hi);
    }
  }

  lemma StepKeepsAligned(s: State, op: Op)
    requires Allowed(s, op) && HeadersAligned(s)
    requires op.Alloc? ==> PowerOfTwo(op.align) && Aligned(Rounded(op.size, op.align), HEADER_ALIGN)
    ensures HeadersAligned(Step(s, op))
  {
    match op
    case Alloc(size, align) => AllocKeepsAlignedIff(s, size, align);
    case Dealloc(index) => DeallocKeepsAligned(s, index);
  }

  /** A 17-byte request of alignment 1 leaves a header at an odd address. */
  lemma OddHeader()
    ensures var s := Initial(0x1000, 0x2000);
            HeadersAligned(s) && Step(s, Alloc(17, 1)).free == [Block(0x1011, 0xFEF)]
    ensures !HeadersAligned(Step(Initial(0x1000, 0x2000), Alloc(17, 1)))
  {
    var b := Block(0x1000, 0x1000);
    assert Rounded(17, 1) == 17 && Required(b, 17, 1) == 17;
    assert FirstFit([b], 17, 1) == 0;
    var s := Step(Initial(0x1000, 0x2000), Alloc(17, 1));
    assert s.free[0].addr == 0x1011;
  }

  // ---------------------------------------------------------------------------
  // The list in memory

  /** The header a free block starts with; `next` is 0 for None. */
  datatype Header = Header(size: nat, next: nat)

  function AddrAt(bs: seq<Block>, i: nat): nat {
    if i < |bs| then bs[i].addr else 0
  }

  /** The headers in `mem`, followed from `head`, spell the list. */
  ghost predicate Linked(mem: map<nat, Header>, head: nat, bs: seq<Block>) {
    && head == AddrAt(bs, 0)
    && forall i :: 0 <= i < |bs| ==> bs[i].addr in mem && mem[bs[i].addr] == Header(bs[i].size, AddrAt(bs, i + 1))
  }

  /** Store a header at `a`; whatever overlapped its 16 bytes is gone. */
  function Write(mem: map<nat, Header>, a: nat, h: Header): (m: map<nat, Header>)
    ensures a in m && m[a] == h
    ensures forall k :: k in mem && (k + HEADER <= a || a + HEADER <= k) ==> k in m && m[k] == mem[k]
  {
    (map k | k in mem && (k + HEADER <= a || a + HEADER <= k) :: mem[k])[a := h]
  }

  /** Everything outside p..q keeps its header, except that what precedes index `p`
      now points to `at`. */
  ghost predicate Redirected(mem: map<nat, Header>, head: nat, bs: seq<Block>, p: nat, q: nat,
                             mem': map<nat, Header>, head': nat, at: nat)
    requires p <= q <= |bs|
  {
    && (forall i :: 0 <= i < |bs| && (i + 1 < p || q <= i) ==>
          bs[i].addr in mem && bs[i].addr in mem' && mem'[bs[i].addr] == mem[bs[i].addr])
    && (p == 0 ==> head' == at)
    && (p > 0 ==> head' == head && bs[p - 1].addr in mem' && mem'[bs[p - 1].addr] == Header(bs[p - 1].size, at))
  }

  /** Removing blocks p..q. */
  lemma Unlink(mem: map<nat, Header>, head: nat, bs: seq<Block>, p: nat, q: nat, mem': map<nat, Header>, head': nat)
    requires Linked(mem, head, bs) && p <= q <= |bs|
    requires Redirected(mem, head, bs, p, q, mem', head', AddrAt(bs, q))
    ensures Linked(mem', head', bs[..p] + bs[q..])
  {
    var cs := bs[..p] + bs[q..];
    assert AddrAt(cs, p) == AddrAt(bs, q);
    forall i | 0 <= i < |cs|
      ensures cs[i].addr in mem' && mem'[cs[i].addr] == Header(cs[i].size, AddrAt(cs, i + 1))
    {
      if i < p {
        assert cs[i] == bs[i];
      } else {
        assert cs[i] == bs[i - p + q] && AddrAt(cs, i + 1) == AddrAt(bs, i - p + q + 1);
      }
    }
  }

  /** Replacing blocks p..q by `m`. */
  lemma Relink(mem: map<nat, Header>, head: nat, bs: seq<Block>, p: nat, q: nat, m: Block,
               mem': map<nat, Header>, head': nat)
    requires Linked(mem, head, bs) && p <= q <= |bs|
    requires Redirected(mem, head, bs, p, q, mem', head', m.addr)
    requires m.addr in mem' && mem'[m.addr] == Header(m.size, AddrAt(bs, q))
    ensures Linked(mem', head', Splice(bs, p, q, m))
  {
    var cs := Splice(bs, p, q, m);
    assert cs[p] == m && AddrAt(cs, p + 1) == AddrAt(bs, q);
    forall i | 0 <= i < |cs|
      ensures cs[i].addr in mem' && mem'[cs[i].addr] == Header(cs[i].size, AddrAt(cs, i + 1))
    {
      if i < p {
        assert cs[i] == bs[i];
      } else if i > p {
        var j := i - p - 1 + q;
        assert cs[i] == bs[j] && AddrAt(cs, i + 1) == AddrAt(bs, j + 1);
      }
    }
  }

  /** Headers of free blocks, and of a range apart from them, do not overlap. */
  lemma Spacing(bs: seq<Block>, lo: nat, hi: nat, b: Block)
    requires Coalesced(bs, lo, hi) && ApartFrom(bs, b) && b.size >= HEADER
    ensures forall i :: 0 <= i < |bs| ==> bs[i].addr >= lo
    ensures forall i :: 0 <= i < |bs| ==> bs[i].addr + HEADER <= b.addr || b.addr + HEADER <= bs[i].addr
    ensures forall i, j :: 0 <= i < j < |bs| ==> bs[i].addr + HEADER <= bs[j].addr
  {
  }

  lemma LinkedHead(mem: map<nat, Header>, head: nat, bs: seq<Block>)
    requires Linked(mem, head, bs)
    ensures head == AddrAt(bs, 0)
  {
  }

  lemma NoNullBlock(bs: seq<Block>, lo: nat, hi: nat)
    requires Coalesced(bs, lo, hi) && 0 < lo
    ensures forall i :: 0 <= i < |bs| ==> bs[i].addr > 0
  {
  }

  /** What the list code reads around index `k`. */
  lemma LinkedReads(mem: map<nat, Header>, head: nat, bs: seq<Block>, k: nat)
    requires Linked(mem, head, bs) && k <= |bs|
    ensures k < |bs| ==> bs[k].addr in mem && mem[bs[k].addr] == Header(bs[k].size, AddrAt(bs, k + 1))
    ensures k > 0 ==> bs[k - 1].addr in mem && mem[bs[k - 1].addr] == Header(bs[k - 1].size, AddrAt(bs, k))
  {
  }

  /** The first store of dealloc_impl: the freed range becomes a block that is merged
      with the next one. */
  function FreedMemory(mem: map<nat, Header>, bs: seq<Block>, b: Block): map<nat, Header> {
    var k := Position(bs, b.addr);
    if k < |bs| && bs[k].addr == b.End() then Write(mem, b.addr, Header(b.size + bs[k].size, AddrAt(bs, k + 1)))
    else Write(mem, b.addr, Header(b.size, AddrAt(bs, k)))
  }

  ghost predicate Freed(mem: map<nat, Header>, bs: seq<Block>, b: Block, mem1: map<nat, Header>) {
    && (forall i :: 0 <= i < |bs| ==> bs[i].addr in mem && bs[i].addr in mem1 && mem1[bs[i].addr] == mem[bs[i].addr])
    && b.addr in mem1
    && var k := Position(bs, b.addr);
       var (p, q, m) := Merge(bs, b);
       mem1[b.addr] == Header(b.size + (if q > k then bs[k].size else 0), AddrAt(bs, q))
  }

  lemma FreedHeader(mem: map<nat, Header>, head: nat, bs: seq<Block>, lo: nat, hi: nat, b: Block,
                    mem1: map<nat, Header>)
    requires Linked(mem, head, bs) && Coalesced(bs, lo, hi) && ApartFrom(bs, b) && b.size >= HEADER
    requires mem1 == FreedMemory(mem, bs, b)
    ensures Freed(mem, bs, b, mem1)
  {
    hide Position, Write;
    Spacing(bs, lo, hi, b);
  }

  /** The second store: merge the freed block into its predecessor, or link it behind
      the predecessor, or make it the head. */
  function LinkedMemory(mem1: map<nat, Header>, bs: seq<Block>, b: Block): map<nat, Header>
    requires b.addr in mem1
  {
    var k := Position(bs, b.addr);
    if k == 0 then mem1
    else if bs[k - 1].End() == b.addr
    then Write(mem1, bs[k - 1].addr, Header(bs[k - 1].size + mem1[b.addr].size, mem1[b.addr].next))
    else Write(mem1, bs[k - 1].addr, Header(bs[k - 1].size, b.addr))
  }

  function LinkedFirst(head: nat, bs: seq<Block>, b: Block): nat {
    if Position(bs, b.addr) == 0 then b.addr else head
  }

  lemma FreedMerged(mem: map<nat, Header>, head: nat, bs: seq<Block>, lo: nat, hi: nat, b: Block,
                    mem1: map<nat, Header>)
    requires Linked(mem, head, bs) && Coalesced(bs, lo, hi) && ApartFrom(bs, b) && b.size >= HEADER
    requires Freed(mem, bs, b, mem1) && Position(bs, b.addr) > 0 && bs[Position(bs, b.addr) - 1].End() == b.addr
    ensures var (p, q, m) := Merge(bs, b); var mem2 := LinkedMemory(mem1, bs, b);
            && m.addr in mem2 && mem2[m.addr] == Header(m.size, AddrAt(bs, q))
            && Redirected(mem, head, bs, p, q, mem2, head, m.addr)
  {
    hide Position, Write, Coalesced, ApartFrom;
    Spacing(bs, lo, hi, b);
  }

  lemma FreedInserted(mem: map<nat, Header>, head: nat, bs: seq<Block>, lo: nat, hi: nat, b: Block,
                      mem1: map<nat, Header>)
    requires Linked(mem, head, bs) && Coalesced(bs, lo, hi) && ApartFrom(bs, b) && b.size >= HEADER
    requires Freed(mem, bs, b, mem1)
    requires Position(bs, b.addr) > 0 ==> bs[Position(bs, b.addr) - 1].End() != b.addr
    ensures var (p, q, m) := Merge(bs, b); var mem2 := LinkedMemory(mem1, bs, b);
            && m.addr in mem2 && mem2[m.addr] == Header(m.size, AddrAt(bs, q))
            && Redirected(mem, head, bs, p, q, mem2, LinkedFirst(head, bs, b), m.addr)
  {
    hide Position, Write, AddrAt, Linked, Coalesced, ApartFrom;
    Spacing(bs, lo, hi, b);
    var k := Position(bs, b.addr);
    assert k > 0 ==> bs[k - 1].addr + HEADER <= b.addr;
  }

  lemma FirstStays(head: nat, bs: seq<Block>, b: Block)
    requires Position(bs, b.addr) > 0
    ensures LinkedFirst(head, bs, b) == head
  {
  }

  /** After both stores the memory holds the freed list. */
  lemma FreedLinked(mem: map<nat, Header>, head: nat, bs: seq<Block>, lo: nat, hi: nat, b: Block,
                    mem1: map<nat, Header>)
    requires Linked(mem, head, bs) && Coalesced(bs, lo, hi) && ApartFrom(bs, b) && b.size >= HEADER
    requires Freed(mem, bs, b, mem1)
    ensures Linked(LinkedMemory(mem1, bs, b), LinkedFirst(head, bs, b), AfterDealloc(bs, b))
  {
    hide Merge, Linked, Coalesced, ApartFrom, Redirected, AfterDealloc, LinkedMemory, LinkedFirst, Position, Freed;
    var (p, q, m) := Merge(bs, b);
    assert b.addr in mem1 by { FreedReads(mem, bs, b, mem1, 0); }
    if Position(bs, b.addr) > 0 && bs[Position(bs, b.addr) - 1].End() == b.addr {
      FreedMerged(mem, head, bs, lo, hi, b, mem1);
      FirstStays(head, bs, b);
    } else {
      FreedInserted(mem, head, bs, lo, hi, b, mem1);
    }
    DeallocSplices(bs, b);
    Relink(mem, head, bs, p, q, m, LinkedMemory(mem1, bs, b), LinkedFirst(head, bs, b));
  }

  /** Storing the remainder's header inside block `k` touches no other header. */
  lemma RemainderWritten(mem: map<nat, Header>, head: nat, bs: seq<Block>, lo: nat, hi: nat, k: nat, n: nat, align: nat,
                         mem1: map<nat, Header>)
    requires Linked(mem, head, bs) && Coalesced(bs, lo, hi)
    requires align > 0 && n >= HEADER && k < |bs| && Fits(bs[k], n, align) && Remainder(bs[k], n, align) != []
    requires var r := Remainder(bs[k], n, align)[0]; mem1 == Write(mem, r.addr, Header(r.size, AddrAt(bs, k + 1)))
    ensures forall i :: 0 <= i < |bs| && i != k ==> bs[i].addr in mem1 && mem1[bs[i].addr] == mem[bs[i].addr]
  {
    RemainderShape(bs[k], n, align);
    hide AlignUp, Remainder, Write;
  }

  lemma TakenLinked(mem: map<nat, Header>, head: nat, bs: seq<Block>, lo: nat, hi: nat, k: nat, n: nat, align: nat,
                    mem1: map<nat, Header>, mem2: map<nat, Header>, head2: nat, follow: nat)
    requires Linked(mem, head, bs) && Coalesced(bs, lo, hi)
    requires align > 0 && n >= HEADER && k < |bs| && Fits(bs[k], n, align)
    requires var r := Remainder(bs[k], n, align);
             if r == [] then mem1 == mem && follow == AddrAt(bs, k + 1)
             else mem1 == Write(mem, r[0].addr, Header(r[0].size, AddrAt(bs, k + 1))) && follow == r[0].addr
    requires k == 0 ==> mem2 == mem1 && head2 == follow
    requires k > 0 ==> head2 == head && mem2 == Write(mem1, bs[k - 1].addr, Header(bs[k - 1].size, follow))
    ensures Linked(mem2, head2, AfterAlloc(bs, k, n, align))
  {
    var r := Remainder(bs[k], n, align);
    RemainderShape(bs[k], n, align);
    hide AlignUp, Remainder, Write, Required, Taken, Coalesced, Linked, Redirected, Fits;
    if r == [] {
      assert bs[..k] + r + bs[k + 1..] == bs[..k] + bs[k + 1..];
      PreviousRedirected(mem, head, bs, lo, hi, k, mem1, mem2, head2, follow);
      Unlink(mem, head, bs, k, k + 1, mem2, head2);
    } else {
      RemainderWritten(mem, head, bs, lo, hi, k, n, align, mem1);
      assert bs[..k] + r + bs[k + 1..] == Splice(bs, k, k + 1, r[0]);
      PreviousRedirected(mem, head, bs, lo, hi, k, mem1, mem2, head2, follow);
      RemainderStays(bs, lo, hi, k, mem1, mem2, head2, r[0], follow);
      Relink(mem, head, bs, k, k + 1, r[0], mem2, head2);
    }
  }

  /** The store into the header before block `k` redirects the list around it. */
  lemma PreviousRedirected(mem: map<nat, Header>, head: nat, bs: seq<Block>, lo: nat, hi: nat, k: nat,
                           mem1: map<nat, Header>, mem2: map<nat, Header>, head2: nat, follow: nat)
    requires Linked(mem, head, bs) && Coalesced(bs, lo, hi) && k < |bs|
    requires mem1 == mem || forall i :: 0 <= i < |bs| && i != k ==>
                              bs[i].addr in mem1 && mem1[bs[i].addr] == mem[bs[i].addr]
    requires k == 0 ==> mem2 == mem1 && head2 == follow
    requires k > 0 ==> head2 == head && mem2 == Write(mem1, bs[k - 1].addr, Header(bs[k - 1].size, follow))
    ensures Redirected(mem, head, bs, k, k + 1, mem2, head2, follow)
  {
    hide Write, AddrAt;
    forall i | 0 <= i < |bs| && (i + 1 < k || k + 1 <= i)
      ensures bs[i].addr in mem2 && mem2[bs[i].addr] == mem[bs[i].addr]
    {
      assert bs[i].addr in mem1 && mem1[bs[i].addr] == mem[bs[i].addr];
    }
  }

  /** That store does not reach the remainder's header. */
  lemma RemainderStays(bs: seq<Block>, lo: nat, hi: nat, k: nat, mem1: map<nat, Header>, mem2: map<nat, Header>,
                       head2: nat, r: Block, follow: nat)
    requires Coalesced(bs, lo, hi) && k < |bs| && bs[k].addr <= r.addr && r.addr in mem1
    requires k == 0 ==> mem2 == mem1
    requires k > 0 ==> mem2 == Write(mem1, bs[k - 1].addr, Header(bs[k - 1].size, follow))
    ensures r.addr in mem2 && mem2[r.addr] == mem1[r.addr]
  {
    hide Write;
  }

  lemma FreedReads(mem: map<nat, Header>, bs: seq<Block>, b: Block, mem1: map<nat, Header>, k: nat)
    requires Freed(mem, bs, b, mem1) && k <= |bs|
    ensures b.addr in mem1
    ensures k > 0 ==> bs[k - 1].addr in mem && bs[k - 1].addr in mem1 && mem1[bs[k - 1].addr] == mem[bs[k - 1].addr]
  {
  }

  class LinkedListAllocator {
    var mem: map<nat, Header>
    var freeList: nat
    const heapStart: nat
    const heapEnd: nat
    var allocatedBytes: int
    ghost var free: seq<Block>
    ghost var live: seq<Block>
    ghost var lost: nat

    ghost function Abstract(): State
      reads this
    {
      State(free, live, allocatedBytes, lost)
    }

    ghost predicate Valid()
      reads this
    {
      0 < heapStart && Good(Abstract(), heapStart, heapEnd) && Linked(mem, freeList, free)
    }

    /** init: one block over the whole heap. */
    constructor (heapStart: nat, heapEnd: nat)
      requires 0 < heapStart && heapStart + HEADER <= heapEnd
      ensures Valid() && Abstract() == Initial(heapStart, heapEnd)
      ensures this.heapStart == heapStart && this.heapEnd == heapEnd
    {
      this.heapStart := heapStart;
      this.heapEnd := heapEnd;
      mem := map[heapStart := Header(heapEnd - heapStart, 0)];
      freeList := heapStart;
      allocatedBytes := 0;
      free, live, lost := [Block(heapStart, heapEnd - heapStart)], [], 0;
      InitialIsGood(heapStart, heapEnd);
    }

    /** The block at index `k` is unlinked, or replaced by its remainder. */
    method TakeBlock(current: nat, prev: nat, n: nat, align: nat, ghost k: nat)
      requires Linked(mem, freeList, free) && Coalesced(free, heapStart, heapEnd) && 0 < heapStart
      requires align > 0 && n >= HEADER && k < |free| && Fits(free[k], n, align)
      requires current == free[k].addr && prev == if k == 0 then 0 else free[k - 1].addr
      modifies this`mem, this`freeList, this`free
      ensures free == old(AfterAlloc(free, k, n, align)) && Linked(mem, freeList, free)
    {
      hide AlignUp, Linked, Write, AfterAlloc, Coalesced;
      LinkedReads(mem, freeList, free, k);
      NoNullBlock(free, heapStart, heapEnd);
      var node := mem[current];
      var aligned := AlignUp(current, align);
      AlignUpNear(current, align);
      var required := aligned - current + n;
      var follow := node.next;
      if node.size > required + HEADER {
        follow := aligned + n;
        mem := Write(mem, follow, Header(node.size - required, node.next));
        RemainderWritten(old(mem), freeList, free, heapStart, heapEnd, k, n, align, mem);
      }
      ghost var mid := mem;
      if prev != 0 {
        mem := Write(mem, prev, mem[prev].(next := follow));
      } else {
        freeList := follow;
      }
      TakenLinked(old(mem), old(freeList), free, heapStart, heapEnd, k, n, align, mid, mem, freeList, follow);
      free := AfterAlloc(free, k, n, align);
    }

    /** The search loop of alloc_impl: the first block that fits and its predecessor. */
    method Search(n: nat, align: nat) returns (current: nat, prev: nat, ghost k: nat)
      requires Linked(mem, freeList, free) && Coalesced(free, heapStart, heapEnd) && 0 < heapStart && align > 0
      ensures k == FirstFit(free, n, align)
      ensures current == AddrAt(free, k) && prev == if k == 0 then 0 else free[k - 1].addr
      ensures current == 0 <==> k == |free|
    {
      hide AlignUp, FirstFit, Linked, Coalesced;
      LinkedHead(mem, freeList, free);
      NoNullBlock(free, heapStart, heapEnd);
      current, prev := freeList, 0;
      k := 0;
      while current != 0
        invariant 0 <= k <= |free| && current == AddrAt(free, k)
        invariant prev == if k == 0 then 0 else free[k - 1].addr
        invariant forall j :: 0 <= j < k ==> !Fits(free[j], n, align)
        decreases |free| - k
      {
        LinkedReads(mem, freeList, free, k);
        var node := mem[current];
        AlignUpNear(current, align);
        var padding := AlignUp(current, align) - current;
        if node.size >= padding + n {
          return;
        }
        prev, current := current, node.next;
        k := k + 1;
      }
    }

    /** alloc_impl: first fit. Null exactly when no free block fits. */
    method AllocImpl(size: nat, align: nat) returns (ptr: Option<nat>)
      requires Valid() && align > 0
      modifies this
      ensures Valid() && Abstract() == old(Step(Abstract(), Alloc(size, align)))
      ensures ptr.None? <==> forall i :: 0 <= i < |old(free)| ==> !Fits(old(free)[i], Rounded(size, align), align)
      ensures ptr.Some? ==> Aligned(ptr.value, align) && live == old(live) + [Block(ptr.value, Rounded(size, align))]
      ensures ptr.Some? ==> live != [] && var b := live[|live| - 1];
                && b.addr == ptr.value && Suits(b.size, size, align)
                && (forall n: nat :: Suits(n, size, align) ==> b.size <= n)
                && forall i: nat, a: nat :: i < |old(free)| && RoomAt(old(free)[i], a, b.size, align) ==> ptr.value <= a
      ensures ptr.Some? ==> TakesSome(old(free), free, ptr.value, live[|live| - 1].size)
      ensures ptr.None? ==> forall i: nat, a: nat, n: nat :: i < |old(free)| && Suits(n, size, align) ==>
                              !RoomAt(old(free)[i], a, n, align)
    {
      hide AlignUp, Aligned, LiveApart, Total, AfterAlloc, ApartFrom, Taken, Remainder, FirstFit, Coalesced;
      hide Linked, Fits;
      var n := Rounded(size, align);
      AlignUpNear(if size > HEADER then size else HEADER, align);
      AllocKeepsGood(Abstract(), size, align, heapStart, heapEnd);
      LowestRoom(free, size, align, heapStart, heapEnd);
      hide Rounded, Suits, RoomAt;
      ghost var k;
      var current, prev;
      current, prev, k := Search(n, align);
      if current == 0 {
        return None;
      }
      RemainderShape(free[k], n, align);
      AllocTakes(free, k, n, align, heapStart, heapEnd);
      assert TakesFrom(free, AfterAlloc(free, k, n, align), free[k], AlignUp(current, align), n);
      assert TakesSome(free, AfterAlloc(free, k, n, align), AlignUp(current, align), n);
      hide TakesSome, TakesFrom, Free;
      live := live + [Block(AlignUp(current, align), n)];
      lost := lost + Taken(free[k], n, align) - n;
      TakeBlock(current, prev, n, align, k);
      allocatedBytes := allocatedBytes + n;
      AlignUpAligned(current, align);
      return Some(AlignUp(current, align));
    }

    /** The freed range is linked in before index `k`, merged on either side. */
    method LinkIn(b: Block, current: nat, prev: nat, ghost k: nat)
      requires Linked(mem, freeList, free) && Coalesced(free, heapStart, heapEnd) && 0 < heapStart
      requires ApartFrom(free, b) && b.size >= HEADER && k == Position(free, b.addr)
      requires current == AddrAt(free, k) && prev == if k == 0 then 0 else free[k - 1].addr
      modifies this`mem, this`freeList, this`free
      ensures free == old(AfterDealloc(free, b)) && Linked(mem, freeList, free)
    {
      hide Position, Write, AfterDealloc, Linked, Merge, Coalesced, ApartFrom, Freed;
      LinkedReads(mem, freeList, free, k);
      Spacing(free, heapStart, heapEnd, b);
      if current != 0 && current == b.End() {
        mem := Write(mem, b.addr, Header(b.size + mem[current].size, mem[current].next));
      } else {
        mem := Write(mem, b.addr, Header(b.size, current));
      }
      ghost var freed := mem;
      FreedHeader(old(mem), freeList, free, heapStart, heapEnd, b, freed);
      FreedLinked(old(mem), freeList, free, heapStart, heapEnd, b, freed);
      assert b.addr in freed && (k > 0 ==> prev in freed && freed[prev] == old(mem)[prev]) by {
        FreedReads(old(mem), free, b, freed, k);
      }
      if prev != 0 {
        if prev + mem[prev].size == b.addr {
          mem := Write(mem, prev, Header(mem[prev].size + mem[b.addr].size, mem[b.addr].next));
        } else {
          mem := Write(mem, prev, mem[prev].(next := b.addr));
        }
      } else {
        freeList := b.addr;
      }
      free := AfterDealloc(free, b);
    }

    /** The search loop of dealloc_impl: the first block above `ptr` and its predecessor. */
    method SearchAbove(ptr: nat) returns (current: nat, prev: nat, ghost k: nat)
      requires Linked(mem, freeList, free) && Coalesced(free, heapStart, heapEnd) && 0 < heapStart
      ensures k == Position(free, ptr)
      ensures current == AddrAt(free, k) && prev == if k == 0 then 0 else free[k - 1].addr
    {
      hide Position, Linked, Coalesced;
      LinkedHead(mem, freeList, free);
      NoNullBlock(free, heapStart, heapEnd);
      current, prev := freeList, 0;
      k := 0;
      while current != 0
        invariant 0 <= k <= |free| && current == AddrAt(free, k)
        invariant prev == if k == 0 then 0 else free[k - 1].addr
        invariant forall j :: 0 <= j < k ==> free[j].addr <= ptr
        decreases |free| - k
      {
        if current > ptr {
          break;
        }
        LinkedReads(mem, freeList, free, k);
        prev, current := current, mem[current].next;
        k := k + 1;
      }
    }

    /** dealloc_impl of a live allocation with its own layout. */
    method DeallocImpl(ptr: nat, size: nat, align: nat, ghost index: nat)
      requires Valid() && align > 0 && index < |live| && live[index] == Block(ptr, Rounded(size, align))
      modifies this
      ensures Valid() && Abstract() == old(Step(Abstract(), Dealloc(index)))
    {
      hide AlignUp, Total, AfterDealloc, Position, LiveApart, Coalesced, Linked, ApartFrom;
      var n := Rounded(size, align);
      LiveSizes(live, heapStart, heapEnd);
      DeallocKeepsGood(Abstract(), index, heapStart, heapEnd);
      ghost var k;
      var current, prev;
      current, prev, k := SearchAbove(ptr);
      LinkIn(Block(ptr, n), current, prev, k);
      live := live[..index] + live[index + 1..];
      allocatedBytes := allocatedBytes - n;
    }

    /** A client may store anything anywhere inside its own allocation: of the memory it is
        only known that headers outside that allocation read as before. The list survives. */
    method ClientStore(memory: map<nat, Header>, ghost index: nat)
      requires Valid() && index < |live|
      requires forall k :: k in mem && (k + HEADER <= live[index].addr || live[index].End() <= k) ==>
                 k in memory && memory[k] == mem[k]
      modifies this`mem
      ensures Valid() && Abstract() == old(Abstract()) && mem == memory
    {
      assert ApartFrom(free, live[index]);
      mem := memory;
    }
  }
}
