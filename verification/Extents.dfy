/** The inline extents of a PsychicFS inode (kernel/src/fs/psychicfs.rs). */
module Extents {
  import opened Common

  const INLINE_EXTENTS := 4
  const U16 := 0x1_0000
  const U32 := 0x1_0000_0000

  /** A run of blocks: `count` is 0 for an unused slot. */
  datatype Extent = Extent(logical: nat, physical: nat, count: nat) {
    /** The u16 sum wraps at 65536. */
    predicate Contains(l: nat) { count != 0 && logical <= l < (logical + count) % U16 }

    function Translate(l: nat): Option<nat> {
      if Contains(l) then Some((physical + (l - logical)) % U32) else None
    }

    function Blocks(): seq<nat> { Range(physical, count) }
  }

  const EMPTY := Extent(0, 0, 0)

  function Range(p: nat, n: nat): (r: seq<nat>)
    ensures |r| == n && forall i :: 0 <= i < n ==> r[i] == p + i
  {
    seq(n, i => p + i)
  }

  // ---------------------------------------------------------------------------
  // The extent map

  /** The physical blocks of a file in logical order. */
  function AllBlocks(es: seq<Extent>): seq<nat> {
    if es == [] then [] else AllBlocks(es[..|es| - 1]) + es[|es| - 1].Blocks()
  }

  /** The first `n` slots tile the logical blocks from 0 and the rest are empty. */
  ghost predicate Tiled(es: seq<Extent>, n: nat) {
    && |es| == INLINE_EXTENTS && n <= INLINE_EXTENTS
    && (forall i :: 0 <= i < n ==> es[i].count > 0 && es[i].logical == |AllBlocks(es[..i])|)
    && (forall i :: n <= i < INLINE_EXTENTS ==> es[i].count == 0)
    && (forall i :: 0 <= i < n ==> es[i].physical + es[i].count < U32)
    && |AllBlocks(es[..n])| < U16
  }

  lemma AllBlocksStep(es: seq<Extent>, i: nat)
    requires i < |es|
    ensures AllBlocks(es[..i + 1]) == AllBlocks(es[..i]) + es[i].Blocks()
  {
    assert es[..i + 1][..i] == es[..i];
  }

  lemma {:induction false} AllBlocksPrefix(es: seq<Extent>, i: nat, n: nat)
    requires i <= n <= |es|
    ensures |AllBlocks(es[..i])| <= |AllBlocks(es[..n])|
    ensures AllBlocks(es[..n])[..|AllBlocks(es[..i])|] == AllBlocks(es[..i])
    decreases n
  {
    if i < n {
      AllBlocksPrefix(es, i, n - 1);
      AllBlocksStep(es, n - 1);
    }
  }

  /** The first extent that translates a logical block, as get_physical_block searches. */
  function Lookup(es: seq<Extent>, l: nat): Option<nat> {
    if es == [] then None
    else if es[0].Translate(l).Some? then es[0].Translate(l)
    else Lookup(es[1..], l)
  }

  lemma {:induction false} LookupSkips(es: seq<Extent>, l: nat, k: nat)
    requires k <= |es| && forall i :: 0 <= i < k ==> es[i].Translate(l) == None
    ensures Lookup(es, l) == Lookup(es[k..], l)
    decreases k
  {
    if k > 0 {
      LookupSkips(es[1..], l, k - 1);
      assert es[1..][k - 1..] == es[k..];
    } else {
      assert es[0..] == es;
    }
  }

  /** Tiling means that an extent covers exactly its own stretch of logical blocks. */
  lemma TileCovers(es: seq<Extent>, n: nat, i: nat, l: nat)
    requires Tiled(es, n) && i < n
    ensures es[i].Contains(l) <==> |AllBlocks(es[..i])| <= l < |AllBlocks(es[..i + 1])|
    ensures es[i].Contains(l) ==> l < |AllBlocks(es[..n])| && es[i].Translate(l) == Some(AllBlocks(es[..n])[l])
  {
    hide AllBlocks;
    AllBlocksStep(es, i);
    AllBlocksPrefix(es, i + 1, n);
    if es[i].Contains(l) {
      var whole, part := AllBlocks(es[..n]), AllBlocks(es[..i + 1]);
      assert whole[l] == whole[..|part|][l];
      assert part[l] == es[i].Blocks()[l - es[i].logical];
    }
  }

  /** get_physical_block indexes the concatenation of the runs. */
  lemma LookupIsIndex(es: seq<Extent>, n: nat, l: nat)
    requires Tiled(es, n)
    ensures Lookup(es, l) == if l < |AllBlocks(es[..n])| then Some(AllBlocks(es[..n])[l]) else None
  {
    if l < |AllBlocks(es[..n])| {
      var i := Owner(es, n, l);
      forall j | 0 <= j < i
        ensures es[j].Translate(l) == None
      {
        TileCovers(es, n, j, l);
        AllBlocksPrefix(es, j + 1, i);
      }
      LookupSkips(es, l, i);
      TileCovers(es, n, i, l);
      assert es[i..][0] == es[i];
    } else {
      forall j | 0 <= j < |es|
        ensures es[j].Translate(l) == None
      {
        if j < n {
          TileCovers(es, n, j, l);
        }
      }
      LookupSkips(es, l, |es|);
    }
  }

  /** The extent whose stretch holds logical block `l`. */
  ghost function Owner(es: seq<Extent>, n: nat, l: nat): (i: nat)
    requires n <= |es| && l < |AllBlocks(es[..n])|
    ensures i < n && |AllBlocks(es[..i])| <= l < |AllBlocks(es[..i + 1])|
    decreases n
  {
    AllBlocksStep(es, n - 1);
    if l >= |AllBlocks(es[..n - 1])| then n - 1 else Owner(es, n - 1, l)
  }

  // ---------------------------------------------------------------------------
  // The inode

  /** A run that continues the last extent lengthens it. */
  lemma ExtendLast(es: seq<Extent>, n: nat, c: nat, fs: seq<Extent>)
    requires Tiled(es, n) && 0 < n && |AllBlocks(es[..n])| + c < U16
    requires es[n - 1].physical + es[n - 1].count + c < U32
    requires fs == es[n - 1 := es[n - 1].(count := es[n - 1].count + c)]
    ensures Tiled(fs, n)
    ensures AllBlocks(fs[..n]) == AllBlocks(es[..n]) + Range(es[n - 1].physical + es[n - 1].count, c)
  {
    hide AllBlocks;
    forall i | 0 <= i < n
      ensures fs[..i] == es[..i]
    {
    }
    AllBlocksStep(es, n - 1);
    AllBlocksStep(fs, n - 1);
    assert fs[n - 1].Blocks() == es[n - 1].Blocks() + Range(es[n - 1].physical + es[n - 1].count, c);
  }

  /** A run in the first empty slot starts where the file ended. */
  lemma AppendExtent(es: seq<Extent>, n: nat, p: nat, c: nat, fs: seq<Extent>)
    requires Tiled(es, n) && n < INLINE_EXTENTS && c > 0 && |AllBlocks(es[..n])| + c < U16 && p + c < U32
    requires fs == es[n := Extent(|AllBlocks(es[..n])|, p, c)]
    ensures Tiled(fs, n + 1)
    ensures AllBlocks(fs[..n + 1]) == AllBlocks(es[..n]) + Range(p, c)
  {
    forall i | 0 <= i <= n
      ensures fs[..i] == es[..i]
    {
    }
    AllBlocksStep(fs, n);
  }

  /** The file ends where its last extent ends, and exactly the first `n` slots are used. */
  lemma EndOfFile(es: seq<Extent>, n: nat)
    requires Tiled(es, n)
    ensures n <= |es| == INLINE_EXTENTS && (forall i :: 0 <= i < |es| ==> (es[i].count != 0 <==> i < n))
    ensures |AllBlocks(es[..n])| == if n == 0 then 0 else es[n - 1].logical + es[n - 1].count
    ensures |AllBlocks(es[..n])| < U16 && (n > 0 ==> es[n - 1].physical + es[n - 1].count < U32)
  {
    if n > 0 {
      AllBlocksStep(es, n - 1);
    }
  }

  lemma NoExtents(es: seq<Extent>)
    requires |es| == INLINE_EXTENTS && forall i :: 0 <= i < INLINE_EXTENTS ==> es[i] == EMPTY
    ensures Tiled(es, 0) && AllBlocks(es[..0]) == []
  {
  }

  class Inode {
    var extents: seq<Extent>
    var lastIdx: nat
    var extentCount: nat

    ghost predicate Tiles()
      reads this
    {
      Tiled(extents, extentCount) && (extentCount > 0 ==> lastIdx == extentCount - 1)
    }

    ghost function Blocks(): seq<nat>
      requires Tiles()
      reads this
    {
      AllBlocks(extents[..extentCount])
    }

    constructor ()
      ensures Tiles() && Blocks() == [] && extentCount == 0
    {
      extents, lastIdx, extentCount := [EMPTY, EMPTY, EMPTY, EMPTY], 0, 0;
      new;
      NoExtents(extents);
    }

    method GetPhysicalBlock(l: nat) returns (r: Option<nat>)
      ensures r == Lookup(extents, l)
      ensures Tiles() ==> r == if l < |Blocks()| then Some(Blocks()[l]) else None
    {
      if Tiles() {
        LookupIsIndex(extents, extentCount, l);
      }
      for i := 0 to |extents|
        invariant forall j :: 0 <= j < i ==> extents[j].Translate(l) == None
      {
        r := extents[i].Translate(l);
        if r.Some? {
          LookupSkips(extents, l, i);
          return;
        }
      }
      LookupSkips(extents, l, |extents|);
      r := None;
    }

    /** The first unused slot, or the number of slots. */
    method FreeSlot() returns (i: nat)
      ensures i <= |extents| && (forall j :: 0 <= j < i ==> extents[j].count != 0)
      ensures i < |extents| ==> extents[i].count == 0
    {
      i := 0;
      while i < |extents| && extents[i].count != 0
        invariant i <= |extents| && forall j :: 0 <= j < i ==> extents[j].count != 0
      {
        i := i + 1;
      }
    }

    /** The u16 and u32 sums wrap; where none does, an accepted run is appended to the
        file's blocks, and a run is refused exactly when it needs a fifth extent. */
    method AddExtent(start: nat, count: nat) returns (ok: bool)
      requires |extents| == INLINE_EXTENTS && start < U32 && 0 < count < U16
      modifies this
      ensures |extents| == INLINE_EXTENTS
      ensures old(Tiles() && |Blocks()| + count < U16) && start + count < U32 ==>
                && Tiles()
                && Blocks() == old(Blocks()) + (if ok then Range(start, count) else [])
                && (ok <==> old(extentCount) < INLINE_EXTENTS || old(Continues(start)))
                && extentCount == old(extentCount) + (if ok && !old(Continues(start)) then 1 else 0)
                && (ok ==> Continues(start + count))
    {
      hide AllBlocks, Range, Tiled;
      ghost var fits := Tiles() && |Blocks()| + count < U16 && start + count < U32;
      if fits {
        EndOfFile(extents, extentCount);
      }
      var logical := 0;
      if extentCount != 0 {
        if lastIdx >= INLINE_EXTENTS {
          return false;
        }
        var last := extents[lastIdx];
        logical := (last.logical + last.count) % U16;
        if (last.physical + last.count) % U32 == start {
          if fits {
            ExtendLast(extents, extentCount, count, extents[lastIdx := last.(count := last.count + count)]);
          }
          extents := extents[lastIdx := last.(count := (last.count + count) % U16)];
          return true;
        }
      }
      var i := FreeSlot();
      assert fits && extentCount < |extents| ==> extents[extentCount].count == 0;
      assert fits ==> i == extentCount;
      if i == |extents| {
        return false;
      }
      if fits {
        AppendExtent(extents, i, start, count, extents[i := Extent(logical, start, count)]);
      }
      extents := extents[i := Extent(logical, start, count)];
      lastIdx, extentCount := i, (extentCount + 1) % U16;
      return true;
    }

    /** The run starts where the last extent ends. */
    ghost predicate Continues(start: nat)
      requires Tiles()
      reads this
    {
      extentCount > 0 && extents[lastIdx].physical + extents[lastIdx].count == start
    }

    method ClearExtents()
      modifies this
      ensures Tiles() && Blocks() == []
    {
      extents, lastIdx, extentCount := [EMPTY, EMPTY, EMPTY, EMPTY], 0, 0;
      NoExtents(extents);
    }
  }
}
