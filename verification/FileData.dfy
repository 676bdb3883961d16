/** The data path of fs_write and fs_read in kernel/src/fs/psychicfs.rs: inodes are records
    kept by name, data sectors live on `disk`, and a sector that was never written is zero. */
module FileData {
  import opened Common
  import opened Extents
  import opened BlockSearch

  const MAX_FILENAME_LEN := 48
  const MAX_FILES := 256

  datatype Record = Record(extents: seq<Extent>, size: nat)

  function SectorAt(disk: map<nat, Sector>, b: Option<nat>): Sector {
    if b.Some? && b.value in disk then disk[b.value] else Zeros(BLOCK_SIZE)
  }

  function Needed(len: nat): nat { (len + BLOCK_SIZE - 1) / BLOCK_SIZE }

  /** The sector image of logical block `i` of some data, padded with zeros. */
  function Chunk(data: seq<Byte>, i: nat): (s: Sector)
    requires i < Needed(|data|)
    ensures forall t :: 0 <= t < BLOCK_SIZE && i * BLOCK_SIZE + t < |data| ==> s[t] == data[i * BLOCK_SIZE + t]
  {
    var from := i * BLOCK_SIZE;
    var to := if from + BLOCK_SIZE <= |data| then from + BLOCK_SIZE else |data|;
    data[from..to] + Zeros(BLOCK_SIZE - (to - from))
  }

  /** What a file holds: byte `x` is in logical block x / 512, a u16. */
  function FileBytes(disk: map<nat, Sector>, f: Record): (r: seq<Byte>)
    ensures |r| == f.size
  {
    seq(f.size, x requires 0 <= x < f.size =>
      SectorAt(disk, Lookup(f.extents, (x / BLOCK_SIZE) % U16))[x % BLOCK_SIZE])
  }

  // ---------------------------------------------------------------------------
  // Writing through a list of blocks

  /** The disk after the first `k` chunks of the data went to their blocks, in order. */
  function WriteAll(disk: map<nat, Sector>, bs: seq<nat>, data: seq<Byte>, k: nat): map<nat, Sector>
    requires k <= |bs| == Needed(|data|)
  {
    if k == 0 then disk else WriteAll(disk, bs, data, k - 1)[bs[k - 1] := Chunk(data, k - 1)]
  }

  /** The last of the first `k` logical blocks that is stored in `b`. */
  function LastIn(bs: seq<nat>, k: nat, b: nat): (j: nat)
    requires k <= |bs| && b in bs[..k]
    ensures j < k && bs[j] == b && forall i :: j < i < k ==> bs[i] != b
  {
    if bs[k - 1] == b then k - 1 else LastIn(bs, k - 1, b)
  }

  lemma {:induction false} WriteAllKeeps(disk: map<nat, Sector>, bs: seq<nat>, data: seq<Byte>, k: nat, b: nat)
    requires k <= |bs| == Needed(|data|) && b !in bs[..k]
    ensures SectorAt(WriteAll(disk, bs, data, k), Some(b)) == SectorAt(disk, Some(b))
  {
    if k > 0 {
      assert bs[k - 1] in bs[..k];
      WriteAllKeeps(disk, bs, data, k - 1, b);
    }
  }

  lemma {:induction false} WriteAllHolds(disk: map<nat, Sector>, bs: seq<nat>, data: seq<Byte>, k: nat, b: nat)
    requires k <= |bs| == Needed(|data|) && b in bs[..k]
    ensures SectorAt(WriteAll(disk, bs, data, k), Some(b)) == Chunk(data, LastIn(bs, k, b))
  {
    if bs[k - 1] != b {
      assert b in bs[..k - 1];
      WriteAllHolds(disk, bs, data, k - 1, b);
    }
  }

  /** Logical blocks that share a physical block would have to hold the same sector. */
  ghost predicate SharedAgree(bs: seq<nat>, data: seq<Byte>)
    requires |bs| == Needed(|data|)
  {
    forall i, j :: 0 <= i < j < |bs| && bs[i] == bs[j] ==> Chunk(data, i) == Chunk(data, j)
  }

  /** The file's bytes, read through its blocks. */
  lemma ByteOf(disk: map<nat, Sector>, f: Record, n: nat, data: seq<Byte>, x: nat)
    requires Tiled(f.extents, n) && f.size == |data| && |AllBlocks(f.extents[..n])| == Needed(|data|) && x < |data|
    ensures var bs := AllBlocks(f.extents[..n]);
            && x / BLOCK_SIZE < |bs|
            && bs[x / BLOCK_SIZE] in bs
            && FileBytes(WriteAll(disk, bs, data, |bs|), f)[x]
                 == Chunk(data, LastIn(bs, |bs|, bs[x / BLOCK_SIZE]))[x % BLOCK_SIZE]
            && data[x] == Chunk(data, x / BLOCK_SIZE)[x % BLOCK_SIZE]
  {
    hide AllBlocks, Lookup, WriteAll, LastIn, Chunk, Tiled;
    EndOfFile(f.extents, n);
    var bs := AllBlocks(f.extents[..n]);
    var l := x / BLOCK_SIZE;
    assert l < |bs|;
    assert bs[..|bs|] == bs;
    LookupIsIndex(f.extents, n, l);
    WriteAllHolds(disk, bs, data, |bs|, bs[l]);
    assert l * BLOCK_SIZE + x % BLOCK_SIZE == x;
  }

  lemma AgreeReadsBack(disk: map<nat, Sector>, f: Record, n: nat, data: seq<Byte>)
    requires Tiled(f.extents, n) && f.size == |data| && |AllBlocks(f.extents[..n])| == Needed(|data|)
    requires SharedAgree(AllBlocks(f.extents[..n]), data)
    ensures var bs := AllBlocks(f.extents[..n]); FileBytes(WriteAll(disk, bs, data, |bs|), f) == data
  {
    hide AllBlocks, Lookup, WriteAll, Chunk, Tiled, FileBytes;
    EndOfFile(f.extents, n);
    var bs := AllBlocks(f.extents[..n]);
    var r := FileBytes(WriteAll(disk, bs, data, |bs|), f);
    forall x: nat | x < |data|
      ensures r[x] == data[x]
    {
      ByteOf(disk, f, n, data, x);
      var l := x / BLOCK_SIZE;
      var j := LastIn(bs, |bs|, bs[l]);
      assert l <= j;
    }
  }

  /** Every logical block but the last fills its sector. */
  lemma ReadBackAgrees(disk: map<nat, Sector>, f: Record, n: nat, data: seq<Byte>, i: nat, j: nat)
    requires Tiled(f.extents, n) && f.size == |data| && |AllBlocks(f.extents[..n])| == Needed(|data|)
    requires var bs := AllBlocks(f.extents[..n]); FileBytes(WriteAll(disk, bs, data, |bs|), f) == data
    requires var bs := AllBlocks(f.extents[..n]); i < j < |bs| && j == LastIn(bs, |bs|, bs[i])
    ensures Chunk(data, i) == Chunk(data, j)
  {
    hide AllBlocks, Lookup, WriteAll, Chunk, Tiled, FileBytes;
    forall t: nat | t < BLOCK_SIZE
      ensures Chunk(data, i)[t] == Chunk(data, j)[t]
    {
      var x := i * BLOCK_SIZE + t;
      assert x / BLOCK_SIZE == i && x % BLOCK_SIZE == t;
      ByteOf(disk, f, n, data, x);
    }
  }

  /** What was written is read back exactly when shared blocks agree. */
  lemma ReadBackIff(disk: map<nat, Sector>, f: Record, n: nat, data: seq<Byte>)
    requires Tiled(f.extents, n) && f.size == |data| && |AllBlocks(f.extents[..n])| == Needed(|data|)
    ensures var bs := AllBlocks(f.extents[..n]);
            (FileBytes(WriteAll(disk, bs, data, |bs|), f) == data <==> SharedAgree(bs, data))
  {
    hide AllBlocks, Lookup, WriteAll, Chunk, Tiled, FileBytes, LastIn;
    EndOfFile(f.extents, n);
    var bs := AllBlocks(f.extents[..n]);
    if SharedAgree(bs, data) {
      AgreeReadsBack(disk, f, n, data);
    }
    if FileBytes(WriteAll(disk, bs, data, |bs|), f) == data {
      forall i, j | 0 <= i < j < |bs| && bs[i] == bs[j]
        ensures Chunk(data, i) == Chunk(data, j)
      {
        assert bs[..|bs|] == bs;
        var last := LastIn(bs, |bs|, bs[i]);
        assert j <= last;
        ReadBackAgrees(disk, f, n, data, i, last);
        if j < last {
          ReadBackAgrees(disk, f, n, data, j, last);
        }
      }
    }
  }

  // ---------------------------------------------------------------------------
  // The file system

  class FileSystem {
    var bitmap: Bitmap
    var totalBlocks: nat
    var disk: map<nat, Sector>
    var files: map<string, Record>

    ghost predicate Valid()
      reads this
    {
      && totalBlocks < U32 && |files| <= MAX_FILES
      && forall f :: f in files ==> |files[f].extents| == INLINE_EXTENTS
    }

    /** fs_format: an empty inode table and a clear bitmap. */
    constructor (total: nat)
      requires total < U32
      ensures Valid() && files == map[] && totalBlocks == total && bitmap == Clear() && LowClear(bitmap)
    {
      bitmap, totalBlocks := Clear(), total;
      disk, files := map[], map[];
    }

    method FreeRange(start: nat, count: nat)
      modifies `bitmap
      ensures bitmap == FreeRun(old(bitmap), start, count)
    {
      for i := 0 to count
        invariant bitmap == FreeRun(old(bitmap), start, i)
      {
        bitmap := FreeOne(bitmap, (start + i) % U32);
      }
    }

    method FreeExtents(es: seq<Extent>)
      modifies `bitmap
      ensures bitmap == FreeAll(old(bitmap), es)
    {
      for i := 0 to |es|
        invariant bitmap == FreeAll(old(bitmap), es[..i])
      {
        assert es[..i + 1][..i] == es[..i];
        if es[i].count != 0 {
          FreeRange(es[i].physical, es[i].count);
        }
      }
      assert es[..|es|] == es;
    }

    method AllocateContiguous(start: nat, count: nat)
      modifies `bitmap
      ensures bitmap == Mark(old(bitmap), start, count)
    {
      ghost var was := bitmap;
      assert Mark(was, start, 0) == was;
      for i := 0 to count
        invariant bitmap == Mark(was, start, i)
      {
        if start + i < BITMAP_BITS {
          bitmap := bitmap[start + i := true];
        }
        assert bitmap == Mark(was, start, i + 1);
      }
    }

    /** The allocation loop of fs_write: it succeeds exactly when there is a layout of at most
        four runs, and then the inode holds the blocks of that layout. */
    method AllocateBlocks(inode: Inode, need: nat) returns (ok: bool)
      requires Valid() && inode.Tiles() && inode.Blocks() == [] && inode.extentCount == 0
      modifies `bitmap, inode
      ensures |inode.extents| == INLINE_EXTENTS
      ensures ok <==> LaidOut(old(bitmap), totalBlocks, need)
      ensures ok ==> inode.Tiles() && Some(inode.Blocks()) == Taken(old(bitmap), totalBlocks, need)
      ensures ok ==> need <= INLINE_EXTENTS * BITMAP_BITS && bitmap == Reserved(old(bitmap), totalBlocks, need)
      ensures old(LowClear(bitmap)) ==> LowClear(bitmap)
    {
      hide Tiled, AllBlocks, Taken, Pieces, Reserved, NextRun, Mark, LowClear, Stuck;
      var got := 0;
      ghost var taken: seq<nat>, last := [], 0;
      EndOfFile(inode.extents, inode.extentCount);
      JoinedNothing(Taken(bitmap, totalBlocks, need));
      while got < need
        invariant got <= need && |taken| == got && |inode.extents| == INLINE_EXTENTS
        invariant Joined(taken, Taken(bitmap, totalBlocks, need - got)) == Taken(old(bitmap), totalBlocks, need)
        invariant inode.extentCount + Pieces(bitmap, totalBlocks, need - got) == Pieces(old(bitmap), totalBlocks, need)
        invariant Reserved(bitmap, totalBlocks, need - got) == Reserved(old(bitmap), totalBlocks, need)
        invariant inode.Tiles() && inode.Blocks() == taken
        invariant inode.extentCount <= INLINE_EXTENTS && got <= inode.extentCount * BITMAP_BITS
        invariant got < need && inode.extentCount > 0 ==>
                    inode.Continues(last + 1) && Stuck(bitmap, totalBlocks, last, need - got + 1)
        invariant old(LowClear(bitmap)) ==> LowClear(bitmap)
      {
        var left := need - got;
        var run, chunk := ChooseRun(left);
        NextRunStep(bitmap, totalBlocks, left);
        if run.None? {
          return false;
        }
        if inode.extentCount > 0 {
          NextRunElsewhere(bitmap, totalBlocks, last, left);
        }
        JoinedThen(taken, run.value, chunk, Taken(Mark(bitmap, run.value, chunk), totalBlocks, left - chunk));
        MarkLow(bitmap, run.value, chunk);
        AllocateContiguous(run.value, chunk);
        var added := inode.AddExtent(run.value, chunk);
        if !added {
          return false;
        }
        taken, last := taken + Range(run.value, chunk), run.value;
        got := got + chunk;
      }
      NothingLeft(bitmap, totalBlocks, taken);
      return true;
    }

    /** One run for everything that is left, else the first free block. */
    method ChooseRun(left: nat) returns (run: Option<nat>, chunk: nat)
      requires left > 0
      ensures run.None? <==> NextRun(bitmap, totalBlocks, left) == None
      ensures run.Some? ==> NextRun(bitmap, totalBlocks, left) == Some(Run(run.value, chunk))
    {
      hide FirstRun;
      chunk := if left <= MAX_RUN then left else MAX_RUN;
      run := FindContiguous(bitmap, totalBlocks, chunk);
      if run.None? && chunk > 1 {
        chunk := 1;
        run := FindContiguous(bitmap, totalBlocks, 1);
      }
    }

    /** The writing loop of fs_write; the disk accepts `writes` sectors before it fails. */
    method WriteBlocks(inode: Inode, data: seq<Byte>, writes: nat) returns (ok: bool)
      modifies `disk
      ensures inode.Tiles() && |inode.Blocks()| == Needed(|data|) ==>
                && (ok <==> Needed(|data|) <= writes)
                && (ok ==> disk == WriteAll(old(disk), inode.Blocks(), data, Needed(|data|)))
    {
      hide Tiled, AllBlocks, Chunk, Lookup;
      ghost var tiles := inode.Tiles() && |inode.Blocks()| == Needed(|data|);
      assert tiles ==> Needed(|data|) < U16 by {
        if tiles {
          EndOfFile(inode.extents, inode.extentCount);
        }
      }
      for l := 0 to Needed(|data|)
        invariant tiles ==> disk == WriteAll(old(disk), inode.Blocks(), data, l) && l <= writes
        invariant tiles == (inode.Tiles() && |inode.Blocks()| == Needed(|data|))
      {
        var b := inode.GetPhysicalBlock(l % U16);
        if b.None? || l >= writes {
          return false;
        }
        disk := disk[b.value := Chunk(data, l)];
      }
      return true;
    }

    /** The part of fs_write after the inode was found. `saved` says whether its sector could
        be written. */
    method ReplaceContents(name: string, data: seq<Byte>, writes: nat, saved: bool) returns (ok: bool)
      requires Valid() && name in files
      modifies this
      ensures Valid() && totalBlocks == old(totalBlocks)
      ensures files.Keys == old(files).Keys && |files| == |old(files)|
      ensures old(LowClear(bitmap)) ==> LowClear(bitmap)
      ensures files == if ok then old(files)[name := files[name]] else old(files)
      ensures ok <==> saved && (data == [] || CanStore(old(Cleared(name)), totalBlocks, data, writes))
      ensures ok ==> files[name].size == |data|
      ensures data == [] ==> disk == old(disk) && bitmap == old(bitmap)
      ensures ok && data != [] ==> bitmap == Reserved(old(Cleared(name)), totalBlocks, Needed(|data|))
      ensures ok && data != [] ==> Stored(old(disk), disk, files[name], old(Cleared(name)), totalBlocks, data)
    {
      hide FileBytes, FreeAll, Stored, CanStore, LowClear, Reserved;
      var es := [EMPTY, EMPTY, EMPTY, EMPTY];
      ok := true;
      if data != [] {
        if LowClear(bitmap) {
          FreeAllKeepsLow(bitmap, files[name].extents);
        }
        FreeExtents(files[name].extents);
        ok, es := PlaceData(data, writes);
      }
      ok := ok && saved;
      if ok {
        files := files[name := Record(es, |data| % U32)];
      }
    }

    /** Allocate blocks for the data and write it there. */
    method PlaceData(data: seq<Byte>, writes: nat) returns (ok: bool, es: seq<Extent>)
      requires Valid() && data != []
      modifies `bitmap, `disk
      ensures |es| == INLINE_EXTENTS && (old(LowClear(bitmap)) ==> LowClear(bitmap))
      ensures ok <==> CanStore(old(bitmap), totalBlocks, data, writes)
      ensures ok ==> |data| < U32 && bitmap == Reserved(old(bitmap), totalBlocks, Needed(|data|))
      ensures ok ==> Stored(old(disk), disk, Record(es, |data| % U32), old(bitmap), totalBlocks, data)
    {
      hide Reserved, Tiled, AllBlocks, FileBytes, Stored, WriteAll, LaidOut, LowClear;
      var inode := new Inode();
      var need := Needed(|data|);
      ok := AllocateBlocks(inode, need);
      if ok {
        BlocksTaken(old(bitmap), totalBlocks, need);
        ok := WriteBlocks(inode, data, writes);
        if ok {
          WriteStores(old(disk), disk, inode.extents, inode.extentCount, old(bitmap), totalBlocks, data);
        }
      }
      es := inode.extents;
    }

    /** fs_write; `created` says whether a new inode could be written. When it succeeds, what
        is stored then, and what a failure keeps. */
    method FsWrite(name: string, data: seq<Byte>, writes: nat, created: bool, saved: bool) returns (ok: bool)
      requires Valid()
      modifies this
      ensures Valid() && totalBlocks == old(totalBlocks)
      ensures files.Keys <= old(files).Keys + {name} && |files| <= |old(files)| + 1
      ensures old(LowClear(bitmap)) ==> LowClear(bitmap)
      ensures ok <==>
                && (name in old(files) || (|name| < MAX_FILENAME_LEN && |old(files)| < MAX_FILES && created))
                && saved && (data == [] || CanStore(old(Cleared(name)), totalBlocks, data, writes))
      ensures forall f :: f in old(files) && (f != name || !ok) ==> f in files && files[f] == old(files)[f]
      ensures ok ==> name in files && files[name].size == |data|
      ensures data == [] ==> disk == old(disk) && bitmap == old(bitmap)
      ensures ok && data != [] ==> bitmap == Reserved(old(Cleared(name)), totalBlocks, Needed(|data|))
      ensures ok && data != [] ==> Stored(old(disk), disk, files[name], old(Cleared(name)), totalBlocks, data)
    {
      hide Tiled, AllBlocks, FileBytes, FreeAll, Stored, LaidOut, LowClear, Reserved;
      if name !in files {
        if |name| >= MAX_FILENAME_LEN || |files| >= MAX_FILES || !created {
          return false;
        }
        var none := [EMPTY, EMPTY, EMPTY, EMPTY];
        files := files[name := Record(none, 0)];
        FreeNothing(bitmap, none);
      }
      ok := ReplaceContents(name, data, writes, saved);
    }

    /** The bitmap fs_write searches: the blocks of the old contents are free again. */
    ghost function Cleared(name: string): Bitmap
      reads this
    {
      if name in files then FreeAll(bitmap, files[name].extents) else bitmap
    }

    /** fs_read; the disk delivers `sectors` sectors before it fails. */
    method FsRead(name: string, sectors: nat) returns (r: Option<seq<Byte>>)
      ensures name !in files ==> r == None
      ensures name in files && r.Some? ==> r.value == FileBytes(disk, files[name])
      ensures name in files && Needed(files[name].size) <= sectors ==> r.Some?
    {
      hide Lookup;
      if name !in files {
        return None;
      }
      var f := files[name];
      var data: seq<Byte> := [];
      var got := 0;
      for l := 0 to Needed(f.size)
        invariant got <= l
        invariant |data| == if l * BLOCK_SIZE <= f.size then l * BLOCK_SIZE else f.size
        invariant data == FileBytes(disk, f)[..|data|]
      {
        var b := Lookup(f.extents, l % U16);
        if b.Some? {
          if got >= sectors {
            return None;
          }
          got := got + 1;
        }
        var left := f.size - |data|;
        var part := if left <= BLOCK_SIZE then left else BLOCK_SIZE;
        FilePart(disk, f, l, part);
        data := data + SectorAt(disk, b)[..part];
      }
      assert |data| == f.size;
      return Some(data);
    }
  }

  /** Logical block `l` of a file contributes a prefix of its sector. */
  lemma FilePart(disk: map<nat, Sector>, f: Record, l: nat, part: nat)
    requires l * BLOCK_SIZE + part <= f.size && part <= BLOCK_SIZE
    ensures FileBytes(disk, f)[..l * BLOCK_SIZE] + SectorAt(disk, Lookup(f.extents, l % U16))[..part]
              == FileBytes(disk, f)[..l * BLOCK_SIZE + part]
  {
    hide Lookup, SectorAt;
    var from := l * BLOCK_SIZE;
    var r, s := FileBytes(disk, f), SectorAt(disk, Lookup(f.extents, l % U16));
    forall t: nat | t < part
      ensures r[from + t] == s[t]
    {
      assert (from + t) / BLOCK_SIZE == l && (from + t) % BLOCK_SIZE == t;
    }
  }

  lemma FreeNothing(bm: Bitmap, es: seq<Extent>)
    requires forall i :: 0 <= i < |es| ==> es[i].count == 0
    ensures FreeAll(bm, es) == bm
  {
    if es != [] {
      FreeNothing(bm, es[..|es| - 1]);
    }
  }

  /** There is a layout for the data, and the disk accepts all its sectors. */
  ghost predicate CanStore(bm: Bitmap, total: nat, data: seq<Byte>, writes: nat) {
    LaidOut(bm, total, Needed(|data|)) && Needed(|data|) <= writes
  }

  lemma BlocksTaken(bm: Bitmap, total: nat, need: nat)
    requires Taken(bm, total, need).Some?
    ensures |Taken(bm, total, need).value| == need
  {
    TakenLength(bm, total, need);
  }

  /** No logical block of the file is one of the blocks. */
  ghost predicate Untouched(f: Record, blocks: seq<nat>) {
    forall l: nat :: Lookup(f.extents, l).Some? ==> Lookup(f.extents, l).value !in blocks
  }

  /** What a successful write leaves: the file has the chosen blocks and they hold the data, read back exactly when
      shared blocks agree and so whenever the layout is separable; no other block changed,
      and so no file without one of the chosen blocks. */
  ghost predicate Stored(before: map<nat, Sector>, after: map<nat, Sector>, f: Record, bm: Bitmap, total: nat,
                         data: seq<Byte>)
  {
    && f.size == |data| && Taken(bm, total, Needed(|data|)).Some?
    && var blocks := Taken(bm, total, Needed(|data|)).value;
    && |blocks| == Needed(|data|)
    && (forall l: nat :: Lookup(f.extents, l) == if l < |blocks| then Some(blocks[l]) else None)
    && (FileBytes(after, f) == data <==> SharedAgree(blocks, data))
    && (Separable(bm, total, Needed(|data|)) ==> FileBytes(after, f) == data)
    && (forall b :: b !in blocks ==> SectorAt(after, Some(b)) == SectorAt(before, Some(b)))
    && (forall g: Record :: Untouched(g, blocks) ==> FileBytes(after, g) == FileBytes(before, g))
  }

  lemma OtherFileKept(before: map<nat, Sector>, after: map<nat, Sector>, blocks: seq<nat>, g: Record)
    requires Untouched(g, blocks)
    requires forall b :: b !in blocks ==> SectorAt(after, Some(b)) == SectorAt(before, Some(b))
    ensures FileBytes(after, g) == FileBytes(before, g)
  {
    hide Lookup;
    forall x: nat | x < g.size
      ensures FileBytes(after, g)[x] == FileBytes(before, g)[x]
    {
      var l := Lookup(g.extents, (x / BLOCK_SIZE) % U16);
      assert SectorAt(after, l) == SectorAt(before, l);
    }
  }

  lemma WriteStores(before: map<nat, Sector>, after: map<nat, Sector>, es: seq<Extent>, n: nat, bm: Bitmap, total: nat,
                    data: seq<Byte>)
    requires Tiled(es, n) && 0 < Needed(|data|) <= MAX_RUN
    requires Some(AllBlocks(es[..n])) == Taken(bm, total, Needed(|data|))
    requires |AllBlocks(es[..n])| == Needed(|data|)
    requires after == WriteAll(before, AllBlocks(es[..n]), data, Needed(|data|))
    ensures Stored(before, after, Record(es, |data| % U32), bm, total, data)
  {
    hide Tiled, AllBlocks, FileBytes, Chunk, WriteAll, Taken, Separable, SectorAt, Untouched, Lookup;
    EndOfFile(es, n);
    var bs := AllBlocks(es[..n]);
    ReadBackIff(before, Record(es, |data|), n, data);
    TakenDistinct(bm, total, Needed(|data|));
    assert bs[..|bs|] == bs;
    forall l: nat
      ensures Lookup(es, l) == if l < |bs| then Some(bs[l]) else None
    {
      LookupIsIndex(es, n, l);
    }
    forall b | b !in bs
      ensures SectorAt(after, Some(b)) == SectorAt(before, Some(b))
    {
      WriteAllKeeps(before, bs, data, |bs|, b);
    }
    forall g: Record | Untouched(g, bs)
      ensures FileBytes(after, g) == FileBytes(before, g)
    {
      OtherFileKept(before, after, bs, g);
    }
  }

  // ---------------------------------------------------------------------------
  // Two files

  /** What two successful writes of new files leave, in terms of the bitmap before them. */
  ghost predicate StoredBoth(d0: map<nat, Sector>, d1: map<nat, Sector>, d2: map<nat, Sector>, f: Record, g: Record,
                             bm: Bitmap, total: nat, first: seq<Byte>, second: seq<Byte>) {
    && Stored(d0, d1, f, bm, total, first)
    && Stored(d1, d2, g, Reserved(bm, total, Needed(|first|)), total, second)
  }

  /** The blocks of the two files. */
  ghost predicate LayoutsApart(bm: Bitmap, total: nat, n: nat, m: nat) {
    var one, two := Taken(bm, total, n), Taken(Reserved(bm, total, n), total, m);
    one.Some? && two.Some? && Apart(one.value, two.value)
  }

  /** A second file on other blocks leaves the contents of the first alone. */
  lemma FirstFileKept(d0: map<nat, Sector>, d1: map<nat, Sector>, d2: map<nat, Sector>, f: Record, g: Record,
                      bm: Bitmap, total: nat, first: seq<Byte>, second: seq<Byte>)
    requires StoredBoth(d0, d1, d2, f, g, bm, total, first, second)
    requires LayoutsApart(bm, total, Needed(|first|), Needed(|second|))
    ensures FileBytes(d2, f) == FileBytes(d1, f)
  {
    hide FileBytes, Lookup, Taken, Reserved, SectorAt, Separable, SharedAgree;
    assert Untouched(f, Taken(Reserved(bm, total, Needed(|first|)), total, Needed(|second|)).value);
  }

  /** Where two files have the same block, they show the same byte. */
  lemma SameBlockSameByte(disk: map<nat, Sector>, f: Record, g: Record, x: nat)
    requires x < f.size && x < g.size
    requires Lookup(f.extents, (x / BLOCK_SIZE) % U16) == Lookup(g.extents, (x / BLOCK_SIZE) % U16)
    ensures FileBytes(disk, f)[x] == FileBytes(disk, g)[x]
  {
  }

  /** Two files of at most 128 blocks: afterwards the first one reads as the second, as far as
      that one reaches. */
  lemma SecondFileShows(d0: map<nat, Sector>, d1: map<nat, Sector>, d2: map<nat, Sector>, f: Record, g: Record,
                        bm: Bitmap, total: nat, first: seq<Byte>, second: seq<Byte>, x: nat)
    requires StoredBoth(d0, d1, d2, f, g, bm, total, first, second) && LowClear(bm) && 2 * DATA_BLOCKS_START <= total
    requires 0 < Needed(|first|) <= DATA_BLOCKS_START && 0 < Needed(|second|) <= DATA_BLOCKS_START
    requires x < |first| && x < |second|
    ensures f.size == |first| && FileBytes(d2, f)[x] == second[x]
  {
    hide FileBytes, Lookup, Taken, Reserved, SectorAt, SharedAgree, LowClear, FirstRun;
    var n, m := Needed(|first|), Needed(|second|);
    var after := Reserved(bm, total, n);
    ReservedKeepsLow(bm, total, n);
    SmallFilesCoincide(bm, total, n);
    SmallFilesCoincide(after, total, m);
    assert Separable(after, total, m) by {
      LowRun(after, total, m);
    }
    var l := x / BLOCK_SIZE;
    assert l < n && l < m && l % U16 == l;
    assert Lookup(f.extents, l) == Some(DATA_BLOCKS_START + l) == Lookup(g.extents, l);
    SameBlockSameByte(d2, f, g, x);
  }

  /** Two new files, one after the other. If both writes succeed, the first file is still read
      back when the layouts are apart and it was stored well; on a disk the file system wrote
      itself, with at most 128 blocks each, the first file reads as the second. */
  method WriteTwo(fs: FileSystem, a: string, first: seq<Byte>, b: string, second: seq<Byte>, writes: nat)
    returns (ok: bool)
    requires fs.Valid() && a != b && a !in fs.files && b !in fs.files && first != [] && second != []
    modifies fs
    ensures fs.Valid() && (ok ==> a in fs.files && b in fs.files)
    ensures ok && LayoutsApart(old(fs.bitmap), fs.totalBlocks, Needed(|first|), Needed(|second|))
            && Separable(old(fs.bitmap), fs.totalBlocks, Needed(|first|)) ==>
              FileBytes(fs.disk, fs.files[a]) == first
    ensures ok && old(LowClear(fs.bitmap)) && 2 * DATA_BLOCKS_START <= fs.totalBlocks
            && Needed(|first|) <= DATA_BLOCKS_START && Needed(|second|) <= DATA_BLOCKS_START ==>
              && fs.files[a].size == |first|
              && forall x: nat :: x < |first| && x < |second| ==> FileBytes(fs.disk, fs.files[a])[x] == second[x]
  {
    hide FileBytes, Stored, Separable, LayoutsApart, Reserved, LowClear, CanStore;
    ghost var bm, total, d0 := fs.bitmap, fs.totalBlocks, fs.disk;
    ok := fs.FsWrite(a, first, writes, true, true);
    if !ok {
      return;
    }
    ghost var d1, f := fs.disk, fs.files[a];
    ok := fs.FsWrite(b, second, writes, true, true);
    if ok {
      TwoStored(d0, d1, fs.disk, f, fs.files[b], bm, total, first, second);
    }
  }

  lemma TwoStored(d0: map<nat, Sector>, d1: map<nat, Sector>, d2: map<nat, Sector>, f: Record, g: Record,
                  bm: Bitmap, total: nat, first: seq<Byte>, second: seq<Byte>)
    requires StoredBoth(d0, d1, d2, f, g, bm, total, first, second) && first != [] && second != []
    ensures f.size == |first|
    ensures LayoutsApart(bm, total, Needed(|first|), Needed(|second|)) && Separable(bm, total, Needed(|first|)) ==>
              FileBytes(d2, f) == first
    ensures LowClear(bm) && 2 * DATA_BLOCKS_START <= total && Needed(|first|) <= DATA_BLOCKS_START
            && Needed(|second|) <= DATA_BLOCKS_START ==>
              forall x: nat :: x < |first| && x < |second| ==> FileBytes(d2, f)[x] == second[x]
  {
    hide FileBytes, Separable, LayoutsApart, Reserved, LowClear, Lookup, Taken, SectorAt, SharedAgree, Untouched;
    if LayoutsApart(bm, total, Needed(|first|), Needed(|second|)) {
      FirstFileKept(d0, d1, d2, f, g, bm, total, first, second);
    }
    if LowClear(bm) && 2 * DATA_BLOCKS_START <= total && Needed(|first|) <= DATA_BLOCKS_START
       && Needed(|second|) <= DATA_BLOCKS_START {
      forall x: nat | x < |first| && x < |second|
        ensures FileBytes(d2, f)[x] == second[x]
      {
        SecondFileShows(d0, d1, d2, f, g, bm, total, first, second, x);
      }
    }
  }

  /** A file of 129 blocks whose first sector differs from the others. */
  function Striped(): seq<Byte> { seq(129 * BLOCK_SIZE, i => if i < BLOCK_SIZE then 1 else 0) }

  /** On the formatted disk, a file that fills it and then a file of 129 blocks: both writes
      succeed, and the second file is not read back. */
  method FillThenWrite(fs: FileSystem, full: seq<Byte>) returns (filled: bool, ok: bool)
    requires fs.Valid() && fs.bitmap == Clear() && fs.totalBlocks == 8192 && fs.files == map[]
    requires |full| == 8064 * BLOCK_SIZE
    modifies fs
    ensures filled && ok && fs.Valid() && "b" in fs.files && FileBytes(fs.disk, fs.files["b"]) != Striped()
  {
    hide FileBytes, Stored, Reserved, Clear, LowClear, CanStore, FreeAll, Mark;
    assert "a"[0] != "b"[0];
    var striped := Striped();
    FullLayout(full);
    filled := fs.FsWrite("a", full, 8064, true, true);
    ghost var before := fs.disk;
    ok := fs.FsWrite("b", striped, 129, true, true);
    StripedLost(before, fs.disk, fs.files["b"]);
  }

  lemma FullLayout(full: seq<Byte>)
    requires |full| == 8064 * BLOCK_SIZE
    ensures Needed(|full|) == 8064 && CanStore(Clear(), 8192, full, 8064)
    ensures Reserved(Clear(), 8192, 8064) == Mark(Clear(), 128, 8064)
    ensures Needed(|Striped()|) == 129 && CanStore(Mark(Clear(), 128, 8064), 8192, Striped(), 129)
  {
    hide Clear, Mark, Taken, Pieces, Reserved;
    FirstFile(8192, 8064);
    RepeatedBlock();
    RepeatedPieces();
  }

  /** What such a write stores is not what was written. */
  lemma StripedLost(before: map<nat, Sector>, after: map<nat, Sector>, f: Record)
    requires Stored(before, after, f, Mark(Clear(), 128, 8064), 8192, Striped())
    ensures FileBytes(after, f) != Striped()
  {
    hide Clear, Mark, Taken, FileBytes, Lookup, SectorAt, Separable, Untouched;
    RepeatedBlock();
    var data, bs := Striped(), [128] + Range(128, 128);
    assert Needed(|data|) == 129;
    assert Chunk(data, 0)[0] == data[0] && Chunk(data, 1)[0] == data[512];
    assert bs[0] == bs[1];
  }

  lemma RepeatedPieces()
    ensures Pieces(Mark(Clear(), 128, 8064), 8192, 129) == 2
  {
    hide RunFrom, Clear, Mark, LowClear, IsAllocated, RunAt;
    var bm := Mark(Clear(), 128, 8064);
    ClearIsLow();
    MarkKeepsLow(Clear(), 128, 8064);
    SecondSearch(8192, 8064, 129);
    LowRun(bm, 8192, 1);
    MarkKeepsLow(bm, 128, 1);
    LowRun(Mark(bm, 128, 1), 8192, 128);
    assert Pieces(Mark(Mark(bm, 128, 1), 128, 128), 8192, 0) == 0;
    assert Pieces(Mark(bm, 128, 1), 8192, 128) == 1;
  }

  /** The search finds blocks for everything, in no more runs than an inode has extents. */
  ghost predicate LaidOut(bm: Bitmap, total: nat, need: nat) {
    Taken(bm, total, need).Some? && Pieces(bm, total, need) <= INLINE_EXTENTS
  }

  lemma NextRunElsewhere(bm: Bitmap, total: nat, b: nat, left: nat)
    requires left > 0 && Stuck(bm, total, b, left + 1) && NextRun(bm, total, left).Some?
    ensures NextRun(bm, total, left).value.start != b + 1
  {
    hide FirstRun;
    OneRunIsAll(bm, total, left);
    NextIsElsewhere(bm, total, b, left);
  }

  lemma NothingLeft(bm: Bitmap, total: nat, taken: seq<nat>)
    ensures Joined(taken, Taken(bm, total, 0)) == Some(taken) && Pieces(bm, total, 0) == 0
    ensures Reserved(bm, total, 0) == bm
  {
    assert taken + [] == taken;
  }

  lemma MarkLow(bm: Bitmap, s: nat, c: nat)
    requires s >= DATA_BLOCKS_START
    ensures LowClear(bm) ==> LowClear(Mark(bm, s, c))
  {
    if LowClear(bm) {
      MarkKeepsLow(bm, s, c);
    }
  }

  /** Blocks taken so far, followed by those still to come. */
  function Joined(done: seq<nat>, rest: Option<seq<nat>>): Option<seq<nat>> {
    if rest.None? then None else Some(done + rest.value)
  }

  lemma JoinedNothing(rest: Option<seq<nat>>)
    ensures Joined([], rest) == rest
  {
    if rest.Some? {
      assert [] + rest.value == rest.value;
    }
  }

  lemma JoinedThen(done: seq<nat>, s: nat, c: nat, rest: Option<seq<nat>>)
    ensures Joined(done, Then(s, c, rest)) == Joined(done + Range(s, c), rest)
  {
    if rest.Some? {
      assert done + (Range(s, c) + rest.value) == (done + Range(s, c)) + rest.value;
    }
  }
}
