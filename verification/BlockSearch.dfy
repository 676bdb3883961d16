/** The block bitmap of kernel/src/fs/psychicfs.rs and the search for the blocks of a file. */
module BlockSearch {
  import opened Common
  import opened Extents

  const DATA_BLOCKS_START := 128
  const BITMAP_BITS := 8192
  const MAX_RUN := 65535

  type Bitmap = b: seq<bool> | |b| == BITMAP_BITS witness seq(BITMAP_BITS, _ => false)

  /** Bit `i` of the bitmap answers for block `i + DATA_BLOCKS_START`. */
  predicate IsAllocated(bm: Bitmap, b: nat) {
    b < DATA_BLOCKS_START || b - DATA_BLOCKS_START >= BITMAP_BITS || bm[b - DATA_BLOCKS_START]
  }

  /** allocate_contiguous_blocks sets the bits numbered like the blocks themselves. */
  function Mark(bm: Bitmap, s: nat, c: nat): Bitmap {
    seq(BITMAP_BITS, i requires 0 <= i < BITMAP_BITS => bm[i] || s <= i < s + c)
  }

  /** free_block clears the bit that is_block_allocated reads. */
  function FreeOne(bm: Bitmap, b: nat): Bitmap {
    if b < DATA_BLOCKS_START || b - DATA_BLOCKS_START >= BITMAP_BITS then bm
    else bm[b - DATA_BLOCKS_START := false]
  }

  function FreeRun(bm: Bitmap, s: nat, c: nat): Bitmap {
    if c == 0 then bm else FreeOne(FreeRun(bm, s, c - 1), (s + c - 1) % U32)
  }

  function FreeAll(bm: Bitmap, es: seq<Extent>): Bitmap {
    if es == [] then bm
    else var e := es[|es| - 1]; FreeRun(FreeAll(bm, es[..|es| - 1]), e.physical, e.count)
  }

  /** `b` is a block of one of the extents. */
  ghost predicate InExtents(es: seq<Extent>, b: nat) {
    exists k :: 0 <= k < |es| && es[k].physical <= b < es[k].physical + es[k].count
  }

  lemma {:induction false} FreeRunIs(bm: Bitmap, s: nat, c: nat, b: nat)
    requires DATA_BLOCKS_START <= b < DATA_BLOCKS_START + BITMAP_BITS && s + c <= U32
    ensures IsAllocated(FreeRun(bm, s, c), b) <==> IsAllocated(bm, b) && !(s <= b < s + c)
  {
    if c > 0 {
      FreeRunIs(bm, s, c - 1, b);
      assert (s + c - 1) % U32 == s + c - 1;
    }
  }

  /** Freeing the extents of a file makes exactly its data blocks free. */
  lemma {:induction false} FreeAllIs(bm: Bitmap, es: seq<Extent>, b: nat)
    requires DATA_BLOCKS_START <= b < DATA_BLOCKS_START + BITMAP_BITS
    requires forall k :: 0 <= k < |es| ==> es[k].physical + es[k].count <= U32
    ensures IsAllocated(FreeAll(bm, es), b) <==> IsAllocated(bm, b) && !InExtents(es, b)
  {
    hide IsAllocated;
    if es != [] {
      var init, e := es[..|es| - 1], es[|es| - 1];
      FreeAllIs(bm, init, b);
      FreeRunIs(FreeAll(bm, init), e.physical, e.count, b);
      assert InExtents(es, b) <==> InExtents(init, b) || e.physical <= b < e.physical + e.count by {
        if InExtents(init, b) {
          var k :| 0 <= k < |init| && init[k].physical <= b < init[k].physical + init[k].count;
          assert es[k] == init[k];
        }
        if InExtents(es, b) {
          var k :| 0 <= k < |es| && es[k].physical <= b < es[k].physical + es[k].count;
          assert k < |init| ==> init[k] == es[k];
        }
      }
    }
  }

  // ---------------------------------------------------------------------------
  // Searching for a free run

  ghost predicate RunAt(bm: Bitmap, total: nat, s: nat, c: nat) {
    && DATA_BLOCKS_START <= s && s + c <= total
    && forall b: nat :: s <= b < s + c ==> !IsAllocated(bm, b)
  }

  /** The least start of a run of `c` free blocks at or after `from`. */
  ghost function RunFrom(bm: Bitmap, total: nat, c: nat, from: nat): (r: Option<nat>)
    ensures r.Some? ==> from <= r.value && RunAt(bm, total, r.value, c)
    ensures forall t: nat :: from <= t && (r.Some? ==> t < r.value) ==> !RunAt(bm, total, t, c)
    decreases total + 1 - from
  {
    if from + c > total then None
    else if RunAt(bm, total, from, c) then Some(from)
    else RunFrom(bm, total, c, from + 1)
  }

  ghost function FirstRun(bm: Bitmap, total: nat, c: nat): Option<nat> {
    RunFrom(bm, total, c, 0)
  }

  lemma FirstRunIs(bm: Bitmap, total: nat, c: nat, s: nat)
    requires RunAt(bm, total, s, c) && forall t: nat :: t < s ==> !RunAt(bm, total, t, c)
    ensures FirstRun(bm, total, c) == Some(s)
  {
    var r := FirstRun(bm, total, c);
    assert r.Some?;
    assert !(s < r.value);
  }

  lemma NoFirstRun(bm: Bitmap, total: nat, c: nat)
    requires forall t: nat :: !RunAt(bm, total, t, c)
    ensures FirstRun(bm, total, c) == None
  {
  }

  /** A start up to an allocated block leaves no room for a run longer than what lies before. */
  lemma BlockedRuns(bm: Bitmap, total: nat, c: nat, from: nat, block: nat)
    requires IsAllocated(bm, block) && from <= block < from + c
    ensures forall t: nat :: from <= t <= block ==> !RunAt(bm, total, t, c)
  {
    forall t: nat | from <= t <= block
      ensures !RunAt(bm, total, t, c)
    {
      assert t <= block < t + c;
    }
  }

  /** find_contiguous_blocks: one pass that counts the free blocks seen in a row. */
  method FindContiguous(bm: Bitmap, total: nat, count: nat) returns (r: Option<nat>)
    requires count > 0
    ensures r == FirstRun(bm, total, count)
  {
    if DATA_BLOCKS_START >= total {
      NoFirstRun(bm, total, count);
      return None;
    }
    var runStart, runLen := 0, 0;
    for block := DATA_BLOCKS_START to total
      invariant runLen < count && DATA_BLOCKS_START <= block - runLen
      invariant runLen > 0 ==> runStart == block - runLen
      invariant forall b: nat :: block - runLen <= b < block ==> !IsAllocated(bm, b)
      invariant forall t: nat :: t < block - runLen ==> !RunAt(bm, total, t, count)
    {
      if !IsAllocated(bm, block) {
        if runLen == 0 {
          runStart := block;
        }
        runLen := runLen + 1;
        if runLen >= count {
          FirstRunIs(bm, total, count, runStart);
          return Some(runStart);
        }
      } else {
        BlockedRuns(bm, total, count, block - runLen, block);
        runLen := 0;
      }
    }
    NoFirstRun(bm, total, count);
    return None;
  }

  /** A bitmap's marks change the answer only from block s + 128 on. */
  lemma MarkShifts(bm: Bitmap, s: nat, c: nat, b: nat)
    ensures IsAllocated(Mark(bm, s, c), b) <==>
              IsAllocated(bm, b) || s + DATA_BLOCKS_START <= b < s + DATA_BLOCKS_START + c
  {
  }

  /** Reserving a run does not reserve it: the same search gives the same run again unless
      the run is so long that its own tail is marked. */
  lemma SearchRepeats(bm: Bitmap, total: nat, c: nat)
    requires c > 0 && FirstRun(bm, total, c).Some?
    ensures var s := FirstRun(bm, total, c).value;
            (FirstRun(Mark(bm, s, c), total, c) == Some(s) <==> c <= DATA_BLOCKS_START || s >= BITMAP_BITS)
  {
    hide Mark;
    var s := FirstRun(bm, total, c).value;
    var after := Mark(bm, s, c);
    forall b: nat
      ensures IsAllocated(after, b) <==> IsAllocated(bm, b) || s + DATA_BLOCKS_START <= b < s + DATA_BLOCKS_START + c
    {
      MarkShifts(bm, s, c, b);
    }
    forall t: nat | t < s
      ensures !RunAt(after, total, t, c)
    {
      assert !RunAt(bm, total, t, c);
    }
    if c <= DATA_BLOCKS_START || s >= BITMAP_BITS {
      assert RunAt(bm, total, s, c);
      forall b: nat | s <= b < s + c
        ensures !IsAllocated(after, b)
      {
        assert !IsAllocated(bm, b);
      }
      FirstRunIs(after, total, c, s);
    } else {
      assert IsAllocated(after, s + DATA_BLOCKS_START);
      assert !RunAt(after, total, s, c);
    }
  }

  // ---------------------------------------------------------------------------
  // The blocks fs_write takes

  /** The blocks chosen for a file, in logical order: one run of everything that is still
      needed if there is one, else the first free block and on with the rest. */
  ghost function Taken(bm: Bitmap, total: nat, need: nat): Option<seq<nat>>
    decreases need
  {
    if need == 0 then Some([])
    else
      var chunk := if need <= MAX_RUN then need else MAX_RUN;
      var run, one := FirstRun(bm, total, chunk), FirstRun(bm, total, 1);
      if run.Some? then Then(run.value, chunk, Taken(Mark(bm, run.value, chunk), total, need - chunk))
      else if chunk > 1 && one.Some? then Then(one.value, 1, Taken(Mark(bm, one.value, 1), total, need - 1))
      else None
  }

  function Then(s: nat, c: nat, rest: Option<seq<nat>>): Option<seq<nat>> {
    if rest.None? then None else Some(Range(s, c) + rest.value)
  }

  /** The first free block is still first after a block at or above it is marked. */
  lemma FirstFreeStays(bm: Bitmap, total: nat, b: nat)
    requires FirstRun(bm, total, 1) == Some(b)
    ensures FirstRun(Mark(bm, b, 1), total, 1) == Some(b)
  {
    SearchRepeats(bm, total, 1);
  }

  /** Whether the file can be laid out on different blocks: in one run, or in the first free
      block and one run that starts elsewhere. */
  ghost predicate Separable(bm: Bitmap, total: nat, need: nat) {
    || FirstRun(bm, total, need).Some?
    || (FirstRun(bm, total, 1).Some? && need > 1 &&
        var b := FirstRun(bm, total, 1).value;
        var rest := FirstRun(Mark(bm, b, 1), total, need - 1);
        rest.Some? && rest.value != b)
  }

  /** A run starts at or above the first free block. */
  lemma RunAboveFirst(bm: Bitmap, total: nat, c: nat)
    requires c > 0 && FirstRun(bm, total, c).Some?
    ensures FirstRun(bm, total, 1).Some? && FirstRun(bm, total, 1).value <= FirstRun(bm, total, c).value
  {
    var s := FirstRun(bm, total, c).value;
    assert RunAt(bm, total, s, 1);
  }

  lemma {:induction false} TakenLength(bm: Bitmap, total: nat, need: nat)
    requires Taken(bm, total, need).Some?
    ensures |Taken(bm, total, need).value| == need
    ensures forall b :: b in Taken(bm, total, need).value ==> DATA_BLOCKS_START <= b < total
    decreases need
  {
    if need > 0 {
      var chunk := if need <= MAX_RUN then need else MAX_RUN;
      var run := FirstRun(bm, total, chunk);
      if run.Some? {
        TakenLength(Mark(bm, run.value, chunk), total, need - chunk);
      } else {
        TakenLength(Mark(bm, FirstRun(bm, total, 1).value, 1), total, need - 1);
      }
    }
  }

  /** A file that takes the single-block path starts with the first free block. */
  lemma TakenStarts(bm: Bitmap, total: nat, need: nat)
    requires 1 <= need <= MAX_RUN && Taken(bm, total, need).Some?
    ensures FirstRun(bm, total, 1).Some? && |Taken(bm, total, need).value| == need
    ensures FirstRun(bm, total, need) == None ==> Taken(bm, total, need).value[0] == FirstRun(bm, total, 1).value
    ensures FirstRun(bm, total, need).Some? ==>
              Taken(bm, total, need).value == Range(FirstRun(bm, total, need).value, need)
  {
    TakenLength(bm, total, need);
    if FirstRun(bm, total, need).Some? {
      RunAboveFirst(bm, total, need);
    }
  }

  /** The blocks of a file are different exactly when the layout is separable; otherwise
      its first two logical blocks share one physical block. */
  lemma TakenDistinct(bm: Bitmap, total: nat, need: nat)
    requires 1 <= need <= MAX_RUN && Taken(bm, total, need).Some?
    ensures |Taken(bm, total, need).value| == need
    ensures NoDup(Taken(bm, total, need).value) <==> Separable(bm, total, need)
    ensures !Separable(bm, total, need) ==>
              need > 1 && Taken(bm, total, need).value[0] == Taken(bm, total, need).value[1]
  {
    hide Mark, RunFrom, IsAllocated, RunAt;
    var bs := Taken(bm, total, need).value;
    TakenStarts(bm, total, need);
    if FirstRun(bm, total, need) == None {
      var b := FirstRun(bm, total, 1).value;
      var after := Mark(bm, b, 1);
      FirstFreeStays(bm, total, b);
      TakenStarts(after, total, need - 1);
      var rest := Taken(after, total, need - 1).value;
      assert bs == [b] + rest by {
        assert Range(b, 1) == [b];
      }
      assert bs[1] == rest[0];
      if FirstRun(after, total, need - 1).Some? {
        RunAboveFirst(after, total, need - 1);
      }
    }
  }

  // ---------------------------------------------------------------------------
  // How many extents a layout needs

  /** The free blocks are at most as many as the bitmap has bits. */
  lemma RunBound(bm: Bitmap, total: nat, s: nat, c: nat)
    requires RunAt(bm, total, s, c)
    ensures c <= BITMAP_BITS
  {
    assert c > 0 ==> !IsAllocated(bm, s + c - 1);
  }

  /** The number of runs a layout is made of. */
  ghost function Pieces(bm: Bitmap, total: nat, need: nat): nat
    decreases need
  {
    if need == 0 then 0
    else
      var chunk := if need <= MAX_RUN then need else MAX_RUN;
      var run, one := FirstRun(bm, total, chunk), FirstRun(bm, total, 1);
      if run.Some? then 1 + Pieces(Mark(bm, run.value, chunk), total, need - chunk)
      else if chunk > 1 && one.Some? then 1 + Pieces(Mark(bm, one.value, 1), total, need - 1)
      else 0
  }

  /** A layout exists exactly when a block is free, because a taken block stays free. */
  lemma {:induction false} TakenIff(bm: Bitmap, total: nat, need: nat)
    requires need > 0
    ensures Taken(bm, total, need).Some? <==> FirstRun(bm, total, 1).Some?
    decreases need
  {
    hide Mark, RunFrom, IsAllocated, RunAt;
    var chunk := if need <= MAX_RUN then need else MAX_RUN;
    var run, one := FirstRun(bm, total, chunk), FirstRun(bm, total, 1);
    if run.Some? {
      RunAboveFirst(bm, total, chunk);
      OneRunIsAll(bm, total, need);
      assert Taken(Mark(bm, run.value, chunk), total, 0) == Some([]);
    } else if chunk > 1 && one.Some? {
      FirstFreeStays(bm, total, one.value);
      TakenIff(Mark(bm, one.value, 1), total, need - 1);
    }
  }

  /** A run that is found holds everything that is needed. */
  lemma OneRunIsAll(bm: Bitmap, total: nat, need: nat)
    requires need > 0
    ensures need > MAX_RUN ==> FirstRun(bm, total, MAX_RUN) == None
  {
    var r := FirstRun(bm, total, MAX_RUN);
    if r.Some? {
      RunBound(bm, total, r.value, MAX_RUN);
    }
  }

  /** Block `b` is the first free one and does not begin a run of `c` blocks. */
  ghost predicate Stuck(bm: Bitmap, total: nat, b: nat, c: nat) {
    FirstRun(bm, total, 1) == Some(b) && !RunAt(bm, total, b, c)
  }

  /** After the first free block was taken alone, the next run does not continue it. */
  lemma NextIsElsewhere(bm: Bitmap, total: nat, b: nat, c: nat)
    requires c > 0 && Stuck(bm, total, b, c + 1)
    ensures FirstRun(bm, total, c) != Some(b + 1) && FirstRun(bm, total, 1) != Some(b + 1)
  {
  }

  lemma TakingOneIsStuck(bm: Bitmap, total: nat, b: nat, left: nat)
    requires left > 1 && FirstRun(bm, total, 1) == Some(b)
    requires FirstRun(bm, total, if left <= MAX_RUN then left else MAX_RUN) == None
    ensures Stuck(Mark(bm, b, 1), total, b, left)
  {
    FirstFreeStays(bm, total, b);
    var after := Mark(bm, b, 1);
    if RunAt(after, total, b, left) {
      RunBound(after, total, b, left);
      forall x: nat | b <= x < b + left
        ensures !IsAllocated(bm, x)
      {
        assert !IsAllocated(after, x);
        MarkShifts(bm, b, 1, x);
      }
      assert RunAt(bm, total, b, left);
    }
  }

  datatype Run = Run(start: nat, count: nat)

  /** The run fs_write takes next when `left` blocks are missing. */
  ghost function NextRun(bm: Bitmap, total: nat, left: nat): Option<Run>
    requires left > 0
  {
    var chunk := if left <= MAX_RUN then left else MAX_RUN;
    var run, one := FirstRun(bm, total, chunk), FirstRun(bm, total, 1);
    if run.Some? then Some(Run(run.value, chunk))
    else if chunk > 1 && one.Some? then Some(Run(one.value, 1))
    else None
  }

  lemma NextRunCounts(bm: Bitmap, total: nat, left: nat)
    requires left > 0 && NextRun(bm, total, left).Some?
    ensures 0 < NextRun(bm, total, left).value.count <= left
  {
  }

  /** The bitmap after all runs of a layout were marked. */
  ghost function Reserved(bm: Bitmap, total: nat, need: nat): Bitmap
    decreases need
  {
    if need == 0 || NextRun(bm, total, need) == None then bm
    else
      NextRunCounts(bm, total, need);
      var r := NextRun(bm, total, need).value;
      Reserved(Mark(bm, r.start, r.count), total, need - r.count)
  }

  /** What taking it does to the layout, and where it lies. */
  lemma NextRunStep(bm: Bitmap, total: nat, left: nat)
    requires left > 0
    ensures NextRun(bm, total, left) == None ==> Taken(bm, total, left) == None
    ensures NextRun(bm, total, left).Some? ==>
              var r := NextRun(bm, total, left).value;
              var after := Mark(bm, r.start, r.count);
              && 0 < r.count <= left && r.count <= BITMAP_BITS
              && DATA_BLOCKS_START <= r.start && r.start + r.count <= total
              && Taken(bm, total, left) == Then(r.start, r.count, Taken(after, total, left - r.count))
              && Pieces(bm, total, left) == 1 + Pieces(after, total, left - r.count)
              && Reserved(bm, total, left) == Reserved(after, total, left - r.count)
              && (r.count < left ==> r.count == 1 && Stuck(after, total, r.start, left))
  {
    hide Mark, RunAt, IsAllocated;
    OneRunIsAll(bm, total, left);
    if NextRun(bm, total, left).Some? {
      var r := NextRun(bm, total, left).value;
      assert RunAt(bm, total, r.start, r.count);
      RunPlace(bm, total, r.start, r.count);
      if r.count < left {
        TakingOneIsStuck(bm, total, r.start, left);
      }
    }
  }

  lemma RunPlace(bm: Bitmap, total: nat, s: nat, c: nat)
    requires RunAt(bm, total, s, c)
    ensures DATA_BLOCKS_START <= s && s + c <= total && c <= BITMAP_BITS
  {
    RunBound(bm, total, s, c);
  }

  // ---------------------------------------------------------------------------
  // Several files on one disk

  function Clear(): Bitmap { seq(BITMAP_BITS, _ => false) }

  /** The bits of the first 128 data blocks are clear. Marking sets bits from 128 on, so no
      file ever sets them. */
  ghost predicate LowClear(bm: Bitmap) { forall i :: 0 <= i < DATA_BLOCKS_START ==> !bm[i] }

  lemma MarkKeepsLow(bm: Bitmap, s: nat, c: nat)
    requires LowClear(bm) && s >= DATA_BLOCKS_START
    ensures LowClear(Mark(bm, s, c))
  {
  }

  lemma {:induction false} FreeRunKeepsLow(bm: Bitmap, s: nat, c: nat)
    requires LowClear(bm)
    ensures LowClear(FreeRun(bm, s, c))
  {
    if c > 0 {
      FreeRunKeepsLow(bm, s, c - 1);
    }
  }

  lemma {:induction false} FreeAllKeepsLow(bm: Bitmap, es: seq<Extent>)
    requires LowClear(bm)
    ensures LowClear(FreeAll(bm, es))
  {
    if es != [] {
      var e := es[|es| - 1];
      FreeAllKeepsLow(bm, es[..|es| - 1]);
      FreeRunKeepsLow(FreeAll(bm, es[..|es| - 1]), e.physical, e.count);
    }
  }

  lemma {:induction false} ReservedKeepsLow(bm: Bitmap, total: nat, need: nat)
    requires LowClear(bm)
    ensures LowClear(Reserved(bm, total, need))
    decreases need
  {
    hide NextRun, Mark, LowClear;
    if need > 0 && NextRun(bm, total, need).Some? {
      var r := NextRun(bm, total, need).value;
      NextRunStep(bm, total, need);
      MarkKeepsLow(bm, r.start, r.count);
      ReservedKeepsLow(Mark(bm, r.start, r.count), total, need - r.count);
    }
  }

  lemma LowRun(bm: Bitmap, total: nat, c: nat)
    requires LowClear(bm) && 0 < c <= DATA_BLOCKS_START && DATA_BLOCKS_START + c <= total
    ensures FirstRun(bm, total, c) == Some(DATA_BLOCKS_START)
  {
    FirstRunIs(bm, total, c, DATA_BLOCKS_START);
  }

  /** On every disk the file system itself wrote, a file of at most 128 blocks starts at the
      first data block, whatever other files there are. */
  lemma SmallFilesCoincide(bm: Bitmap, total: nat, d: nat)
    requires LowClear(bm) && 0 < d <= DATA_BLOCKS_START && DATA_BLOCKS_START + d <= total
    ensures Taken(bm, total, d) == Some(Range(DATA_BLOCKS_START, d))
  {
    hide RunFrom;
    LowRun(bm, total, d);
    assert Taken(Mark(bm, DATA_BLOCKS_START, d), total, 0) == Some([]);
    assert Range(DATA_BLOCKS_START, d) + [] == Range(DATA_BLOCKS_START, d);
  }

  ghost predicate Apart(a: seq<nat>, b: seq<nat>) { forall x :: x in a ==> x !in b }

  /** Which blocks look free after one file of `n` blocks on an empty disk. */
  lemma AfterOneFile(n: nat, b: nat)
    requires b < DATA_BLOCKS_START + BITMAP_BITS
    ensures IsAllocated(Mark(Clear(), DATA_BLOCKS_START, n), b) <==>
              b < DATA_BLOCKS_START || 2 * DATA_BLOCKS_START <= b < 2 * DATA_BLOCKS_START + n
  {
  }

  /** The first file of `n` blocks on an empty disk, as a layout. */
  lemma FirstFile(total: nat, n: nat)
    requires 0 < n && DATA_BLOCKS_START + n <= total <= DATA_BLOCKS_START + BITMAP_BITS && n <= MAX_RUN
    ensures Taken(Clear(), total, n) == Some(Range(DATA_BLOCKS_START, n)) && Pieces(Clear(), total, n) == 1
    ensures Reserved(Clear(), total, n) == Mark(Clear(), DATA_BLOCKS_START, n)
  {
    hide Mark, RunFrom, IsAllocated, RunAt, Clear;
    ClearRun(total, n);
    var after := Mark(Clear(), DATA_BLOCKS_START, n);
    assert Taken(after, total, 0) == Some([]) && Pieces(after, total, 0) == 0 && Reserved(after, total, 0) == after;
    assert Range(DATA_BLOCKS_START, n) + [] == Range(DATA_BLOCKS_START, n);
  }

  /** The search for the second file. */
  lemma SecondSearch(total: nat, n: nat, c: nat)
    requires 0 < n && DATA_BLOCKS_START + n <= total <= DATA_BLOCKS_START + BITMAP_BITS && c > DATA_BLOCKS_START
    ensures FirstRun(Mark(Clear(), DATA_BLOCKS_START, n), total, c) ==
              if 2 * DATA_BLOCKS_START + n + c <= total then Some(2 * DATA_BLOCKS_START + n) else None
  {
    hide Mark, Clear;
    var bm, s := Mark(Clear(), DATA_BLOCKS_START, n), 2 * DATA_BLOCKS_START + n;
    forall t: nat | t < s || s + c > total
      ensures !RunAt(bm, total, t, c)
    {
      if t + c <= total && t >= DATA_BLOCKS_START {
        var x := if t < 2 * DATA_BLOCKS_START then 2 * DATA_BLOCKS_START else t;
        AfterOneFile(n, x);
        assert IsAllocated(bm, x);
      }
    }
    if s + c <= total {
      forall b: nat | s <= b < s + c
        ensures !IsAllocated(bm, b)
      {
        AfterOneFile(n, b);
      }
      FirstRunIs(bm, total, c, s);
    } else {
      NoFirstRun(bm, total, c);
    }
  }

  /** On an empty disk the second file keeps clear of the first exactly when it is longer than
      128 blocks and fits in one run behind the bits the first one set. */
  lemma SecondFileApartIff(total: nat, n: nat, m: nat)
    requires 0 < n && DATA_BLOCKS_START + n <= total <= DATA_BLOCKS_START + BITMAP_BITS && m > 0
    ensures Taken(Clear(), total, n) == Some(Range(DATA_BLOCKS_START, n))
    ensures var second := Taken(Mark(Clear(), DATA_BLOCKS_START, n), total, m);
            second.Some? && |second.value| == m &&
            (Apart(Range(DATA_BLOCKS_START, n), second.value) <==>
               m > DATA_BLOCKS_START && 2 * DATA_BLOCKS_START + n + m <= total)
  {
    hide Mark, RunFrom, IsAllocated, RunAt, Clear, LowClear;
    FirstFile(total, n);
    var bm := Mark(Clear(), DATA_BLOCKS_START, n);
    assert LowClear(bm) by {
      ClearIsLow();
      MarkKeepsLow(Clear(), DATA_BLOCKS_START, n);
    }
    LowRun(bm, total, 1);
    TakenIff(bm, total, m);
    TakenLength(bm, total, m);
    SecondStarts(bm, total, n, m);
    var first, second := Range(DATA_BLOCKS_START, n), Taken(bm, total, m).value;
    assert forall x :: x in first ==> DATA_BLOCKS_START <= x < DATA_BLOCKS_START + n;
    assert first[0] in first && second[0] in second;
  }

  lemma ClearIsLow()
    ensures LowClear(Clear())
  {
  }

  lemma ClearRun(total: nat, n: nat)
    requires 0 < n && DATA_BLOCKS_START + n <= total <= DATA_BLOCKS_START + BITMAP_BITS
    ensures FirstRun(Clear(), total, n) == Some(DATA_BLOCKS_START)
  {
    FirstRunIs(Clear(), total, n, DATA_BLOCKS_START);
  }

  lemma SecondStarts(bm: Bitmap, total: nat, n: nat, m: nat)
    requires bm == Mark(Clear(), DATA_BLOCKS_START, n) && LowClear(bm)
    requires 0 < n && DATA_BLOCKS_START + n <= total <= DATA_BLOCKS_START + BITMAP_BITS && m > 0
    requires Taken(bm, total, m).Some? && |Taken(bm, total, m).value| == m
    requires FirstRun(bm, total, 1) == Some(DATA_BLOCKS_START)
    ensures if m > DATA_BLOCKS_START && 2 * DATA_BLOCKS_START + n + m <= total
            then Taken(bm, total, m).value == Range(2 * DATA_BLOCKS_START + n, m)
            else Taken(bm, total, m).value[0] == DATA_BLOCKS_START
  {
    hide Mark, RunFrom, IsAllocated, RunAt, Clear, LowClear;
    var chunk := if m <= MAX_RUN then m else MAX_RUN;
    if chunk > DATA_BLOCKS_START {
      SecondSearch(total, n, chunk);
      if m > DATA_BLOCKS_START && 2 * DATA_BLOCKS_START + n + m <= total {
        assert Taken(Mark(bm, 2 * DATA_BLOCKS_START + n, m), total, 0) == Some([]);
        assert Range(2 * DATA_BLOCKS_START + n, m) + [] == Range(2 * DATA_BLOCKS_START + n, m);
      }
    } else if DATA_BLOCKS_START + m <= total {
      LowRun(bm, total, m);
    } else {
      TooLong(bm, total, m);
    }
  }

  lemma TooLong(bm: Bitmap, total: nat, c: nat)
    requires DATA_BLOCKS_START + c > total
    ensures FirstRun(bm, total, c) == None
  {
    NoFirstRun(bm, total, c);
  }

  /** A disk of the formatted size, a file that fills it, and one of 129 blocks: the second
      file gets the first data block twice, and all its blocks belong to the first. */
  lemma RepeatedBlock()
    ensures Taken(Clear(), 8192, 8064) == Some(Range(128, 8064))
    ensures Taken(Mark(Clear(), 128, 8064), 8192, 129) == Some([128] + Range(128, 128))
  {
    hide RunFrom, Clear, Mark, LowClear, IsAllocated, RunAt;
    SecondFileApartIff(8192, 8064, 1);
    var bm := Mark(Clear(), 128, 8064);
    assert LowClear(bm) by {
      ClearIsLow();
      MarkKeepsLow(Clear(), 128, 8064);
    }
    SecondSearch(8192, 8064, 129);
    LowRun(bm, 8192, 1);
    assert LowClear(Mark(bm, 128, 1)) by {
      MarkKeepsLow(bm, 128, 1);
    }
    SmallFilesCoincide(Mark(bm, 128, 1), 8192, 128);
    assert Range(128, 1) == [128];
  }
}
