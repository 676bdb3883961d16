/** The physical frame bitmap of kernel/src/memory/frame.rs run by one CPU. A bitmap
    word is the set of its one bits. */
module FrameAllocator {
  import opened Common

  const MAX_FRAMES := 1024 * 1024
  const WORDS := 16384
  const PAGE_SIZE := 4096

  type Word = w: set<nat> | forall b :: b in w ==> b < 64

  ghost predicate Full(w: Word) { forall b: nat :: b < 64 ==> b in w }

  /** A memory map region that is usable RAM. */
  datatype Region = Region(base: nat, length: nat, usable: bool)

  ghost predicate InRegion(e: Region, f: nat) {
    e.usable && e.base / PAGE_SIZE <= f < e.base / PAGE_SIZE + e.length / PAGE_SIZE
  }

  ghost predicate Usable(entries: seq<Region>, f: nat) {
    exists k :: 0 <= k < |entries| && InRegion(entries[k], f)
  }

  /** All bytes of frame `f` lie in the region. */
  predicate WhollyIn(e: Region, f: nat) {
    e.usable && e.base <= f * 4096 && f * 4096 + 4096 <= e.base + e.length
  }

  /** For a region that starts at a frame, init frees exactly the frames that lie wholly in it. */
  lemma RegionFrames(e: Region, f: nat)
    requires e.base % 4096 == 0
    ensures InRegion(e, f) <==> WhollyIn(e, f)
  {
  }

  /** The frames it frees all lie wholly in the region if and only if the region starts at a
      frame or none is freed. */
  lemma FreedInsideIff(e: Region)
    ensures (forall f: nat :: InRegion(e, f) ==> WhollyIn(e, f)) <==>
              !e.usable || e.base % 4096 == 0 || e.length < 4096
  {
    if e.base % 4096 == 0 {
      forall f: nat
        ensures InRegion(e, f) ==> WhollyIn(e, f)
      {
        RegionFrames(e, f);
      }
    } else if e.usable && e.length >= 4096 {
      assert InRegion(e, e.base / 4096) && !WhollyIn(e, e.base / 4096);
    }
  }

  /** A page of memory from 0x1800: frame 1 is freed, and half of it lies outside. */
  lemma HalfOutside()
    ensures var e := Region(0x1800, 0x1000, true); InRegion(e, 1) && !WhollyIn(e, 1)
  {
  }

  /** How many of the first `n` frames are usable. */
  ghost function UsableBelow(entries: seq<Region>, n: nat): nat {
    if n == 0 then 0 else UsableBelow(entries, n - 1) + if Usable(entries, n - 1) then 1 else 0
  }

  lemma {:induction false} UsableBelowCounts(entries: seq<Region>, n: nat)
    ensures UsableBelow(entries, n) == |set f: nat | f < n && Usable(entries, f)|
    decreases n
  {
    hide Usable;
    var now := set f: nat | f < n && Usable(entries, f);
    if n == 0 {
      assert now == {};
    } else {
      UsableBelowCounts(entries, n - 1);
      var before := set f: nat | f < n - 1 && Usable(entries, f);
      assert now == if Usable(entries, n - 1) then before + {n - 1} else before;
    }
  }

  /** The highest end of a usable region. */
  function Highest(entries: seq<Region>): (h: nat)
    ensures forall k :: 0 <= k < |entries| && entries[k].usable ==> entries[k].base + entries[k].length <= h
    ensures h == 0 || exists k :: 0 <= k < |entries| && entries[k].usable && entries[k].base + entries[k].length == h
  {
    if entries == [] then 0
    else
      var h, e := Highest(entries[..|entries| - 1]), entries[|entries| - 1];
      if e.usable && e.base + e.length > h then e.base + e.length else h
  }

  class Bitmap {
    var bitmap: seq<Word>
    var totalFrames: nat
    var usedFrames: int
    var startSearch: nat

    ghost predicate Valid()
      reads this
    {
      |bitmap| == WORDS && startSearch < WORDS
    }

    /** The bit of frame `f` is set. */
    ghost predicate Taken(f: nat)
      reads this
      requires Valid() && f < MAX_FRAMES
    {
      f % 64 in bitmap[f / 64]
    }

    constructor ()
      ensures Valid() && startSearch == 0 && usedFrames == 0
      ensures forall f: nat :: f < MAX_FRAMES ==> Taken(f)
    {
      bitmap := seq(WORDS, i => NumbersBelow(64));
      totalFrames, usedFrames, startSearch := 0, 0, 0;
    }

    /** free_frame_initial: clear one bit without counting. */
    method FreeFrameInitial(f: nat)
      requires Valid()
      modifies this`bitmap
      ensures Valid()
      ensures forall g: nat :: g < MAX_FRAMES ==> Taken(g) == (g != f && old(Taken(g)))
    {
      if f >= MAX_FRAMES {
        return;
      }
      bitmap := bitmap[f / 64 := bitmap[f / 64] - {f % 64}];
      forall g: nat | g < MAX_FRAMES
        ensures Taken(g) == (g != f && old(Taken(g)))
      {
        SameFrame(f, g);
      }
    }

    /** allocate_frame_at: set one bit and count it if it was clear. */
    method AllocateFrameAt(f: nat)
      requires Valid()
      modifies this`bitmap, this`usedFrames
      ensures Valid()
      ensures forall g: nat :: g < MAX_FRAMES ==> Taken(g) == (g == f || old(Taken(g)))
      ensures usedFrames == old(usedFrames) + if f < MAX_FRAMES && !old(Taken(f)) then 1 else 0
    {
      if f >= MAX_FRAMES {
        return;
      }
      var w := bitmap[f / 64];
      bitmap := bitmap[f / 64 := w + {f % 64}];
      if f % 64 !in w {
        usedFrames := usedFrames + 1;
      }
      forall g: nat | g < MAX_FRAMES
        ensures Taken(g) == (g == f || old(Taken(g)))
      {
        SameFrame(f, g);
      }
    }

    /** deallocate: clear one bit and uncount it if it was set. */
    method Deallocate(f: nat)
      requires Valid()
      modifies this`bitmap, this`usedFrames
      ensures Valid()
      ensures forall g: nat :: g < MAX_FRAMES ==> Taken(g) == (g != f && old(Taken(g)))
      ensures usedFrames == old(usedFrames) - if f < MAX_FRAMES && old(Taken(f)) then 1 else 0
    {
      if f >= MAX_FRAMES {
        return;
      }
      var w := bitmap[f / 64];
      bitmap := bitmap[f / 64 := w - {f % 64}];
      if f % 64 in w {
        usedFrames := usedFrames - 1;
      }
      forall g: nat | g < MAX_FRAMES
        ensures Taken(g) == (g != f && old(Taken(g)))
      {
        SameFrame(f, g);
      }
    }

    /** Free the frames of one usable region. */
    method FreeRegion(e: Region)
      requires Valid() && e.usable
      modifies this`bitmap
      ensures Valid()
      ensures forall f: nat :: f < MAX_FRAMES ==> (!Taken(f) <==> !old(Taken(f)) || InRegion(e, f))
    {
      var first := e.base / PAGE_SIZE;
      for frame := first to first + e.length / PAGE_SIZE
        invariant Valid()
        invariant forall f: nat :: f < MAX_FRAMES ==> (!Taken(f) <==> !old(Taken(f)) || first <= f < frame)
      {
        FreeFrameInitial(frame);
      }
    }

    /** Take the first megabyte back. */
    method ReserveLow(ghost entries: seq<Region>)
      requires Valid() && forall f: nat :: f < MAX_FRAMES ==> (!Taken(f) <==> Usable(entries, f))
      modifies this`bitmap, this`usedFrames
      ensures Valid()
      ensures forall f: nat :: f < MAX_FRAMES ==> (!Taken(f) <==> f >= 256 && Usable(entries, f))
      ensures usedFrames == old(usedFrames) + UsableBelow(entries, 256)
    {
      hide Usable;
      for frame := 0 to 256
        invariant Valid() && usedFrames == old(usedFrames) + UsableBelow(entries, frame)
        invariant forall f: nat :: f < MAX_FRAMES ==> (!Taken(f) <==> f >= frame && Usable(entries, f))
      {
        AllocateFrameAt(frame);
      }
    }

    /** init: only the frames of usable regions are free, and not those of the first
        megabyte, which alone are counted as used. */
    method Initialize(entries: seq<Region>)
      requires Valid()
      modifies this
      ensures Valid() && startSearch == old(startSearch)
      ensures forall f: nat :: f < MAX_FRAMES ==> (!Taken(f) <==> f >= 256 && Usable(entries, f))
      ensures usedFrames == old(usedFrames) + UsableBelow(entries, 256)
      ensures var end := Highest(entries) / PAGE_SIZE; totalFrames == if end < MAX_FRAMES then end else MAX_FRAMES
    {
      hide Usable, InRegion, UsableBelow, NumbersBelow;
      bitmap := seq(|bitmap|, i => NumbersBelow(64));
      var highest := 0;
      NoneUsable();
      assert entries[..0] == [];
      for k := 0 to |entries|
        invariant Valid() && startSearch == old(startSearch) && usedFrames == old(usedFrames)
        invariant highest == Highest(entries[..k])
        invariant forall f: nat :: f < MAX_FRAMES ==> (!Taken(f) <==> Usable(entries[..k], f))
      {
        var e := entries[k];
        assert entries[..k + 1][..k] == entries[..k];
        forall f: nat
          ensures Usable(entries[..k + 1], f) <==> Usable(entries[..k], f) || InRegion(e, f)
        {
          UsableGrows(entries, k, f);
        }
        if e.usable {
          FreeRegion(e);
          if e.base + e.length > highest {
            highest := e.base + e.length;
          }
        } else {
          NotInRegion(e);
        }
      }
      assert entries[..|entries|] == entries;
      totalFrames := if highest / PAGE_SIZE < MAX_FRAMES then highest / PAGE_SIZE else MAX_FRAMES;
      ReserveLow(entries);
    }

    /** The scan of one word that is not full: take its lowest clear bit. The weak
        compare-exchange may fail for no reason, any finite number of times. */
    method TakeFromWord(i: nat, spurious: nat) returns (bit: nat)
      requires Valid() && i < WORDS && !Full(bitmap[i])
      modifies this
      ensures Valid() && bit < 64 && bit !in old(bitmap)[i] && (forall b: nat :: b < bit ==> b in old(bitmap)[i])
      ensures bitmap == old(bitmap)[i := old(bitmap)[i] + {bit}]
      ensures usedFrames == old(usedFrames) + 1 && startSearch == i
    {
      var word := bitmap[i];
      bit := 0;
      while bit < 64
        invariant bit <= 64 && word == old(bitmap)[i] && forall b: nat :: b < bit ==> b in word
        invariant bitmap == old(bitmap) && usedFrames == old(usedFrames)
        invariant |bitmap| == WORDS
      {
        if bit !in word {
          var failures := spurious;
          while failures > 0
            invariant word == old(bitmap)[i] && bitmap == old(bitmap) && usedFrames == old(usedFrames)
          {
            word := bitmap[i];
            failures := failures - 1;
          }
          bitmap := bitmap[i := word + {bit}];
          usedFrames := usedFrames + 1;
          startSearch := i;
          return;
        }
        bit := bit + 1;
      }
      assert false;
    }

    /** The first word that is not full, searched from the hint and then from zero. */
    ghost predicate FirstOpen(i: nat)
      reads this
      requires Valid()
    {
      && i < WORDS && !Full(bitmap[i])
      && (i >= startSearch ==> forall j :: startSearch <= j < i ==> Full(bitmap[j]))
      && (i < startSearch ==> forall j :: startSearch <= j < WORDS || 0 <= j < i ==> Full(bitmap[j]))
    }

    /** allocate: None exactly when every bit is set; otherwise the lowest clear bit of
        the first open word, after at most one wrap-around. */
    method Allocate(spurious: nat) returns (r: Option<nat>)
      requires Valid()
      modifies this
      ensures Valid()
      ensures r.None? <==> AllTaken(old(bitmap))
      ensures r.None? ==> bitmap == old(bitmap) && usedFrames == old(usedFrames)
      ensures r.Some? ==> r.value < MAX_FRAMES && !old(Taken(r.value)) && old(FirstOpen(r.value / 64))
      ensures r.Some? ==> forall b: nat :: b < r.value % 64 ==> b in old(bitmap)[r.value / 64]
      ensures r.Some? ==> forall g: nat :: g < MAX_FRAMES ==> Taken(g) == (g == r.value || old(Taken(g)))
      ensures r.Some? ==> usedFrames == old(usedFrames) + 1 && startSearch == r.value / 64
      decreases startSearch
    {
      var start := startSearch;
      for i := start to WORDS
        invariant Valid() && bitmap == old(bitmap) && usedFrames == old(usedFrames) && startSearch == start
        invariant forall j :: start <= j < i ==> Full(bitmap[j])
      {
        if exists b: nat :: b < 64 && b !in bitmap[i] {
          var bit := TakeFromWord(i, spurious);
          r := Some(i * 64 + bit);
          OpenFrame(old(bitmap), i, bit);
          assert !old(Taken(r.value));
          assert !AllTaken(old(bitmap));
          forall g: nat | g < MAX_FRAMES
            ensures Taken(g) == (g == r.value || old(Taken(g)))
          {
            SameFrame(r.value, g);
          }
          return;
        }
      }
      if start > 0 {
        startSearch := 0;
        r := Allocate(spurious);
        return;
      }
      AllFull(bitmap);
      return None;
    }
  }

  /** Every bit of every word is set. */
  ghost predicate AllTaken(bitmap: seq<Word>)
    requires |bitmap| == WORDS
  {
    forall f: nat :: f < MAX_FRAMES ==> f % 64 in bitmap[f / 64]
  }

  lemma UsableGrows(entries: seq<Region>, k: nat, f: nat)
    requires k < |entries|
    ensures Usable(entries[..k + 1], f) <==> Usable(entries[..k], f) || InRegion(entries[k], f)
  {
    if Usable(entries[..k], f) {
      var j :| 0 <= j < k && InRegion(entries[..k][j], f);
      assert InRegion(entries[..k + 1][j], f);
    }
    if InRegion(entries[k], f) {
      assert InRegion(entries[..k + 1][k], f);
    }
    if Usable(entries[..k + 1], f) {
      var j :| 0 <= j < k + 1 && InRegion(entries[..k + 1][j], f);
      assert j < k ==> InRegion(entries[..k][j], f);
    }
  }

  lemma SameFrame(f: nat, g: nat)
    ensures f == g <==> f / 64 == g / 64 && f % 64 == g % 64
  {
  }

  lemma OpenFrame(bitmap: seq<Word>, i: nat, bit: nat)
    requires |bitmap| == WORDS && i < WORDS && bit < 64 && bit !in bitmap[i]
    ensures var f := i * 64 + bit; f < MAX_FRAMES && f / 64 == i && f % 64 == bit
  {
  }

  lemma AllFull(bitmap: seq<Word>)
    requires |bitmap| == WORDS && forall j :: 0 <= j < WORDS ==> Full(bitmap[j])
    ensures AllTaken(bitmap)
  {
    forall f: nat | f < MAX_FRAMES
      ensures f % 64 in bitmap[f / 64]
    {
      assert Full(bitmap[f / 64]);
    }
  }

  lemma NoneUsable()
    ensures forall f: nat :: !Usable([], f)
  {
  }

  lemma NotInRegion(e: Region)
    requires !e.usable
    ensures forall f: nat :: !InRegion(e, f)
  {
  }
}
