/** The 32-entry write-back block cache of kernel/src/fs/psychicfs.rs against a plain
    disk. Disk operations may fail: `ok` arguments say whether they succeed. */
module BlockCache {
  import opened Common

  const CACHE_SIZE := 32
  const COUNT_WRAP := 0x1_0000_0000
  const TIME_MAX := 0xFFFF_FFFF_FFFF_FFFF

  function Filled(b: Byte): Sector { seq(BLOCK_SIZE, _ => b) }

  /** An entry is live when its access count is not zero. */
  datatype Entry = Entry(block: nat, data: Sector, dirty: bool, count: nat, last: nat) {
    predicate Live() { count > 0 }

    predicate Has(b: nat) { block == b && count > 0 }

    /** A hit: one more access at time `now`; the u32 count wraps to zero. */
    function Touched(now: nat): Entry { this.(count := (count + 1) % COUNT_WRAP, last := now) }
  }

  datatype State = State(cache: seq<Entry>, disk: map<nat, Sector>)

  /** The first live entry of a block, or the length of the cache. */
  function Find(cache: seq<Entry>, b: nat): (i: nat)
    ensures i <= |cache| && (forall j :: 0 <= j < i ==> !cache[j].Has(b)) && (i < |cache| ==> cache[i].Has(b))
  {
    if cache == [] || cache[0].Has(b) then 0 else 1 + Find(cache[1..], b)
  }

  /** What a reader of block `b` should see: the cached data, else the disk. */
  function View(s: State, b: nat): Option<Sector> {
    var i := Find(s.cache, b);
    if i < |s.cache| then Some(s.cache[i].data)
    else if b in s.disk then Some(s.disk[b])
    else None
  }

  ghost predicate Inv(s: State) {
    && |s.cache| == CACHE_SIZE
    && (forall i, j :: 0 <= i < j < CACHE_SIZE && s.cache[i].Live() && s.cache[j].Live() ==>
          s.cache[i].block != s.cache[j].block)
    && (forall i :: 0 <= i < CACHE_SIZE && s.cache[i].Live() && !s.cache[i].dirty ==>
          s.cache[i].block in s.disk && s.disk[s.cache[i].block] == s.cache[i].data)
  }

  // ---------------------------------------------------------------------------
  // Operations

  /** cache_insert picks an empty slot, else a slot with the least last access. */
  ghost predicate IsVictim(cache: seq<Entry>, v: nat) {
    && v < |cache|
    && (cache[v].Live() ==> forall j :: 0 <= j < |cache| ==>
          cache[j].Live() && (cache[v].last <= cache[j].last || cache[j].last >= TIME_MAX))
  }

  /** The disk after the victim's dirty data has been written back. */
  function WrittenBack(s: State, v: nat, ok: bool): map<nat, Sector>
    requires v < |s.cache|
  {
    if s.cache[v].dirty && s.cache[v].Live() && ok then s.disk[s.cache[v].block := s.cache[v].data] else s.disk
  }

  function Inserted(s: State, v: nat, b: nat, data: Sector, dirty: bool, ok: bool, now: nat): State
    requires v < |s.cache|
  {
    State(s.cache[v := Entry(b, data, dirty, 1, now)], WrittenBack(s, v, ok))
  }

  /** cached_write: update the live entry, or insert a dirty one at slot `v`. */
  function Written(s: State, v: nat, b: nat, data: Sector, ok: bool, now: nat): State
    requires v < |s.cache|
  {
    var i := Find(s.cache, b);
    if i < |s.cache| then s.(cache := s.cache[i := s.cache[i].Touched(now).(data := data, dirty := true)])
    else Inserted(s, v, b, data, true, ok, now)
  }

  /** cached_read: touch the live entry, or insert the sector read from disk. */
  function AfterRead(s: State, v: nat, b: nat, readOk: bool, ok: bool, now: nat): State
    requires v < |s.cache|
  {
    var i := Find(s.cache, b);
    if i < |s.cache| then s.(cache := s.cache[i := s.cache[i].Touched(now)])
    else if readOk && b in s.disk then Inserted(s, v, b, s.disk[b], false, ok, now)
    else s
  }

  // ---------------------------------------------------------------------------
  // Views

  lemma FindUnique(cache: seq<Entry>, b: nat, i: nat)
    requires i < |cache| && cache[i].Has(b)
    requires forall j, k :: 0 <= j < k < |cache| && cache[j].Live() && cache[k].Live() ==>
               cache[j].block != cache[k].block
    ensures Find(cache, b) == i
  {
  }

  lemma FindNone(cache: seq<Entry>, b: nat)
    requires forall j :: 0 <= j < |cache| ==> !cache[j].Has(b)
    ensures Find(cache, b) == |cache|
  {
  }

  /** A valid cache entry decides what its block shows, whatever the disk holds. */
  lemma ViewOfEntry(s: State, b: nat, i: nat)
    requires Inv(s) && i < CACHE_SIZE && s.cache[i].Has(b)
    ensures View(s, b) == Some(s.cache[i].data)
  {
    FindUnique(s.cache, b, i);
  }

  lemma ViewOfDisk(s: State, b: nat)
    requires forall j :: 0 <= j < |s.cache| ==> !s.cache[j].Has(b)
    ensures View(s, b) == if b in s.disk then Some(s.disk[b]) else None
  {
    FindNone(s.cache, b);
  }

  /** The write-back of a victim loses nothing: it succeeds, or was not needed. */
  ghost predicate Saved(s: State, v: nat, ok: bool)
    requires v < |s.cache|
  {
    var e := s.cache[v];
    ok || !e.Live() || !e.dirty || (e.block in s.disk && s.disk[e.block] == e.data)
  }

  lemma InsertedInv(s: State, v: nat, b: nat, data: Sector, dirty: bool, ok: bool, now: nat)
    requires Inv(s) && v < CACHE_SIZE && Find(s.cache, b) == CACHE_SIZE
    requires !dirty ==> b in s.disk && s.disk[b] == data
    ensures Inv(Inserted(s, v, b, data, dirty, ok, now))
  {
    var s' := Inserted(s, v, b, data, dirty, ok, now);
    assert forall i :: 0 <= i < CACHE_SIZE ==> !s.cache[i].Has(b);
    assert s.cache[v].Live() ==> s.cache[v].block != b;
  }

  /** Inserting a block shows the new data there; every other block is unchanged exactly
      when the victim's data was saved. */
  lemma InsertedView(s: State, v: nat, b: nat, data: Sector, dirty: bool, ok: bool, now: nat, x: nat)
    requires Inv(s) && v < CACHE_SIZE && Find(s.cache, b) == CACHE_SIZE
    requires !dirty ==> b in s.disk && s.disk[b] == data
    ensures var s' := Inserted(s, v, b, data, dirty, ok, now);
            && View(s', b) == Some(data)
            && (x != b && Saved(s, v, ok) ==> View(s', x) == View(s, x))
            && (!Saved(s, v, ok) ==> s.cache[v].block != b && View(s', s.cache[v].block) != View(s, s.cache[v].block))
  {
    var s' := Inserted(s, v, b, data, dirty, ok, now);
    InsertedInv(s, v, b, data, dirty, ok, now);
    assert forall i :: 0 <= i < CACHE_SIZE ==> !s.cache[i].Has(b);
    ViewOfEntry(s', b, v);
    hide View, Find, Saved;
    if x != b {
      OtherView(s, s', v, b, ok, x);
    }
    if s.cache[v].Live() {
      OtherView(s, s', v, b, ok, s.cache[v].block);
    }
  }

  lemma OtherView(s: State, s': State, v: nat, b: nat, ok: bool, x: nat)
    requires Inv(s) && Inv(s') && v < CACHE_SIZE && x != b && s'.cache[v].block == b
    requires s'.cache == s.cache[v := s'.cache[v]] && s'.disk == WrittenBack(s, v, ok)
    requires s.cache[v].Live() ==> s.cache[v].block != b
    ensures !s.cache[v].Has(x) || Saved(s, v, ok) ==> View(s', x) == View(s, x)
    ensures s.cache[v].Has(x) && !Saved(s, v, ok) ==> View(s', x) != View(s, x)
  {
    var i := Find(s.cache, x);
    if i < CACHE_SIZE && i != v {
      assert s'.cache[i].Has(x);
      ViewOfEntry(s', x, i);
    } else {
      assert forall j :: 0 <= j < CACHE_SIZE && j != v ==> !s.cache[j].Has(x);
      ViewOfDisk(s', x);
    }
  }

  // ---------------------------------------------------------------------------
  // Hits

  /** A hit at slot `i` that leaves `e` there. While the access count does not wrap,
      only the view of that block can change. */
  lemma HitView(s: State, i: nat, e: Entry, x: nat)
    requires Inv(s) && i < CACHE_SIZE && s.cache[i].Live() && e.block == s.cache[i].block && e.Live()
    requires e.dirty || (!s.cache[i].dirty && e.data == s.cache[i].data)
    ensures var s' := s.(cache := s.cache[i := e]);
            && Inv(s') && View(s', e.block) == Some(e.data)
            && (x != e.block ==> View(s', x) == View(s, x))
  {
    var s' := s.(cache := s.cache[i := e]);
    ViewOfEntry(s', e.block, i);
    if x != e.block {
      var k := Find(s.cache, x);
      if k < CACHE_SIZE {
        assert s'.cache[k].Has(x);
        ViewOfEntry(s', x, k);
      } else {
        assert forall j :: 0 <= j < CACHE_SIZE ==> !s'.cache[j].Has(x);
        ViewOfDisk(s', x);
      }
    }
  }

  /** The access count of a cached block is about to wrap to zero. */
  ghost predicate Wraps(s: State, b: nat) {
    var i := Find(s.cache, b);
    i < |s.cache| && s.cache[i].count == COUNT_WRAP - 1
  }

  ghost predicate Counted(s: State) {
    forall i :: 0 <= i < |s.cache| ==> s.cache[i].count < COUNT_WRAP
  }

  /** A hit whose count wraps forgets the entry: the block falls back to the disk, and no
      other block changes. */
  lemma WrapView(s: State, i: nat, e: Entry, x: nat)
    requires Inv(s) && i < CACHE_SIZE && s.cache[i].Live() && !e.Live()
    ensures var s', b := s.(cache := s.cache[i := e]), s.cache[i].block;
            && Inv(s') && View(s', b) == (if b in s.disk then Some(s.disk[b]) else None)
            && (x != b ==> View(s', x) == View(s, x))
  {
    var s', b := s.(cache := s.cache[i := e]), s.cache[i].block;
    assert forall j :: 0 <= j < CACHE_SIZE ==> !s'.cache[j].Has(b);
    ViewOfDisk(s', b);
    if x != b {
      var k := Find(s.cache, x);
      if k < CACHE_SIZE {
        assert s'.cache[k].Has(x);
        ViewOfEntry(s', x, k);
      } else {
        assert forall j :: 0 <= j < CACHE_SIZE ==> !s'.cache[j].Has(x);
        ViewOfDisk(s', x);
      }
    }
  }

  // ---------------------------------------------------------------------------
  // Refinement of a plain disk

  /** The block is cached. */
  predicate Hit(s: State, b: nat) { Find(s.cache, b) < |s.cache| }

  /** The disk itself holds this data. */
  predicate OnDisk(s: State, b: nat, data: Sector) { b in s.disk && s.disk[b] == data }

  /** cached_write: the written block shows the data exactly when its access count did not
      wrap or the disk held the data already; every other block is unchanged exactly when no
      unsaved victim was evicted. */
  lemma WriteRefines(s: State, v: nat, b: nat, data: Sector, ok: bool, now: nat, x: nat)
    requires Inv(s) && v < CACHE_SIZE && Counted(s)
    ensures var s' := Written(s, v, b, data, ok, now);
            && Inv(s') && Counted(s')
            && (View(s', b) == Some(data) <==> !Wraps(s, b) || OnDisk(s, b, data))
            && (Hit(s, b) || Saved(s, v, ok) ==> x != b ==> View(s', x) == View(s, x))
            && (!Hit(s, b) && !Saved(s, v, ok) ==> View(s', s.cache[v].block) != View(s, s.cache[v].block))
  {
    var i := Find(s.cache, b);
    if i < CACHE_SIZE {
      var e := s.cache[i].Touched(now).(data := data, dirty := true);
      if e.Live() {
        HitView(s, i, e, x);
      } else {
        WrapView(s, i, e, x);
      }
    } else {
      hide View, Saved;
      InsertedInv(s, v, b, data, true, ok, now);
      InsertedView(s, v, b, data, true, ok, now, x);
    }
  }

  /** cached_read: a hit changes no other block, and its own exactly when the count wraps and
      the disk lacks the cached data; a miss changes no block when the victim was saved. */
  lemma ReadRefines(s: State, v: nat, b: nat, readOk: bool, ok: bool, now: nat, x: nat)
    requires Inv(s) && v < CACHE_SIZE && Counted(s)
    ensures var s' := AfterRead(s, v, b, readOk, ok, now);
            && Inv(s') && Counted(s')
            && (Hit(s, b) ==>
                  && (x != b ==> View(s', x) == View(s, x))
                  && (View(s', b) == View(s, b) <==> !Wraps(s, b) || OnDisk(s, b, s.cache[Find(s.cache, b)].data)))
            && (!Hit(s, b) && Saved(s, v, ok) ==> View(s', x) == View(s, x))
  {
    var i := Find(s.cache, b);
    if i < CACHE_SIZE {
      var e := s.cache[i].Touched(now);
      ViewOfEntry(s, b, i);
      if e.Live() {
        HitView(s, i, e, x);
      } else {
        WrapView(s, i, e, x);
      }
    } else if readOk && b in s.disk {
      ViewOfDisk(s, b);
      hide View, Saved;
      InsertedInv(s, v, b, s.disk[b], false, ok, now);
      InsertedView(s, v, b, s.disk[b], false, ok, now, x);
    }
  }

  /** 32 blocks written and none saved: the write of one more, whose write-back fails, loses
      one of them. */
  lemma EvictionLosesWrite()
    ensures var s := State(seq(CACHE_SIZE, i requires 0 <= i < CACHE_SIZE => Entry(i, Filled(1), true, 1, 0)), map[]);
            && Inv(s) && IsVictim(s.cache, 0) && View(s, 0) == Some(Filled(1))
            && View(Written(s, 0, 100, Filled(2), false, 0), 0) != Some(Filled(1))
  {
    var s := State(seq(CACHE_SIZE, i requires 0 <= i < CACHE_SIZE => Entry(i, Filled(1), true, 1, 0)), map[]);
    assert s.cache[0].Has(0) && forall i :: 0 <= i < CACHE_SIZE ==> s.cache[i].block == i;
    ViewOfEntry(s, 0, 0);
    assert forall i :: 0 <= i < CACHE_SIZE ==> !s.cache[i].Has(100);
    FindNone(s.cache, 100);
    InsertedView(s, 0, 100, Filled(2), true, false, 0, 0);
  }

  // ---------------------------------------------------------------------------
  // Flush

  /** flush_cache at slot `i`: write a live dirty entry back if the disk accepts it. */
  function FlushedAt(s: State, i: nat, ok: bool): State
    requires i < |s.cache|
  {
    var e := s.cache[i];
    if e.dirty && e.Live() && ok
    then State(s.cache[i := e.(dirty := false)], s.disk[e.block := e.data])
    else s
  }

  /** Writing an entry back changes no view. */
  lemma FlushKeepsView(s: State, i: nat, ok: bool, x: nat)
    requires Inv(s) && i < CACHE_SIZE
    ensures Inv(FlushedAt(s, i, ok)) && View(FlushedAt(s, i, ok), x) == View(s, x)
  {
    var s' := FlushedAt(s, i, ok);
    assert Inv(s');
    var k := Find(s.cache, x);
    if k < CACHE_SIZE {
      assert s'.cache[k].Has(x);
      ViewOfEntry(s', x, k);
    } else {
      assert forall j :: 0 <= j < CACHE_SIZE ==> !s'.cache[j].Has(x);
      ViewOfDisk(s', x);
    }
  }

  /** With no live dirty entry left the raw disk shows every block. */
  lemma CleanIsDisk(s: State, x: nat)
    requires Inv(s) && forall i :: 0 <= i < CACHE_SIZE ==> !(s.cache[i].dirty && s.cache[i].Live())
    ensures View(s, x) == if x in s.disk then Some(s.disk[x]) else None
  {
  }

  // ---------------------------------------------------------------------------
  // The cache in place

  class Cache {
    var cache: seq<Entry>
    var disk: map<nat, Sector>

    ghost function Abstract(): State
      reads this
    {
      State(cache, disk)
    }

    ghost predicate Valid()
      reads this
    {
      Inv(Abstract()) && Counted(Abstract())
    }

    constructor (disk: map<nat, Sector>)
      ensures Valid() && this.disk == disk
      ensures forall x :: View(Abstract(), x) == if x in disk then Some(disk[x]) else None
    {
      cache := seq(CACHE_SIZE, i => Entry(0, Filled(0), false, 0, 0));
      this.disk := disk;
      new;
      forall x
        ensures View(Abstract(), x) == if x in disk then Some(disk[x]) else None
      {
        ViewOfDisk(Abstract(), x);
      }
    }

    /** The loop over the cache that looks for a live entry. */
    method Lookup(b: nat) returns (i: nat)
      ensures i == Find(cache, b)
    {
      i := 0;
      while i < |cache|
        invariant i <= |cache| && forall j :: 0 <= j < i ==> !cache[j].Has(b)
      {
        if cache[i].block == b && cache[i].count > 0 {
          return;
        }
        i := i + 1;
      }
    }

    /** The search of cache_insert for an empty or least recently used slot. */
    method Victim() returns (v: nat)
      requires |cache| == CACHE_SIZE
      ensures IsVictim(cache, v)
    {
      var minAccess := TIME_MAX;
      v := 0;
      for i := 0 to CACHE_SIZE
        invariant v < CACHE_SIZE && minAccess <= TIME_MAX
        invariant forall j :: 0 <= j < i ==>
                    cache[j].Live() && (minAccess <= cache[j].last || cache[j].last >= TIME_MAX)
        invariant (v == 0 && minAccess == TIME_MAX) || (v < i && minAccess == cache[v].last)
      {
        if cache[i].count == 0 {
          return i;
        }
        if cache[i].last < minAccess {
          minAccess := cache[i].last;
          v := i;
        }
      }
    }

    method Insert(b: nat, data: Sector, dirty: bool, ok: bool, now: nat) returns (ghost v: nat)
      requires |cache| == CACHE_SIZE
      modifies this
      ensures old(IsVictim(cache, v)) && Abstract() == old(Inserted(Abstract(), v, b, data, dirty, ok, now))
    {
      var slot := Victim();
      v := slot;
      if cache[slot].dirty && cache[slot].count > 0 {
        if ok {
          disk := disk[cache[slot].block := cache[slot].data];
        }
      }
      cache := cache[slot := Entry(b, data, dirty, 1, now)];
    }

    /** cached_read: the block's view, or failure when it is not cached and the disk
        cannot be read. On a miss `v` is the slot it replaced. */
    method CachedRead(b: nat, readOk: bool, ok: bool, now: nat) returns (r: Option<Sector>, ghost v: nat)
      requires Valid()
      modifies this
      ensures Valid() && v < CACHE_SIZE
      ensures old(Hit(Abstract(), b)) || readOk ==> r == old(View(Abstract(), b))
      ensures old(Hit(Abstract(), b)) ==>
                && (forall x :: x != b ==> View(Abstract(), x) == old(View(Abstract(), x)))
                && (View(Abstract(), b) == old(View(Abstract(), b)) <==>
                      !old(Wraps(Abstract(), b)) || (b in disk && Some(disk[b]) == r))
      ensures !old(Hit(Abstract(), b)) && r.Some? ==> old(IsVictim(cache, v))
      ensures !old(Hit(Abstract(), b)) && (r.None? || old(Saved(Abstract(), v, ok))) ==>
                forall x :: View(Abstract(), x) == old(View(Abstract(), x))
    {
      hide Inv, Counted, View, Saved, Wraps, IsVictim;
      InvSize(Abstract());
      var i := Lookup(b);
      if i < |cache| {
        v := 0;
        ReadAll(Abstract(), v, b, readOk, ok, now);
        ViewHit(Abstract(), b);
        r := Some(cache[i].data);
        cache := cache[i := cache[i].Touched(now)];
        return;
      }
      ViewMiss(Abstract(), b);
      if !readOk || b !in disk {
        v := 0;
        return None, v;
      }
      var buffer := disk[b];
      ghost var s := Abstract();
      v := Insert(b, buffer, false, ok, now);
      VictimSlot(s.cache, v);
      ReadAll(s, v, b, readOk, ok, now);
      r := Some(buffer);
    }

    /** cached_write: the block shows the data unless its access count wrapped, and with a
        hit or a successful write-back every other block shows what it did. */
    method CachedWrite(b: nat, data: Sector, ok: bool, now: nat) returns (ghost v: nat)
      requires Valid()
      modifies this
      ensures Valid() && v < CACHE_SIZE
      ensures View(Abstract(), b) == Some(data) <==> !old(Wraps(Abstract(), b)) || old(OnDisk(Abstract(), b, data))
      ensures !old(Hit(Abstract(), b)) ==> old(IsVictim(cache, v))
      ensures old(Hit(Abstract(), b)) || old(Saved(Abstract(), v, ok)) ==>
                forall x :: x != b ==> View(Abstract(), x) == old(View(Abstract(), x))
    {
      hide Inv, Counted, View, Saved, Wraps, IsVictim, OnDisk;
      InvSize(Abstract());
      ghost var s := Abstract();
      var i := Lookup(b);
      if i < |cache| {
        v := 0;
        cache := cache[i := cache[i].Touched(now).(data := data, dirty := true)];
      } else {
        v := Insert(b, data, true, ok, now);
        VictimSlot(s.cache, v);
      }
      WriteAll(s, v, b, data, ok, now);
    }

    /** flush_cache: no view changes; when it returns true the raw disk shows all. */
    method FlushCache(ok: seq<bool>) returns (success: bool)
      requires Valid() && |ok| == CACHE_SIZE
      modifies this
      ensures Valid() && forall x :: View(Abstract(), x) == old(View(Abstract(), x))
      ensures success ==> forall x :: old(View(Abstract(), x)) == if x in disk then Some(disk[x]) else None
      ensures success <==> forall i :: 0 <= i < CACHE_SIZE && old(cache)[i].dirty && old(cache)[i].Live() ==> ok[i]
    {
      hide View;
      success := true;
      for i := 0 to CACHE_SIZE
        invariant Valid() && forall x :: View(Abstract(), x) == old(View(Abstract(), x))
        invariant forall j :: i <= j < CACHE_SIZE ==> cache[j] == old(cache)[j]
        invariant success ==> forall j :: 0 <= j < i ==> !(cache[j].dirty && cache[j].Live())
        invariant success <==> forall j :: 0 <= j < i && old(cache)[j].dirty && old(cache)[j].Live() ==> ok[j]
      {
        ghost var s := Abstract();
        FlushAll(s, i, ok[i]);
        if cache[i].dirty && cache[i].count > 0 {
          if ok[i] {
            disk := disk[cache[i].block := cache[i].data];
            cache := cache[i := cache[i].(dirty := false)];
          } else {
            success := false;
          }
        }
        assert Abstract() == FlushedAt(s, i, ok[i]);
      }
      if success {
        CleanAll(Abstract());
      }
    }
  }

  lemma InvSize(s: State)
    requires Inv(s)
    ensures |s.cache| == CACHE_SIZE
  {
  }

  lemma ViewHit(s: State, b: nat)
    requires Find(s.cache, b) < |s.cache|
    ensures View(s, b) == Some(s.cache[Find(s.cache, b)].data)
  {
  }

  lemma ViewMiss(s: State, b: nat)
    requires Find(s.cache, b) == |s.cache|
    ensures View(s, b) == if b in s.disk then Some(s.disk[b]) else None
  {
  }

  lemma VictimSlot(cache: seq<Entry>, v: nat)
    requires IsVictim(cache, v)
    ensures v < |cache|
  {
  }

  lemma ReadAll(s: State, v: nat, b: nat, readOk: bool, ok: bool, now: nat)
    requires Inv(s) && v < CACHE_SIZE && Counted(s)
    ensures var s' := AfterRead(s, v, b, readOk, ok, now);
            && Inv(s') && Counted(s')
            && (Hit(s, b) ==>
                  && (forall x :: x != b ==> View(s', x) == View(s, x))
                  && (View(s', b) == View(s, b) <==> !Wraps(s, b) || OnDisk(s, b, s.cache[Find(s.cache, b)].data)))
            && (!Hit(s, b) && Saved(s, v, ok) ==> forall x :: View(s', x) == View(s, x))
  {
    InvSize(s);
    hide View, Saved, Counted, Wraps, OnDisk, AfterRead, Inv;
    ReadRefines(s, v, b, readOk, ok, now, b);
    var s' := AfterRead(s, v, b, readOk, ok, now);
    forall x | x != b && (Hit(s, b) || Saved(s, v, ok))
      ensures View(s', x) == View(s, x)
    {
      ReadRefines(s, v, b, readOk, ok, now, x);
    }
  }

  lemma WriteAll(s: State, v: nat, b: nat, data: Sector, ok: bool, now: nat)
    requires Inv(s) && v < CACHE_SIZE && Counted(s)
    ensures var s' := Written(s, v, b, data, ok, now);
            && Inv(s') && Counted(s')
            && (View(s', b) == Some(data) <==> !Wraps(s, b) || OnDisk(s, b, data))
            && (Hit(s, b) || Saved(s, v, ok) ==> forall x :: x != b ==> View(s', x) == View(s, x))
  {
    InvSize(s);
    hide View, Saved, Counted, Written, Wraps, OnDisk, Inv;
    WriteRefines(s, v, b, data, ok, now, b);
    forall x | x != b && (Hit(s, b) || Saved(s, v, ok))
      ensures View(Written(s, v, b, data, ok, now), x) == View(s, x)
    {
      WriteRefines(s, v, b, data, ok, now, x);
    }
  }

  lemma FlushAll(s: State, i: nat, ok: bool)
    requires Inv(s) && i < CACHE_SIZE
    ensures Inv(FlushedAt(s, i, ok)) && forall x :: View(FlushedAt(s, i, ok), x) == View(s, x)
  {
    FlushKeepsView(s, i, ok, 0);
    forall x
      ensures View(FlushedAt(s, i, ok), x) == View(s, x)
    {
      FlushKeepsView(s, i, ok, x);
    }
  }

  lemma CleanAll(s: State)
    requires Inv(s) && forall i :: 0 <= i < CACHE_SIZE ==> !(s.cache[i].dirty && s.cache[i].Live())
    ensures forall x :: View(s, x) == if x in s.disk then Some(s.disk[x]) else None
  {
    forall x
      ensures View(s, x) == if x in s.disk then Some(s.disk[x]) else None
    {
      CleanIsDisk(s, x);
    }
  }

  // ---------------------------------------------------------------------------
  // Runs

  /** A read, a write or a flush; `v` is the slot a miss would evict. */
  datatype Op = Read(b: nat, v: nat, now: nat) | Write(b: nat, data: Sector, v: nat, now: nat) | Flush

  /** The first `k` slots flushed. */
  function Flushed(s: State, k: nat): State
    requires k <= |s.cache|
    ensures |Flushed(s, k).cache| == |s.cache|
  {
    if k == 0 then s else FlushedAt(Flushed(s, k - 1), k - 1, true)
  }

  /** The operation names a slot and does not wrap an access count. */
  ghost predicate OpOk(s: State, op: Op) {
    op.Flush? || (op.v < |s.cache| && !Wraps(s, op.b))
  }

  function Step(s: State, op: Op): State
    requires op.Flush? || op.v < |s.cache|
  {
    match op
    case Read(b, v, now) => AfterRead(s, v, b, true, true, now)
    case Write(b, data, v, now) => Written(s, v, b, data, true, now)
    case Flush => Flushed(s, |s.cache|)
  }

  /** The same operation on a disk without a cache. */
  function PlainStep(disk: map<nat, Sector>, op: Op): map<nat, Sector> {
    if op.Write? then disk[op.b := op.data] else disk
  }

  ghost predicate Shows(s: State, disk: map<nat, Sector>) {
    forall x :: View(s, x) == if x in disk then Some(disk[x]) else None
  }

  /** Flushing keeps every view and leaves the flushed slots clean. */
  lemma {:induction false} FlushedKeeps(s: State, k: nat)
    requires Inv(s) && Counted(s) && k <= CACHE_SIZE
    ensures var s' := Flushed(s, k);
            && Inv(s') && Counted(s') && (forall x :: View(s', x) == View(s, x))
            && forall i :: 0 <= i < k ==> !(s'.cache[i].dirty && s'.cache[i].Live())
  {
    hide View;
    if k > 0 {
      FlushedKeeps(s, k - 1);
      FlushAll(Flushed(s, k - 1), k - 1, true);
    }
  }

  lemma StepRefines(s: State, op: Op, disk: map<nat, Sector>)
    requires Inv(s) && Counted(s) && OpOk(s, op) && Shows(s, disk)
    ensures Inv(Step(s, op)) && Counted(Step(s, op)) && Shows(Step(s, op), PlainStep(disk, op))
  {
    InvSize(s);
    hide View, Inv, Counted, Saved, AfterRead, Written, Wraps, OnDisk, Flushed;
    match op
    case Read(b, v, now) =>
      AlwaysSaved(s, v);
      ReadAll(s, v, b, true, true, now);
    case Write(b, data, v, now) =>
      AlwaysSaved(s, v);
      WriteAll(s, v, b, data, true, now);
    case Flush =>
      FlushedKeeps(s, CACHE_SIZE);
  }

  lemma AlwaysSaved(s: State, v: nat)
    requires v < |s.cache|
    ensures Saved(s, v, true)
  {
  }

  /** After a flush the raw disk is the plain disk. */
  lemma FlushStepShowsDisk(s: State, disk: map<nat, Sector>)
    requires Inv(s) && Counted(s) && Shows(s, disk)
    ensures Step(s, Flush).disk == disk
  {
    hide View, Counted;
    InvSize(s);
    FlushedKeeps(s, CACHE_SIZE);
    var s' := Step(s, Flush);
    CleanAll(s');
    forall x: nat
      ensures x in s'.disk <==> x in disk
      ensures x in disk ==> x in s'.disk && s'.disk[x] == disk[x]
    {
      assert View(s', x) == View(s, x);
    }
  }

  /** The operations never wrap an access count. */
  ghost predicate RunOk(s: State, ops: seq<Op>)
    decreases |ops|
  {
    ops == [] || (OpOk(s, ops[0]) && RunOk(Step(s, ops[0]), ops[1..]))
  }

  ghost function Run(s: State, ops: seq<Op>): State
    requires RunOk(s, ops)
    decreases |ops|
  {
    if ops == [] then s else Run(Step(s, ops[0]), ops[1..])
  }

  function PlainRun(disk: map<nat, Sector>, ops: seq<Op>): map<nat, Sector>
    decreases |ops|
  {
    if ops == [] then disk else PlainRun(PlainStep(disk, ops[0]), ops[1..])
  }

  /** Every run over the cache shows what the same run over a plain disk holds. */
  lemma {:induction false} RunRefines(s: State, ops: seq<Op>, disk: map<nat, Sector>)
    requires Inv(s) && Counted(s) && RunOk(s, ops) && Shows(s, disk)
    ensures Inv(Run(s, ops)) && Counted(Run(s, ops)) && Shows(Run(s, ops), PlainRun(disk, ops))
    decreases |ops|
  {
    if ops != [] {
      StepRefines(s, ops[0], disk);
      hide Inv, Counted, Shows, Step, OpOk;
      RunRefines(Step(s, ops[0]), ops[1..], PlainStep(disk, ops[0]));
    }
  }

  // ---------------------------------------------------------------------------
  // A run that loses a write

  /** Block 7 in slot 0, written and not saved, accessed `count` times. */
  function HotState(count: nat): State {
    State([Entry(7, Filled(1), true, count, 0)] + seq(CACHE_SIZE - 1, _ => Entry(0, Filled(0), false, 0, 0)),
          map[7 := Filled(0)])
  }

  lemma HotFacts(count: nat)
    requires 0 < count < COUNT_WRAP
    ensures var s := HotState(count);
            && Inv(s) && Counted(s) && Find(s.cache, 7) == 0 && View(s, 7) == Some(Filled(1))
            && (Wraps(s, 7) <==> count == COUNT_WRAP - 1)
  {
    var s := HotState(count);
    assert s.cache[0].Has(7);
    assert forall i :: 1 <= i < CACHE_SIZE ==> !s.cache[i].Live();
  }

  function Reads(n: nat): (r: seq<Op>)
    ensures |r| == n && forall i :: 0 <= i < n ==> r[i] == Read(7, 0, 0)
  {
    seq(n, _ => Read(7, 0, 0))
  }

  /** Reading block 7 `n` times only counts. */
  lemma {:induction false} ReadsCount(count: nat, n: nat)
    requires 0 < count && count + n < COUNT_WRAP
    ensures RunOk(HotState(count), Reads(n)) && Run(HotState(count), Reads(n)) == HotState(count + n)
    decreases n
  {
    if n > 0 {
      var s := HotState(count);
      HotFacts(count);
      assert Step(s, Read(7, 0, 0)) == HotState(count + 1) by {
        hide Inv;
        assert s.cache[0 := s.cache[0].Touched(0)] == HotState(count + 1).cache;
      }
      assert Reads(n)[1..] == Reads(n - 1);
      hide HotState, Step;
      ReadsCount(count + 1, n - 1);
    }
  }

  /** An empty cache over a disk where block 7 is zero. */
  function EmptyState(): State {
    State(seq(CACHE_SIZE, _ => Entry(0, Filled(0), false, 0, 0)), map[7 := Filled(0)])
  }

  lemma FirstWrite()
    ensures OpOk(EmptyState(), Write(7, Filled(1), 0, 0))
    ensures Step(EmptyState(), Write(7, Filled(1), 0, 0)) == HotState(1)
  {
    var s := EmptyState();
    assert forall i :: 0 <= i < CACHE_SIZE ==> !s.cache[i].Has(7);
    FindNone(s.cache, 7);
    assert s.cache[0 := Entry(7, Filled(1), true, 1, 0)] == HotState(1).cache;
  }

  /** One write of block 7 and reads of it until the access count is at its limit. */
  function HotRun(): seq<Op> { [Write(7, Filled(1), 0, 0)] + Reads(COUNT_WRAP - 2) }

  lemma RunCons(s: State, op: Op, ops: seq<Op>)
    requires OpOk(s, op) && RunOk(Step(s, op), ops)
    ensures RunOk(s, [op] + ops) && Run(s, [op] + ops) == Run(Step(s, op), ops)
  {
    hide Step, OpOk;
    assert ([op] + ops)[0] == op && ([op] + ops)[1..] == ops;
  }

  lemma HotRunReaches()
    ensures RunOk(EmptyState(), HotRun()) && Run(EmptyState(), HotRun()) == HotState(COUNT_WRAP - 1)
  {
    hide Step, HotState, EmptyState, OpOk, Reads, Run, RunOk;
    FirstWrite();
    ReadsCount(1, COUNT_WRAP - 2);
    RunCons(EmptyState(), Write(7, Filled(1), 0, 0), Reads(COUNT_WRAP - 2));
  }

  lemma HotReadForgets()
    ensures var s := HotState(COUNT_WRAP - 1);
            |s.cache| == CACHE_SIZE && View(AfterRead(s, 0, 7, true, true, 0), 7) == Some(Filled(0))
  {
    var s := HotState(COUNT_WRAP - 1);
    HotFacts(COUNT_WRAP - 1);
    hide View, Find;
    WrapView(s, 0, s.cache[0].Touched(0), 7);
  }

  /** From an empty cache: after that run block 7 shows the write, and one more read makes it
      show what the disk held before. */
  lemma WrapLosesWrite()
    ensures RunOk(EmptyState(), HotRun()) && |Run(EmptyState(), HotRun()).cache| == CACHE_SIZE
    ensures var s := Run(EmptyState(), HotRun());
            && View(s, 7) == Some(Filled(1)) && View(AfterRead(s, 0, 7, true, true, 0), 7) == Some(Filled(0))
            && Filled(0) != Filled(1)
  {
    hide RunOk, Run, View, AfterRead, HotState;
    HotRunReaches();
    HotFacts(COUNT_WRAP - 1);
    HotReadForgets();
    assert Filled(0)[0] != Filled(1)[0];
  }
}
