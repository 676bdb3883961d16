/** The split virtqueue of kernel/src/drivers/virtio/queue.rs (sections 2.4.5 to 2.4.8
    of the VIRTIO 1.0 specification), with the device as a step that fetches offered
    heads and completes them in any order. */
module Virtqueue {
  import opened Common

  datatype Result = Ok | Err(error: Error)

  datatype Error = EmptyBufferList | InvalidBuffer | OutOfDescriptors

  const QUEUE_SIZE := 128
  const WRAP := 65536

  /** A descriptor; `hasNext` and `writable` are the flags NEXT and WRITE. */
  datatype Desc = Desc(addr: nat, len: nat, writable: bool, hasNext: bool, next: nat)

  datatype UsedElem = UsedElem(id: nat, len: nat)

  datatype Buffer = Buffer(addr: nat, len: nat, writable: bool)

  /** Who has a descriptor: the free pool, the caller, or the chain of a head. */
  datatype Owner = Free | Held | Chain(head: nat)

  /** Where a submitted chain stands; the number is its position in a ring. */
  datatype Phase = Offered(slot: nat) | InDevice | Done(slot: nat)

  // ---------------------------------------------------------------------------
  // Invariant

  /** Each descriptor has one place, and the free flags agree with it. */
  ghost predicate Placed(free: seq<bool>, place: seq<Owner>) {
    |free| == QUEUE_SIZE && |place| == QUEUE_SIZE && forall d :: 0 <= d < QUEUE_SIZE ==> (free[d] <==> place[d].Free?)
  }

  /** A chain lists distinct descriptors of its head, the head first. */
  ghost predicate IsChain(place: seq<Owner>, h: nat, c: seq<nat>)
    requires |place| == QUEUE_SIZE
  {
    && |c| > 0 && c[0] == h
    && (forall k :: 0 <= k < |c| ==> c[k] < QUEUE_SIZE && place[c[k]] == Chain(h))
    && (forall j, k :: 0 <= j < k < |c| ==> c[j] != c[k])
    && (forall d :: 0 <= d < QUEUE_SIZE && place[d] == Chain(h) ==> d in c)
  }

  ghost predicate ChainsOk(place: seq<Owner>, chains: map<nat, seq<nat>>)
    requires |place| == QUEUE_SIZE
  {
    && (forall h :: h in chains ==> IsChain(place, h, chains[h]))
    && (forall d :: 0 <= d < QUEUE_SIZE && place[d].Chain? ==> place[d].head in chains)
  }

  /** The descriptor table spells the chain: next links, and NEXT on all but the last. */
  ghost predicate Linked(desc: seq<Desc>, c: seq<nat>) {
    && |desc| == QUEUE_SIZE
    && (forall k :: 0 <= k < |c| ==> c[k] < QUEUE_SIZE && (desc[c[k]].hasNext <==> k < |c| - 1))
    && (forall k :: 0 <= k < |c| - 1 ==> desc[c[k]].next == c[k + 1])
  }

  ghost predicate AllLinked(desc: seq<Desc>, chains: map<nat, seq<nat>>) {
    |desc| == QUEUE_SIZE && forall h :: h in chains ==> Linked(desc, chains[h])
  }

  /** Entries from..|log| of a log are the heads in one phase, each at its position. */
  ghost predicate Window(log: seq<nat>, from: nat, phase: map<nat, Phase>, offered: bool) {
    && from <= |log|
    && (forall k :: from <= k < |log| ==> log[k] in phase && phase[log[k]] == if offered then Offered(k) else Done(k))
    && (forall h :: h in phase && (if offered then phase[h].Offered? else phase[h].Done?) ==>
          from <= phase[h].slot < |log| && log[phase[h].slot] == h)
  }

  /** The ring shows the window: no slot of it has been overwritten. */
  ghost predicate Shows<T>(ring: seq<T>, log: seq<T>, from: nat) {
    |ring| == QUEUE_SIZE && from <= |log| && forall k :: from <= k < |log| ==> ring[k % QUEUE_SIZE] == log[k]
  }

  // ---------------------------------------------------------------------------
  // Ring arithmetic

  /** Taking the slot from a wrapped 16-bit index is taking it from the full count. */
  lemma WrapSlot(n: nat)
    ensures n % WRAP % QUEUE_SIZE == n % QUEUE_SIZE
  {
    var q := n / WRAP;
    assert n == WRAP * q + n % WRAP;
    assert n == QUEUE_SIZE * (512 * q) + n % WRAP;
  }

  lemma WrapSucc(n: nat)
    ensures (n % WRAP + 1) % WRAP == (n + 1) % WRAP
  {
  }

  lemma SlotsDiffer(k: nat, n: nat)
    requires k < n < k + QUEUE_SIZE
    ensures k % QUEUE_SIZE != n % QUEUE_SIZE
  {
  }

  lemma WrapEqual(a: nat, b: nat)
    requires a <= b <= a + QUEUE_SIZE
    ensures a % WRAP == b % WRAP <==> a == b
  {
  }

  /** Storing a new entry at its slot keeps the window shown, because fewer than 128
      entries are outstanding. */
  lemma RingPush<T>(ring: seq<T>, log: seq<T>, from: nat, h: T)
    requires Shows(ring, log, from) && |log| - from < QUEUE_SIZE
    ensures Shows(ring[|log| % QUEUE_SIZE := h], log + [h], from)
  {
    var log' := log + [h];
    forall k | from <= k < |log'|
      ensures ring[|log| % QUEUE_SIZE := h][k % QUEUE_SIZE] == log'[k]
    {
      if k < |log| {
        SlotsDiffer(k, |log|);
      }
    }
  }

  /** A window and one more head that is not in it hold at most 128 heads together. */
  lemma WindowHasRoom(log: seq<nat>, from: nat, phase: map<nat, Phase>, offered: bool, h: nat)
    requires Window(log, from, phase, offered) && h < QUEUE_SIZE && forall g :: g in phase ==> g < QUEUE_SIZE
    requires h in phase ==> if offered then !phase[h].Offered? else !phase[h].Done?
    ensures |log| - from < QUEUE_SIZE
  {
    var s := log[from..] + [h];
    forall k | 0 <= k < |s|
      ensures s[k] < QUEUE_SIZE
    {
      if k < |log| - from {
        assert s[k] == log[from + k];
      }
    }
    forall j, k | 0 <= j < k < |s|
      ensures s[j] != s[k]
    {
      assert s[j] == log[from + j];
      if k < |log| - from {
        assert s[k] == log[from + k];
      }
    }
    Pigeonhole(s, QUEUE_SIZE);
  }

  // ---------------------------------------------------------------------------
  // Chains

  function Assign(place: seq<Owner>, c: seq<nat>, o: Owner): (p: seq<Owner>)
    requires |place| == QUEUE_SIZE
    ensures |p| == QUEUE_SIZE
    ensures forall d :: 0 <= d < QUEUE_SIZE ==> p[d] == if d in c then o else place[d]
  {
    seq(QUEUE_SIZE, d requires 0 <= d < QUEUE_SIZE => if d in c then o else place[d])
  }

  /** Distinct held descriptors. */
  ghost predicate AllHeld(place: seq<Owner>, c: seq<nat>)
    requires |place| == QUEUE_SIZE
  {
    && (forall k :: 0 <= k < |c| ==> c[k] < QUEUE_SIZE && place[c[k]] == Held)
    && (forall j, k :: 0 <= j < k < |c| ==> c[j] != c[k])
  }

  /** Submitting a chain of held descriptors leaves every other chain as it was. */
  lemma SubmitChains(place: seq<Owner>, chains: map<nat, seq<nat>>, c: seq<nat>)
    requires |place| == QUEUE_SIZE && ChainsOk(place, chains) && |c| > 0 && AllHeld(place, c)
    ensures c[0] !in chains
    ensures ChainsOk(Assign(place, c, Chain(c[0])), chains[c[0] := c])
  {
    var h := c[0];
    var place' := Assign(place, c, Chain(h));
    assert h !in chains;
    forall g | g in chains
      ensures IsChain(place', g, chains[g])
    {
      assert IsChain(place, g, chains[g]);
      assert g != h;
    }
    assert IsChain(place', h, c);
  }

  /** Releasing a chain frees exactly its descriptors. */
  lemma ReleaseChains(place: seq<Owner>, chains: map<nat, seq<nat>>, h: nat)
    requires |place| == QUEUE_SIZE && ChainsOk(place, chains) && h in chains
    ensures ChainsOk(Assign(place, chains[h], Free), chains - {h})
    ensures forall d :: 0 <= d < QUEUE_SIZE ==> (d in chains[h] <==> place[d] == Chain(h))
  {
    assert IsChain(place, h, chains[h]);
    var place' := Assign(place, chains[h], Free);
    forall g | g in chains && g != h
      ensures IsChain(place', g, chains[g])
    {
      assert IsChain(place, g, chains[g]);
    }
  }

  /** Descriptors of a chain are nobody else's, so writing others keeps it linked. */
  lemma OthersStayLinked(desc: seq<Desc>, desc': seq<Desc>, place: seq<Owner>, chains: map<nat, seq<nat>>, c: seq<nat>)
    requires |place| == QUEUE_SIZE && ChainsOk(place, chains) && AllLinked(desc, chains)
    requires |desc'| == QUEUE_SIZE && |c| > 0 && AllHeld(place, c) && Linked(desc', c)
    requires forall d :: 0 <= d < QUEUE_SIZE && d !in c ==> desc'[d] == desc[d]
    ensures AllLinked(desc', chains[c[0] := c])
  {
    hide IsChain, Linked;
    forall g | g in chains
      ensures Linked(desc', chains[g])
    {
      assert IsChain(place, g, chains[g]) && Linked(desc, chains[g]);
      NotInHeld(place, g, chains[g], c);
      LinkedElsewhere(desc, desc', chains[g], c);
    }
  }

  lemma NotInHeld(place: seq<Owner>, h: nat, chain: seq<nat>, c: seq<nat>)
    requires |place| == QUEUE_SIZE && IsChain(place, h, chain) && AllHeld(place, c)
    ensures forall k :: 0 <= k < |chain| ==> chain[k] !in c
  {
  }

  lemma LinkedElsewhere(desc: seq<Desc>, desc': seq<Desc>, chain: seq<nat>, c: seq<nat>)
    requires Linked(desc, chain) && |desc'| == QUEUE_SIZE
    requires forall k :: 0 <= k < |chain| ==> chain[k] !in c
    requires forall d :: 0 <= d < QUEUE_SIZE && d !in c ==> desc'[d] == desc[d]
    ensures Linked(desc', chain)
  {
  }

  // ---------------------------------------------------------------------------
  // Windows

  lemma OfferWindows(log: seq<nat>, fetched: nat, ids: seq<nat>, reaped: nat, phase: map<nat, Phase>, h: nat)
    requires Window(log, fetched, phase, true) && Window(ids, reaped, phase, false) && h !in phase
    ensures Window(log + [h], fetched, phase[h := Offered(|log|)], true)
    ensures Window(ids, reaped, phase[h := Offered(|log|)], false)
  {
  }

  lemma FetchWindows(log: seq<nat>, fetched: nat, ids: seq<nat>, reaped: nat, phase: map<nat, Phase>)
    requires Window(log, fetched, phase, true) && Window(ids, reaped, phase, false) && fetched < |log|
    ensures log[fetched] in phase
    ensures Window(log, fetched + 1, phase[log[fetched] := InDevice], true)
    ensures Window(ids, reaped, phase[log[fetched] := InDevice], false)
  {
  }

  lemma CompleteWindows(log: seq<nat>, fetched: nat, ids: seq<nat>, reaped: nat, phase: map<nat, Phase>, h: nat)
    requires Window(log, fetched, phase, true) && Window(ids, reaped, phase, false)
    requires h in phase && phase[h] == InDevice
    ensures Window(log, fetched, phase[h := Done(|ids|)], true)
    ensures Window(ids + [h], reaped, phase[h := Done(|ids|)], false)
  {
  }

  lemma ReapWindows(log: seq<nat>, fetched: nat, ids: seq<nat>, reaped: nat, phase: map<nat, Phase>)
    requires Window(log, fetched, phase, true) && Window(ids, reaped, phase, false) && reaped < |ids|
    ensures ids[reaped] in phase
    ensures Window(log, fetched, phase - {ids[reaped]}, true)
    ensures Window(ids, reaped + 1, phase - {ids[reaped]}, false)
  {
  }

  function Ids(es: seq<UsedElem>): (r: seq<nat>)
    ensures |r| == |es| && forall k :: 0 <= k < |es| ==> r[k] == es[k].id
  {
    seq(|es|, k requires 0 <= k < |es| => es[k].id)
  }

  lemma IdsPush(es: seq<UsedElem>, e: UsedElem)
    ensures Ids(es + [e]) == Ids(es) + [e.id]
  {
  }

  // ---------------------------------------------------------------------------
  // The queue

  class Queue {
    // the free flags and the three shared areas
    var freeDesc: seq<bool>
    var desc: seq<Desc>
    var availRing: seq<nat>
    var availIdx: nat
    var usedRing: seq<UsedElem>
    var usedIdx: nat
    var lastUsedIdx: nat
    var nextAvailIdx: nat

    // who has each descriptor, and the history of both rings
    ghost var place: seq<Owner>
    ghost var chains: map<nat, seq<nat>>
    ghost var phase: map<nat, Phase>
    ghost var submitted: seq<nat>
    ghost var fetched: nat
    ghost var completed: seq<UsedElem>
    ghost var reaped: nat

    /** The descriptor part: places, chains and links. */
    ghost predicate Owned()
      reads this
    {
      && |freeDesc| == QUEUE_SIZE && |place| == QUEUE_SIZE && |desc| == QUEUE_SIZE
      && Placed(freeDesc, place) && ChainsOk(place, chains) && AllLinked(desc, chains) && phase.Keys == chains.Keys
    }

    /** The ring part: 16-bit indices, windows and slots. */
    ghost predicate Ringed()
      reads this
    {
      && |availRing| == QUEUE_SIZE && |usedRing| == QUEUE_SIZE
      && availIdx == nextAvailIdx == |submitted| % WRAP
      && usedIdx == |completed| % WRAP && lastUsedIdx == reaped % WRAP
      && Window(submitted, fetched, phase, true)
      && Window(Ids(completed), reaped, phase, false)
      && Shows(availRing, submitted, fetched)
      && Shows(usedRing, completed, reaped)
    }

    ghost predicate Valid()
      reads this
    {
      Owned() && Ringed()
    }

    /** new with 128 descriptors: all free, empty rings. */
    constructor ()
      ensures Valid() && chains == map[] && submitted == [] && completed == []
      ensures forall d :: 0 <= d < QUEUE_SIZE ==> place[d] == Free
    {
      freeDesc := seq(QUEUE_SIZE, i => true);
      desc := seq(QUEUE_SIZE, i => Desc(0, 0, false, false, 0));
      availRing := seq(QUEUE_SIZE, i => 0);
      usedRing := seq(QUEUE_SIZE, i => UsedElem(0, 0));
      availIdx, usedIdx, lastUsedIdx, nextAvailIdx := 0, 0, 0, 0;
      place := seq(QUEUE_SIZE, i => Free);
      chains, phase := map[], map[];
      submitted, fetched, completed, reaped := [], 0, [], 0;
    }

    /** alloc_desc: the lowest free descriptor goes to the caller. */
    method AllocDesc() returns (r: Option<nat>)
      requires Owned()
      modifies this`freeDesc, this`place
      ensures Owned()
      ensures r.None? <==> forall d :: 0 <= d < QUEUE_SIZE ==> old(place)[d] != Free
      ensures r.None? ==> freeDesc == old(freeDesc) && place == old(place)
      ensures r.Some? ==> r.value < QUEUE_SIZE && old(place)[r.value] == Free
                          && (forall d :: 0 <= d < r.value ==> old(place)[d] != Free)
                          && place == old(place)[r.value := Held]
    {
      for i := 0 to QUEUE_SIZE
        invariant freeDesc == old(freeDesc) && place == old(place)
        invariant forall d :: 0 <= d < i ==> !freeDesc[d]
      {
        if freeDesc[i] {
          freeDesc := freeDesc[i := false];
          place := place[i := Held];
          HoldKeepsChains(old(place), chains, i, Held);
          return Some(i);
        }
      }
      return None;
    }

    /** free_desc of a descriptor the caller holds. */
    method FreeDesc(idx: nat)
      requires Valid() && idx < QUEUE_SIZE && place[idx] == Held
      modifies this`freeDesc, this`place
      ensures Valid() && place == old(place)[idx := Free]
    {
      freeDesc := freeDesc[idx := true];
      place := place[idx := Free];
      HoldKeepsChains(old(place), chains, idx, Free);
    }

    // -------------------------------------------------------------------------
    // add_buf

    /** Allocate the descriptors behind the head, or give all of them back. */
    method TakeRest(head: nat, n: nat) returns (indices: seq<nat>, ok: bool)
      requires Owned() && head < QUEUE_SIZE && place[head] == Held && n > 0
      modifies this`freeDesc, this`place
      ensures Owned()
      ensures ok <==> FreeCount(old(place)) >= n - 1
      ensures !ok ==> place == old(place) && freeDesc == old(freeDesc)
      ensures ok ==> |indices| == n && indices[0] == head && AllHeld(place, indices)
                     && place == Assign(old(place), indices[1..], Held)
                     && forall k :: 1 <= k < n ==> old(place)[indices[k]] == Free
    {
      hide ChainsOk, AllLinked, FreeCount;
      indices := [head];
      AssignNone(place, Held);
      for i := 1 to n
        invariant Owned() && |indices| == i && indices[0] == head && AllHeld(place, indices)
        invariant forall k :: 1 <= k < i ==> old(place)[indices[k]] == Free
        invariant place == Assign(old(place), indices[1..], Held)
        invariant FreeCount(place) == FreeCount(old(place)) - (i - 1)
      {
        ghost var before := place;
        var r := AllocDesc();
        if r.None? {
          NoneFree(place);
          GiveBack(indices, old(place));
          return indices, false;
        }
        TakeOne(before, r.value);
        AssignMore(old(place), indices[1..], r.value);
        assert (indices + [r.value])[1..] == indices[1..] + [r.value];
        indices := indices + [r.value];
      }
      return indices, true;
    }

    /** The rollback of add_buf: free all but the head. */
    method GiveBack(indices: seq<nat>, ghost was: seq<Owner>)
      requires Owned() && |indices| > 0 && AllHeld(place, indices) && |was| == QUEUE_SIZE
      requires place == Assign(was, indices[1..], Held) && forall k :: 1 <= k < |indices| ==> was[indices[k]] == Free
      modifies this`freeDesc, this`place
      ensures Owned() && place == was
    {
      hide ChainsOk, AllLinked;
      for j := 1 to |indices|
        invariant Owned() && place == Assign(was, indices[j..], Held)
      {
        assert indices[j] in indices[j..];
        HoldKeepsChains(place, chains, indices[j], Free);
        freeDesc := freeDesc[indices[j] := true];
        place := place[indices[j] := Free];
        AssignLess(was, indices, j);
      }
      AssignNone(was, Held);
    }

    /** Fill in the descriptors of the chain. */
    method WriteChain(indices: seq<nat>, buffers: seq<Buffer>)
      requires |desc| == QUEUE_SIZE && |indices| == |buffers| > 0
      requires forall k :: 0 <= k < |indices| ==> indices[k] < QUEUE_SIZE
      requires forall j, k :: 0 <= j < k < |indices| ==> indices[j] != indices[k]
      modifies this`desc
      ensures |desc| == QUEUE_SIZE && Linked(desc, indices) && Describes(desc, indices, buffers)
      ensures forall d :: 0 <= d < QUEUE_SIZE && d !in indices ==> desc[d] == old(desc)[d]
    {
      hide Linked, Describes;
      var n := |buffers|;
      for i := 0 to n
        invariant |desc| == QUEUE_SIZE
        invariant forall k :: 0 <= k < i ==> desc[indices[k]] == Filled(indices, buffers, k)
        invariant forall d :: 0 <= d < QUEUE_SIZE && d !in indices ==> desc[d] == old(desc)[d]
      {
        var next := if i < n - 1 then indices[i + 1] else 0;
        desc := desc[indices[i] := Desc(buffers[i].addr, buffers[i].len, buffers[i].writable, i < n - 1, next)];
      }
      FilledIsLinked(desc, indices, buffers);
    }

    /** add_buf: build a chain behind a held head and offer it to the device. */
    method AddBuf(head: nat, buffers: seq<Buffer>) returns (r: Result)
      requires Valid() && head < QUEUE_SIZE && place[head] == Held
      modifies this
      ensures Valid()
      ensures r == (if buffers == [] then Err(EmptyBufferList)
                    else if exists i :: 0 <= i < |buffers| && BadBuffer(buffers[i]) then Err(InvalidBuffer)
                    else if FreeCount(old(place)) < |buffers| - 1 then Err(OutOfDescriptors)
                    else Ok)
      ensures r.Err? ==> place == old(place) && chains == old(chains) && phase == old(phase)
                         && desc == old(desc) && submitted == old(submitted)
      ensures fetched == old(fetched) && completed == old(completed) && reaped == old(reaped)
      ensures r.Ok? ==>
                && submitted == old(submitted) + [head]
                && head !in old(chains) && head in chains && |chains[head]| == |buffers|
                && chains == old(chains)[head := chains[head]]
                && phase == old(phase)[head := Offered(|old(submitted)|)]
                && place == Assign(old(place), chains[head], Chain(head))
                && Describes(desc, chains[head], buffers)
    {
      hide Placed, ChainsOk, AllLinked, Window, Shows, FreeCount, Linked, Describes, Assign;
      if buffers == [] {
        return Err(EmptyBufferList);
      }
      for i := 0 to |buffers|
        invariant forall k :: 0 <= k < i ==> !BadBuffer(buffers[k])
      {
        if buffers[i].len == 0 || buffers[i].addr == 0 {
          return Err(InvalidBuffer);
        }
      }
      var indices, ok := TakeRest(head, |buffers|);
      if !ok {
        return Err(OutOfDescriptors);
      }
      WriteChain(indices, buffers);
      Publish(head, indices, old(desc), old(place));
      return Ok;
    }

    /** The tail of add_buf: hand the chain over and move the available index. */
    method Publish(head: nat, ghost c: seq<nat>, ghost descBefore: seq<Desc>, ghost placeBefore: seq<Owner>)
      requires |freeDesc| == QUEUE_SIZE && |place| == QUEUE_SIZE && |desc| == QUEUE_SIZE
      requires Placed(freeDesc, place) && ChainsOk(place, chains) && phase.Keys == chains.Keys && Ringed()
      requires AllLinked(descBefore, chains) && |c| > 0 && c[0] == head && AllHeld(place, c) && Linked(desc, c)
      requires forall d :: 0 <= d < QUEUE_SIZE && d !in c ==> desc[d] == descBefore[d]
      requires |placeBefore| == QUEUE_SIZE && placeBefore[head] == Held && place == Assign(placeBefore, c[1..], Held)
      modifies this`availRing, this`availIdx, this`nextAvailIdx, this`place, this`chains, this`phase, this`submitted
      ensures Valid()
      ensures submitted == old(submitted) + [head] && head !in old(chains)
      ensures chains == old(chains)[head := c] && phase == old(phase)[head := Offered(|old(submitted)|)]
      ensures place == Assign(placeBefore, c, Chain(head))
    {
      hide Placed, ChainsOk, AllLinked, Window, Shows, Linked, Assign, AllHeld;
      SubmitChains(place, chains, c);
      OthersStayLinked(descBefore, desc, place, chains, c);
      ChainHeads(place, chains);
      HeadInRange(place, c);
      WindowHasRoom(submitted, fetched, phase, true, head);
      OfferWindows(submitted, fetched, Ids(completed), reaped, phase, head);
      RingPush(availRing, submitted, fetched, head);
      WrapSlot(|submitted|);
      WrapSucc(|submitted|);
      AssignTwice(placeBefore, c, head);
      PlacedChain(freeDesc, place, c);
      availRing := availRing[nextAvailIdx % QUEUE_SIZE := head];
      availIdx := (availIdx + 1) % WRAP;
      nextAvailIdx := (nextAvailIdx + 1) % WRAP;
      place := Assign(place, c, Chain(head));
      chains := chains[head := c];
      phase := phase[head := Offered(|submitted|)];
      submitted := submitted + [head];
    }

    // -------------------------------------------------------------------------
    // The device

    /** The device reads the next offered head through its own 16-bit index: it is the
        oldest head that was submitted and not yet fetched. */
    method DeviceFetch(deviceIdx: nat) returns (r: Option<nat>)
      requires Valid() && deviceIdx == fetched % WRAP
      modifies this`phase, this`fetched
      ensures Valid()
      ensures r == if old(fetched) < |submitted| then Some(submitted[old(fetched)]) else None
      ensures r.Some? ==> fetched == old(fetched) + 1 && phase == old(phase)[r.value := InDevice]
      ensures r.None? ==> fetched == old(fetched) && phase == old(phase)
    {
      hide Placed, ChainsOk, AllLinked, Linked;
      ChainHeads(place, chains);
      WindowBound(submitted, fetched, phase, true);
      WrapEqual(fetched, |submitted|);
      if deviceIdx == availIdx {
        return None;
      }
      WrapSlot(fetched);
      r := Some(availRing[deviceIdx % QUEUE_SIZE]);
      FetchWindows(submitted, fetched, Ids(completed), reaped, phase);
      phase := phase[submitted[fetched] := InDevice];
      fetched := fetched + 1;
    }

    /** The device completes a chain it has fetched. */
    method DeviceComplete(h: nat, len: nat)
      requires Valid() && h in phase && phase[h] == InDevice
      modifies this`usedRing, this`usedIdx, this`phase, this`completed
      ensures Valid() && completed == old(completed) + [UsedElem(h, len)]
      ensures phase == old(phase)[h := Done(|old(completed)|)]
    {
      hide Placed, ChainsOk, AllLinked, Window, Shows, Linked;
      var e := UsedElem(h, len);
      ChainHeads(place, chains);
      WindowHasRoom(Ids(completed), reaped, phase, false, h);
      CompleteWindows(submitted, fetched, Ids(completed), reaped, phase, h);
      RingPush(usedRing, completed, reaped, e);
      IdsPush(completed, e);
      WrapSlot(|completed|);
      WrapSucc(|completed|);
      usedRing := usedRing[usedIdx % QUEUE_SIZE := e];
      usedIdx := (usedIdx + 1) % WRAP;
      phase := phase[h := Done(|completed|)];
      completed := completed + [e];
    }

    // -------------------------------------------------------------------------
    // get_used

    /** The loop of get_used: follow the chain and free every descriptor of it. */
    method FreeChain(head: nat, ghost c: seq<nat>)
      requires |freeDesc| == QUEUE_SIZE && |c| > 0 && c[0] == head && Linked(desc, c)
      modifies this`freeDesc
      ensures |freeDesc| == QUEUE_SIZE
      ensures forall d :: 0 <= d < QUEUE_SIZE ==> freeDesc[d] == (old(freeDesc)[d] || d in c)
    {
      var descIdx := head;
      ghost var j := 0;
      var hasNext := true;
      while hasNext
        invariant |freeDesc| == QUEUE_SIZE && 0 <= j <= |c|
        invariant hasNext <==> j < |c|
        invariant hasNext ==> descIdx == c[j]
        invariant forall d :: 0 <= d < QUEUE_SIZE ==> freeDesc[d] == (old(freeDesc)[d] || d in c[..j])
        decreases |c| - j
      {
        var d := desc[descIdx];
        freeDesc := freeDesc[descIdx := true];
        assert c[..j + 1] == c[..j] + [c[j]];
        j := j + 1;
        hasNext := d.hasNext;
        descIdx := d.next;
      }
      assert c[..|c|] == c;
    }

    /** get_used: None when every completion has been reaped; otherwise the oldest
        completion, whose chain and nothing else goes back to the pool. */
    method GetUsed() returns (r: Option<UsedElem>)
      requires Valid()
      modifies this
      ensures Valid() && submitted == old(submitted) && fetched == old(fetched) && completed == old(completed)
      ensures r == if old(reaped) < |completed| then Some(completed[old(reaped)]) else None
      ensures r.None? ==> place == old(place) && chains == old(chains) && reaped == old(reaped) && phase == old(phase)
      ensures r.Some? ==>
                && r.value.id in old(chains) && reaped == old(reaped) + 1
                && place == Assign(old(place), old(chains)[r.value.id], Free)
                && chains == old(chains) - {r.value.id} && phase == old(phase) - {r.value.id}
    {
      hide Placed, ChainsOk, AllLinked, Linked, Assign, Window, Shows;
      ChainHeads(place, chains);
      WindowBound(Ids(completed), reaped, phase, false);
      WrapEqual(reaped, |completed|);
      if lastUsedIdx == usedIdx {
        return None;
      }
      WrapSlot(reaped);
      WrapSucc(reaped);
      ShowsFirst(usedRing, completed, reaped);
      var elem := usedRing[lastUsedIdx % QUEUE_SIZE];
      lastUsedIdx := (lastUsedIdx + 1) % WRAP;
      ReapWindows(submitted, fetched, Ids(completed), reaped, phase);
      ghost var c := chains[elem.id];
      ChainIsLinked(desc, place, chains, elem.id);
      ReleaseChains(place, chains, elem.id);
      FreeChain(elem.id, c);
      PlacedFree(old(freeDesc), freeDesc, place, c);
      FewerLinked(desc, chains, elem.id);
      place := Assign(place, c, Free);
      chains := chains - {elem.id};
      phase := phase - {elem.id};
      reaped := reaped + 1;
      ShowsRest(usedRing, completed, reaped - 1);
      return Some(elem);
    }
  }

  /** Moving a descriptor between the pool and the caller touches no chain. */
  lemma HoldKeepsChains(place: seq<Owner>, chains: map<nat, seq<nat>>, d: nat, o: Owner)
    requires |place| == QUEUE_SIZE && ChainsOk(place, chains) && d < QUEUE_SIZE && !place[d].Chain? && !o.Chain?
    ensures ChainsOk(place[d := o], chains)
  {
    hide IsChain;
    forall g | g in chains
      ensures IsChain(place[d := o], g, chains[g])
    {
      assert IsChain(place, g, chains[g]);
      OtherPlace(place, d, o, g, chains[g]);
    }
  }

  lemma OtherPlace(place: seq<Owner>, d: nat, o: Owner, h: nat, c: seq<nat>)
    requires |place| == QUEUE_SIZE && IsChain(place, h, c) && d < QUEUE_SIZE && !place[d].Chain? && !o.Chain?
    ensures IsChain(place[d := o], h, c)
  {
  }

  // ---------------------------------------------------------------------------
  // Small facts about places, chains and rings

  predicate BadBuffer(b: Buffer) { b.len == 0 || b.addr == 0 }

  /** The number of descriptors in the pool. */
  function FreeCount(place: seq<Owner>): nat {
    |set d | 0 <= d < |place| && place[d] == Free|
  }

  lemma NoneFree(place: seq<Owner>)
    requires forall d :: 0 <= d < |place| ==> place[d] != Free
    ensures FreeCount(place) == 0
  {
    assert (set d | 0 <= d < |place| && place[d] == Free) == {};
  }

  lemma TakeOne(place: seq<Owner>, d: nat)
    requires d < |place| && place[d] == Free
    ensures FreeCount(place[d := Held]) == FreeCount(place) - 1
  {
    var place' := place[d := Held];
    var before := set e | 0 <= e < |place| && place[e] == Free;
    var after := set e | 0 <= e < |place'| && place'[e] == Free;
    assert before == after + {d} && d !in after;
  }

  lemma AssignNone(place: seq<Owner>, o: Owner)
    requires |place| == QUEUE_SIZE
    ensures Assign(place, [], o) == place
  {
  }

  lemma AssignMore(place: seq<Owner>, c: seq<nat>, d: nat)
    requires |place| == QUEUE_SIZE && d < QUEUE_SIZE
    ensures Assign(place, c + [d], Held) == Assign(place, c, Held)[d := Held]
  {
  }

  lemma AssignLess(was: seq<Owner>, c: seq<nat>, j: nat)
    requires |was| == QUEUE_SIZE && j < |c| && c[j] < QUEUE_SIZE && was[c[j]] == Free
    requires forall k :: j < k < |c| ==> c[k] != c[j]
    ensures Assign(was, c[j..], Held)[c[j] := Free] == Assign(was, c[j + 1..], Held)
  {
    assert c[j..] == [c[j]] + c[j + 1..];
    assert c[j] !in c[j + 1..];
  }

  lemma AssignTwice(was: seq<Owner>, c: seq<nat>, head: nat)
    requires |was| == QUEUE_SIZE && |c| > 0 && c[0] == head
    ensures Assign(Assign(was, c[1..], Held), c, Chain(head)) == Assign(was, c, Chain(head))
  {
    assert c == [c[0]] + c[1..];
  }

  lemma PlacedChain(free: seq<bool>, place: seq<Owner>, c: seq<nat>)
    requires Placed(free, place) && |c| > 0 && AllHeld(place, c)
    ensures Placed(free, Assign(place, c, Chain(c[0])))
  {
  }

  lemma PlacedFree(free: seq<bool>, free': seq<bool>, place: seq<Owner>, c: seq<nat>)
    requires Placed(free, place) && |free'| == QUEUE_SIZE
    requires forall d :: 0 <= d < QUEUE_SIZE ==> free'[d] == (free[d] || d in c)
    ensures Placed(free', Assign(place, c, Free))
  {
  }

  /** What add_buf stores for buffer `k`. */
  function Filled(indices: seq<nat>, buffers: seq<Buffer>, k: nat): Desc
    requires |indices| == |buffers| && k < |buffers|
  {
    Desc(buffers[k].addr, buffers[k].len, buffers[k].writable, k < |buffers| - 1,
         if k < |buffers| - 1 then indices[k + 1] else 0)
  }

  lemma FilledIsLinked(desc: seq<Desc>, c: seq<nat>, buffers: seq<Buffer>)
    requires |desc| == QUEUE_SIZE && |c| == |buffers| && forall k :: 0 <= k < |c| ==> c[k] < QUEUE_SIZE
    requires forall k :: 0 <= k < |c| ==> desc[c[k]] == Filled(c, buffers, k)
    ensures Linked(desc, c) && Describes(desc, c, buffers)
  {
  }

  /** Descriptor k of the chain describes buffer k. */
  ghost predicate Describes(desc: seq<Desc>, c: seq<nat>, buffers: seq<Buffer>) {
    |desc| == QUEUE_SIZE && |c| == |buffers| &&
    forall k :: 0 <= k < |c| ==>
      c[k] < QUEUE_SIZE && Buffer(desc[c[k]].addr, desc[c[k]].len, desc[c[k]].writable) == buffers[k]
  }

  lemma HeadInRange(place: seq<Owner>, c: seq<nat>)
    requires |place| == QUEUE_SIZE && |c| > 0 && AllHeld(place, c)
    ensures c[0] < QUEUE_SIZE
  {
  }

  lemma ChainHeads(place: seq<Owner>, chains: map<nat, seq<nat>>)
    requires |place| == QUEUE_SIZE && ChainsOk(place, chains)
    ensures forall h :: h in chains ==> h < QUEUE_SIZE
  {
    forall h | h in chains
      ensures h < QUEUE_SIZE
    {
      assert IsChain(place, h, chains[h]);
    }
  }

  lemma ChainIsLinked(desc: seq<Desc>, place: seq<Owner>, chains: map<nat, seq<nat>>, h: nat)
    requires |place| == QUEUE_SIZE && ChainsOk(place, chains) && AllLinked(desc, chains) && h in chains
    ensures |chains[h]| > 0 && chains[h][0] == h && Linked(desc, chains[h])
  {
    assert IsChain(place, h, chains[h]);
  }

  lemma FewerLinked(desc: seq<Desc>, chains: map<nat, seq<nat>>, h: nat)
    requires AllLinked(desc, chains)
    ensures AllLinked(desc, chains - {h})
  {
  }

  lemma WindowBound(log: seq<nat>, from: nat, phase: map<nat, Phase>, offered: bool)
    requires Window(log, from, phase, offered) && forall g :: g in phase ==> g < QUEUE_SIZE
    ensures from <= |log| <= from + QUEUE_SIZE
  {
    var s := log[from..];
    forall k | 0 <= k < |s|
      ensures s[k] < QUEUE_SIZE
    {
      assert s[k] == log[from + k];
    }
    forall j, k | 0 <= j < k < |s|
      ensures s[j] != s[k]
    {
      assert s[j] == log[from + j] && s[k] == log[from + k];
    }
    Pigeonhole(s, QUEUE_SIZE);
  }

  lemma ShowsFirst<T>(ring: seq<T>, log: seq<T>, from: nat)
    requires Shows(ring, log, from) && from < |log|
    ensures |ring| == QUEUE_SIZE && ring[from % QUEUE_SIZE] == log[from]
  {
  }

  lemma ShowsRest<T>(ring: seq<T>, log: seq<T>, from: nat)
    requires Shows(ring, log, from) && from < |log|
    ensures Shows(ring, log, from + 1)
  {
  }

  // ---------------------------------------------------------------------------
  // Layout and queue size

  /** size_requirements: descriptor table size, and the offsets of the two rings. */
  function SizeRequirements(n: nat): (nat, nat, nat) {
    (16 * n, 16 * n, AlignUp(16 * n + (6 + 2 * n), 4))
  }

  /** For every size up to 128 the three areas lie in order in one page, apart and
      aligned, so new never rejects such a size for its length. */
  lemma AreasFitOnePage(n: nat)
    requires 0 < n <= QUEUE_SIZE
    ensures var (desc, avail, used) := SizeRequirements(n);
            desc <= avail && avail + 6 + 2 * n <= used && avail % 2 == 0 && used % 4 == 0 && used + 6 + 8 * n <= 4096
  {
  }

  const AVAIL_BYTES := 262
  const USED_BYTES := 1032

  /** The driver works on arrays of 128 elements whatever the queue size: 2048 bytes of
      descriptors and rings of 128 slots. They lie apart exactly for a queue of 128. */
  lemma DriverArraysApartIff(n: nat)
    requires 0 < n <= QUEUE_SIZE
    ensures var (desc, avail, used) := SizeRequirements(n);
            (16 * QUEUE_SIZE <= avail && avail + AVAIL_BYTES <= used && used + USED_BYTES <= 4096 <==> n == QUEUE_SIZE)
  {
  }

  /** The driver takes ring slots modulo 128 and the device modulo the queue size: they
      agree on every index exactly when the queue has 128 descriptors. */
  lemma RingSlotAgrees(n: nat)
    requires 0 < n <= QUEUE_SIZE
    ensures (forall i: nat :: i % QUEUE_SIZE == i % n) <==> n == QUEUE_SIZE
  {
    if n < QUEUE_SIZE {
      assert n % QUEUE_SIZE == n && n % n == 0;
    }
  }
}
