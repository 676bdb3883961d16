/** The run queues of one CPU in kernel/src/process/scheduler.rs: five priority classes,
    class 4 being Dream, and a bitmap of the classes that have a process queued. */
module RunQueues {
  import opened Common

  const CLASSES := 5
  const DREAM := 4

  type Queues = q: seq<seq<nat>> | |q| == CLASSES witness seq(CLASSES, _ => [])

  // ---------------------------------------------------------------------------
  // The bitmap, a u8

  function Mask(i: nat): bv8
    requires i < CLASSES
  {
    if i == 0 then 1 else if i == 1 then 2 else if i == 2 then 4 else if i == 3 then 8 else 16
  }

  predicate Has(bm: bv8, i: nat)
    requires i < CLASSES
  {
    bm & Mask(i) != 0
  }

  /** trailing_zeros of a u8. */
  function TrailingZeros(bm: bv8): nat {
    if bm & 1 != 0 then 0 else if bm & 2 != 0 then 1 else if bm & 4 != 0 then 2 else if bm & 8 != 0 then 3
    else if bm & 16 != 0 then 4 else if bm & 32 != 0 then 5 else if bm & 64 != 0 then 6
    else if bm & 128 != 0 then 7 else 8
  }

  lemma SetBit(bm: bv8, i: nat, j: nat)
    requires i < CLASSES && j < CLASSES
    ensures Has(bm | Mask(i), j) <==> i == j || Has(bm, j)
    ensures (bm | Mask(i)) & 0xE0 == bm & 0xE0
  {
  }

  lemma ClearBit(bm: bv8, i: nat, j: nat)
    requires i < CLASSES && j < CLASSES
    ensures Has(bm & !Mask(i), j) <==> i != j && Has(bm, j)
    ensures (bm & !Mask(i)) & 0xE0 == bm & 0xE0
  {
  }

  /** Without stray high bits the lowest set bit is the first class with a bit. */
  lemma LowestBit(bm: bv8)
    requires bm & 0xE0 == 0
    ensures bm == 0 <==> TrailingZeros(bm) >= CLASSES
    ensures forall j :: 0 <= j < CLASSES && j < TrailingZeros(bm) ==> !Has(bm, j)
    ensures TrailingZeros(bm) < CLASSES ==> Has(bm, TrailingZeros(bm))
  {
  }

  // ---------------------------------------------------------------------------
  // Queues and bitmap

  /** A bit is set exactly when its queue is not empty, and no queue repeats a process. */
  ghost predicate Good(qs: Queues, bm: bv8) {
    && bm & 0xE0 == 0
    && (forall i :: 0 <= i < CLASSES ==> (Has(bm, i) <==> qs[i] != []))
    && (forall i :: 0 <= i < CLASSES ==> NoDup(qs[i]))
  }

  /** PriorityQueue::push. */
  function Pushed(q: seq<nat>, pid: nat): seq<nat> { if pid in q then q else q + [pid] }

  /** PriorityQueue::remove. */
  function Removed(q: seq<nat>, pid: nat): seq<nat> {
    if q == [] then []
    else if q[|q| - 1] == pid then Removed(q[..|q| - 1], pid)
    else Removed(q[..|q| - 1], pid) + [q[|q| - 1]]
  }

  lemma {:induction false} RemovedIs(q: seq<nat>, pid: nat)
    ensures forall p :: p in Removed(q, pid) <==> p in q && p != pid
    ensures NoDup(q) ==> NoDup(Removed(q, pid))
    ensures pid !in q ==> Removed(q, pid) == q
  {
    if q != [] {
      var init, last := q[..|q| - 1], q[|q| - 1];
      RemovedIs(init, pid);
      assert q == init + [last];
      assert NoDup(q) ==> last !in init;
    }
  }

  /** The others keep their order. */
  lemma {:induction false} RemovedInOrder(q: seq<nat>, i: nat)
    requires NoDup(q) && i < |q|
    ensures Removed(q, q[i]) == q[..i] + q[i + 1..]
    decreases |q|
  {
    var init, last, pid := q[..|q| - 1], q[|q| - 1], q[i];
    if i == |q| - 1 {
      assert pid !in init;
      RemovedIs(init, pid);
      assert q[i + 1..] == [] && q[..i] + [] == init;
    } else {
      RemovedInOrder(init, i);
      assert init[..i] == q[..i] && init[i + 1..] + [last] == q[i + 1..];
      assert q[..i] + init[i + 1..] + [last] == q[..i] + q[i + 1..];
    }
  }

  /** The best class with a process queued, by looking at every queue. */
  function Best(qs: Queues): (i: nat)
    ensures i <= CLASSES && (forall j :: 0 <= j < i ==> qs[j] == []) && (i < CLASSES ==> qs[i] != [])
  {
    if qs[0] != [] then 0 else if qs[1] != [] then 1 else if qs[2] != [] then 2
    else if qs[3] != [] then 3 else if qs[4] != [] then 4 else CLASSES
  }

  /** Whether a process may be taken: Dream only when the system is idle. */
  predicate Ready(qs: Queues, idle: bool) {
    Best(qs) < DREAM || (Best(qs) == DREAM && idle)
  }

  class CpuScheduler {
    var queues: Queues
    var bitmap: bv8
    var current: Option<nat>
    var slice: nat

    constructor ()
      ensures Good(queues, bitmap) && (forall i :: 0 <= i < CLASSES ==> queues[i] == [])
      ensures current == None && slice == 0
    {
      queues, bitmap := [[], [], [], [], []], 0;
      current, slice := None, 0;
    }

    method Enqueue(pid: nat, class_: nat)
      requires Good(queues, bitmap) && class_ < CLASSES
      modifies `queues, `bitmap
      ensures Good(queues, bitmap)
      ensures queues == old(queues)[class_ := Pushed(old(queues)[class_], pid)]
    {
      hide Mask, Has;
      forall j: nat | j < CLASSES
        ensures Has(bitmap | Mask(class_), j) <==> class_ == j || Has(bitmap, j)
        ensures (bitmap | Mask(class_)) & 0xE0 == bitmap & 0xE0
      {
        SetBit(bitmap, class_, j);
      }
      assert (bitmap | Mask(class_)) & 0xE0 == 0 by {
        SetBit(bitmap, class_, 0);
      }
      queues := queues[class_ := Pushed(queues[class_], pid)];
      bitmap := bitmap | Mask(class_);
    }

    method Dequeue(pid: nat)
      requires Good(queues, bitmap)
      modifies `queues, `bitmap
      ensures Good(queues, bitmap)
      ensures forall i :: 0 <= i < CLASSES ==> queues[i] == Removed(old(queues)[i], pid)
    {
      hide Mask, Has;
      for k := 0 to CLASSES
        invariant Good(queues, bitmap)
        invariant forall i :: 0 <= i < k ==> queues[i] == Removed(old(queues)[i], pid)
        invariant forall i :: k <= i < CLASSES ==> queues[i] == old(queues)[i]
      {
        RemovedIs(queues[k], pid);
        TakeFrom(k, Removed(queues[k], pid));
      }
    }

    /** Replace a queue by a part of it, clearing its bit when nothing is left. */
    method TakeFrom(k: nat, q: seq<nat>)
      requires Good(queues, bitmap) && k < CLASSES && NoDup(q) && (q != [] ==> queues[k] != [])
      modifies `queues, `bitmap
      ensures Good(queues, bitmap) && queues == old(queues)[k := q]
    {
      hide Mask, Has;
      queues := queues[k := q];
      if queues[k] == [] {
        forall j: nat | j < CLASSES
          ensures Has(bitmap & !Mask(k), j) <==> k != j && Has(bitmap, j)
        {
          ClearBit(bitmap, k, j);
        }
        assert (bitmap & !Mask(k)) & 0xE0 == 0 by {
          ClearBit(bitmap, k, 0);
        }
        bitmap := bitmap & !Mask(k);
      }
    }

    /** The bitmap search takes the head of the best class, as a linear search would. */
    method PickNext(idle: bool) returns (r: Option<nat>)
      requires Good(queues, bitmap)
      modifies `queues, `bitmap
      ensures Good(queues, bitmap)
      ensures r.Some? <==> Ready(old(queues), idle)
      ensures r.Some? ==>
                var i := Best(old(queues));
                r.value == old(queues)[i][0] && queues == old(queues)[i := old(queues)[i][1..]]
      ensures r.None? ==> queues == old(queues)
    {
      hide Mask, Has;
      LowestBit(bitmap);
      if bitmap == 0 {
        return None;
      }
      var i := TrailingZeros(bitmap);
      if i >= CLASSES {
        return None;
      }
      assert i == Best(queues);
      if i == DREAM && !idle {
        return None;
      }
      r := Some(queues[i][0]);
      TakeFrom(i, queues[i][1..]);
    }

    method TotalLoad() returns (n: nat)
      ensures n == Load(queues)
    {
      n := 0;
      for i := 0 to CLASSES
        invariant n == LoadTo(queues, i)
      {
        n := n + |queues[i]|;
      }
    }
  }

  function LoadTo(qs: Queues, k: nat): nat
    requires k <= CLASSES
  {
    if k == 0 then 0 else LoadTo(qs, k - 1) + |qs[k - 1]|
  }

  function Load(qs: Queues): nat { LoadTo(qs, CLASSES) }

  lemma {:induction false} LoadZero(qs: Queues, k: nat)
    requires k <= CLASSES
    ensures LoadTo(qs, k) == 0 <==> forall i :: 0 <= i < k ==> qs[i] == []
  {
    if k > 0 {
      LoadZero(qs, k - 1);
    }
  }
}
