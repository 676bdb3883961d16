/** The readers-writer spin lock of kernel/src/sync/mod.rs as a step system: any
    number of threads, interleaved at single atomic operations under sequential
    consistency. Readers increment first and back off later. */
module RwLock {

  /** Where a thread stands in read(), write() or between calls. A read guard
      remembers the data it saw when it was granted; a write guard remembers what it
      saw or stored last. */
  datatype Pc =
    | Idle
    | SpinRead
    | Increment
    | CheckWriter
    | BackOff
    | Reading(seen: int)
    | TryWrite
    | SpinWrite
    | Drain
    | Writing(last: int)

  datatype State = State(readers: nat, writer: bool, data: int, threads: map<nat, Pc>)

  /** The thread has been counted in `readers`. */
  predicate Counted(pc: Pc) { pc.CheckWriter? || pc.BackOff? || pc.Reading? }

  /** The thread has set `writer`. */
  predicate Owner(pc: Pc) { pc.Drain? || pc.Writing? }

  function Readers(threads: map<nat, Pc>): set<nat> {
    set t | t in threads && Counted(threads[t])
  }

  function Move(s: State, t: nat, pc: Pc): State
    requires t in s.threads
  {
    s.(threads := s.threads[t := pc])
  }

  // ---------------------------------------------------------------------------
  // Steps

  ghost predicate ReadStep(s: State, t: nat, s': State)
    requires t in s.threads
  {
    match s.threads[t]
    case Idle => s' == Move(s, t, SpinRead)
    case SpinRead => s' == (if s.writer then s else Move(s, t, Increment))
    case Increment => s' == Move(s, t, CheckWriter).(readers := s.readers + 1)
    case CheckWriter => s' == (if s.writer then Move(s, t, BackOff) else Move(s, t, Reading(s.data)))
    case BackOff => s.readers > 0 && s' == Move(s, t, SpinRead).(readers := s.readers - 1)
    case Reading(_) => s.readers > 0 && s' == Move(s, t, Idle).(readers := s.readers - 1)
    case _ => false
  }

  /** compare_exchange_weak may fail although the flag is clear. */
  ghost predicate WriteStep(s: State, t: nat, value: int, s': State)
    requires t in s.threads
  {
    match s.threads[t]
    case Idle => s' == Move(s, t, TryWrite)
    case TryWrite =>
      || (!s.writer && s' == Move(s, t, Drain).(writer := true))
      || s' == Move(s, t, SpinWrite)
    case SpinWrite => s' == (if s.writer then s else Move(s, t, TryWrite))
    case Drain => s' == (if s.readers != 0 then s else Move(s, t, Writing(s.data)))
    case Writing(_) =>
      || s' == Move(s, t, Writing(value)).(data := value)
      || s' == Move(s, t, Idle).(writer := false)
    case _ => false
  }

  ghost predicate ThreadStep(s: State, t: nat, value: int, s': State) {
    t in s.threads && (ReadStep(s, t, s') || WriteStep(s, t, value, s'))
  }

  ghost predicate Next(s: State, s': State) {
    exists t, value :: ThreadStep(s, t, value, s')
  }

  ghost predicate Init(s: State) {
    s.readers == 0 && !s.writer && forall t :: t in s.threads ==> s.threads[t] == Idle
  }

  /** The states a run passes through. */
  ghost predicate IsRun(run: seq<State>) {
    && |run| > 0 && Init(run[0])
    && forall i :: 0 <= i < |run| - 1 ==> Next(run[i], run[i + 1])
  }

  // ---------------------------------------------------------------------------
  // Invariant

  ghost predicate OneOwner(s: State) {
    && (forall t :: t in s.threads && Owner(s.threads[t]) ==> s.writer)
    && (s.writer ==> exists t :: t in s.threads && Owner(s.threads[t]))
    && (forall t, u :: t in s.threads && u in s.threads && Owner(s.threads[t]) && Owner(s.threads[u]) ==> t == u)
  }

  /** No read guard beside a write guard, and guards see stable data. */
  ghost predicate Exclusive(s: State) {
    && (forall t, u :: t in s.threads && u in s.threads && s.threads[t].Writing? ==> !s.threads[u].Reading?)
    && (forall t :: t in s.threads && s.threads[t].Reading? ==> s.threads[t].seen == s.data)
    && (forall t :: t in s.threads && s.threads[t].Writing? ==> s.threads[t].last == s.data)
  }

  ghost predicate Inv(s: State) {
    s.readers == |Readers(s.threads)| && OneOwner(s) && Exclusive(s)
  }

  lemma ReadersMove(threads: map<nat, Pc>, t: nat, pc: Pc)
    requires t in threads
    ensures |Readers(threads[t := pc])| ==
            |Readers(threads)| + (if Counted(pc) then 1 else 0) - (if Counted(threads[t]) then 1 else 0)
  {
    var before, after := Readers(threads), Readers(threads[t := pc]);
    if Counted(pc) {
      assert after == before + {t};
    } else {
      assert after == before - {t};
    }
  }

  lemma NoReaders(s: State)
    requires |Readers(s.threads)| == 0
    ensures forall u :: u in s.threads ==> !s.threads[u].Reading?
  {
    assert forall u :: u in s.threads && s.threads[u].Reading? ==> u in Readers(s.threads);
  }

  lemma SameOwners(s: State, s': State)
    requires OneOwner(s) && s'.writer == s.writer && s'.threads.Keys == s.threads.Keys
    requires forall u :: u in s.threads ==> Owner(s'.threads[u]) == Owner(s.threads[u])
    ensures OneOwner(s')
  {
    if s.writer {
      var o :| o in s.threads && Owner(s.threads[o]);
      assert o in s'.threads && Owner(s'.threads[o]);
    }
  }

  /** Only thread `t` moved. */
  ghost predicate OneMoved(s: State, t: nat, s': State) {
    t in s.threads && t in s'.threads && s'.threads == s.threads[t := s'.threads[t]]
  }

  /** A thread that moves to or from waiting, or to a guard on unchanged data that excludes no
      other, keeps guards exclusive. */
  lemma ExclusiveMove(s: State, t: nat, s': State)
    requires Exclusive(s) && OneMoved(s, t, s') && s'.data == s.data
    requires var pc := s'.threads[t];
             && (pc.Reading? ==> pc.seen == s.data && forall u :: u in s.threads && u != t ==> !s.threads[u].Writing?)
             && (pc.Writing? ==> pc.last == s.data && forall u :: u in s.threads && u != t ==> !s.threads[u].Reading?)
    ensures Exclusive(s')
  {
  }

  lemma ReadStepKeepsInv(s: State, t: nat, s': State)
    requires Inv(s) && t in s.threads && ReadStep(s, t, s')
    ensures Inv(s')
  {
    if s' != s {
      var pc := s'.threads[t];
      ReadersMove(s.threads, t, pc);
      if pc.Reading? {
        NoOwnerNoWriter(s);
      }
      hide Readers, OneOwner, Exclusive;
      assert OneMoved(s, t, s');
      SameOwners(s, s');
      ExclusiveMove(s, t, s');
    }
  }

  lemma NoOwnerNoWriter(s: State)
    requires OneOwner(s) && !s.writer
    ensures forall u :: u in s.threads ==> !s.threads[u].Writing?
  {
  }

  /** The flag was set, kept or cleared by thread `t`. */
  lemma OwnerMove(s: State, t: nat, s': State)
    requires OneOwner(s) && OneMoved(s, t, s')
    requires s'.writer == (Owner(s'.threads[t]) || (s.writer && !Owner(s.threads[t])))
    requires Owner(s'.threads[t]) ==> Owner(s.threads[t]) || !s.writer
    ensures OneOwner(s')
  {
    hide Owner;
    if s'.writer && !Owner(s'.threads[t]) {
      var o :| o in s.threads && Owner(s.threads[o]);
      assert o in s'.threads && Owner(s'.threads[o]);
    }
  }

  /** A store under the only guard. */
  lemma ExclusiveStore(s: State, t: nat, value: int)
    requires Exclusive(s) && OneOwner(s) && t in s.threads && s.threads[t].Writing?
    ensures Exclusive(Move(s, t, Writing(value)).(data := value))
  {
    assert Owner(s.threads[t]);
    assert forall u :: u in s.threads && s.threads[u].Writing? ==> Owner(s.threads[u]);
  }

  lemma WriteStepKeepsInv(s: State, t: nat, value: int, s': State)
    requires Inv(s) && t in s.threads && WriteStep(s, t, value, s')
    ensures Inv(s')
  {
    if s' != s {
      var pc := s'.threads[t];
      ReadersMove(s.threads, t, pc);
      if s.threads[t].Drain? {
        NoReaders(s);
      }
      assert Owner(s.threads[t]) ==> s.writer;
      hide Readers, OneOwner, Exclusive;
      assert OneMoved(s, t, s');
      OwnerMove(s, t, s');
      if s.threads[t].Writing? && pc.Writing? {
        ExclusiveStore(s, t, pc.last);
      } else {
        ExclusiveMove(s, t, s');
      }
    }
  }

  /** Every state of every run satisfies the invariant. */
  lemma {:induction false} RunKeepsInv(run: seq<State>, i: nat)
    requires IsRun(run) && i < |run|
    ensures Inv(run[i])
  {
    if i == 0 {
      assert Readers(run[0].threads) == {};
    } else {
      RunKeepsInv(run, i - 1);
      var s, s' := run[i - 1], run[i - 1 + 1];
      assert Next(s, s');
      var t, value :| ThreadStep(s, t, value, s');
      if ReadStep(s, t, s') {
        ReadStepKeepsInv(s, t, s');
      } else {
        WriteStepKeepsInv(s, t, value, s');
      }
    }
  }

  // ---------------------------------------------------------------------------
  // What the lock promises

  /** A write guard never coexists with a read guard or another write guard. */
  lemma Exclusion(run: seq<State>, i: nat, t: nat, u: nat)
    requires IsRun(run) && i < |run| && t != u && t in run[i].threads && u in run[i].threads
    requires run[i].threads[t].Writing?
    ensures !run[i].threads[u].Reading? && !run[i].threads[u].Writing?
  {
    RunKeepsInv(run, i);
  }

  lemma StableStep(s: State, s': State, t: nat)
    requires Inv(s) && Next(s, s') && t in s.threads && s.threads[t].Reading?
    ensures s'.data == s.data
  {
    var v, value :| ThreadStep(s, v, value, s');
    assert !s.threads[v].Writing?;
  }

  /** While a thread keeps a read guard, the data stays what it saw at the grant. */
  lemma {:induction false} ReadGuardIsStable(run: seq<State>, i: nat, j: nat, t: nat)
    requires IsRun(run) && i <= j < |run|
    requires forall k :: i <= k <= j ==> t in run[k].threads && run[k].threads[t].Reading?
    ensures run[j].data == run[i].data
  {
    if i < j {
      ReadGuardIsStable(run, i, j - 1, t);
      RunKeepsInv(run, j - 1);
      RunKeepsInv(run, j);
      assert Next(run[j - 1], run[j - 1 + 1]);
      StableStep(run[j - 1], run[j], t);
    }
  }

  /** When every thread is idle the lock is back in its initial state: backing off
      never leaks a reader count. */
  lemma QuiescentIsFresh(run: seq<State>, i: nat)
    requires IsRun(run) && i < |run| && forall t :: t in run[i].threads ==> run[i].threads[t] == Idle
    ensures run[i].readers == 0 && !run[i].writer
  {
    RunKeepsInv(run, i);
    assert Readers(run[i].threads) == {};
  }

  /** read() and write() come back only with a guard: a thread that becomes idle gives one up,
      and a guard is only taken on the way in. */
  lemma OnlyGuardsReturn(s: State, t: nat, value: int, s': State)
    requires ThreadStep(s, t, value, s') && s' != s
    ensures s'.threads == s.threads[t := s'.threads[t]]
    ensures s'.threads[t] == Idle ==> s.threads[t].Reading? || s.threads[t].Writing?
    ensures s'.threads[t].Reading? ==> s.threads[t] == CheckWriter && s'.threads[t].seen == s.data
    ensures s'.threads[t].Writing? ==> s.threads[t] == Drain || s.threads[t].Writing?
    ensures s'.data != s.data ==> s.threads[t].Writing? && s'.threads[t] == Writing(s'.data)
  {
  }

  /** The lock cannot hang: while some thread is inside read() or write(), or holds a guard,
      one of these threads has a step that changes the state. */
  lemma SomeoneCanMove(run: seq<State>, i: nat, any: nat)
    requires IsRun(run) && i < |run| && any in run[i].threads && run[i].threads[any] != Idle
    ensures exists t, s' :: ThreadStep(run[i], t, 0, s') && run[i].threads[t] != Idle && s' != run[i]
  {
    RunKeepsInv(run, i);
    var s := run[i];
    if t :| t in Readers(s.threads) {
      CountedMoves(s, t);
    } else if t :| t in s.threads && Owner(s.threads[t]) {
      assert Readers(s.threads) == {};
      OwnerMoves(s, t);
    } else {
      assert any !in Readers(s.threads);
      FreeMoves(s, any);
    }
  }

  /** The step moves thread `t` to a place it was not at. */
  lemma MoveChanges(s: State, t: nat, pc: Pc)
    requires t in s.threads && s.threads[t] != pc
    ensures Move(s, t, pc).threads != s.threads
  {
    assert Move(s, t, pc).threads[t] == pc;
  }

  /** A thread that is counted always has a step. */
  lemma CountedMoves(s: State, t: nat)
    requires Inv(s) && t in Readers(s.threads)
    ensures exists s' :: ThreadStep(s, t, 0, s') && s' != s
  {
    assert s.readers > 0;
    var pc := s.threads[t];
    var s' := if pc.CheckWriter? then Move(s, t, if s.writer then BackOff else Reading(s.data))
              else Move(s, t, if pc.BackOff? then SpinRead else Idle).(readers := s.readers - 1);
    MoveChanges(s, t, s'.threads[t]);
    assert ReadStep(s, t, s');
    assert ThreadStep(s, t, 0, s');
  }

  /** The owner of the flag has a step once no thread is counted. */
  lemma OwnerMoves(s: State, t: nat)
    requires s.readers == 0 && t in s.threads && Owner(s.threads[t])
    ensures exists s' :: ThreadStep(s, t, 0, s') && s' != s
  {
    var s' := if s.threads[t].Drain? then Move(s, t, Writing(s.data)) else Move(s, t, Idle).(writer := false);
    MoveChanges(s, t, s'.threads[t]);
    assert WriteStep(s, t, 0, s');
    assert ThreadStep(s, t, 0, s');
  }

  /** With the flag clear, a thread on its way in has a step. */
  lemma FreeMoves(s: State, t: nat)
    requires !s.writer && t in s.threads && s.threads[t] != Idle && !Counted(s.threads[t]) && !Owner(s.threads[t])
    ensures exists s' :: ThreadStep(s, t, 0, s') && s' != s
  {
    var pc := s.threads[t];
    var s' := if pc.SpinRead? then Move(s, t, Increment)
              else if pc.Increment? then Move(s, t, CheckWriter).(readers := s.readers + 1)
              else if pc.SpinWrite? then Move(s, t, TryWrite)
              else Move(s, t, Drain).(writer := true);
    MoveChanges(s, t, s'.threads[t]);
    assert ReadStep(s, t, s') || WriteStep(s, t, 0, s');
    assert ThreadStep(s, t, 0, s');
  }
}
