/** The reusable barrier of kernel/src/sync/mod.rs as a step system over exactly
    `threshold` threads, with the generation counter wrapping like a usize. */
module Barrier {
  import opened Common

  const WORD := 0x1_0000_0000_0000_0000

  /** Where a thread stands in wait(). */
  datatype Pc = Idle | Loaded(gen: nat) | Waiting(gen: nat) | Resetting | Advancing

  /** `arrived` and `left` count the fetch_adds and the returns of the thread. */
  datatype Thread = Thread(pc: Pc, arrived: nat, left: nat)

  /** `round` is the number of generation advances, without wrap-around. */
  datatype State = State(threshold: nat, count: nat, generation: nat, round: nat, threads: map<nat, Thread>)

  function Arrived(threads: map<nat, Thread>, n: nat): set<nat> {
    set t | t in threads && threads[t].arrived == n
  }

  ghost predicate Step(s: State, t: nat, s': State)
    requires t in s.threads
  {
    var th := s.threads[t];
    match th.pc
    case Idle => s' == s.(threads := s.threads[t := th.(pc := Loaded(s.generation))])
    case Loaded(gen) =>
      var last := s.count + 1 >= s.threshold;
      s' == s.(count := s.count + 1,
               threads := s.threads[t := Thread(if last then Resetting else Waiting(gen), th.arrived + 1, th.left)])
    case Resetting => s' == s.(count := 0, threads := s.threads[t := th.(pc := Advancing)])
    case Advancing =>
      s' == s.(generation := (s.generation + 1) % WORD, round := s.round + 1,
               threads := s.threads[t := Thread(Idle, th.arrived, th.left + 1)])
    case Waiting(gen) =>
      s' == if s.generation == gen then s else s.(threads := s.threads[t := Thread(Idle, th.arrived, th.left + 1)])
  }

  ghost predicate Init(s: State) {
    && s.count == 0 && s.generation == 0 && s.round == 0
    && |s.threads.Keys| == s.threshold > 0
    && forall t :: t in s.threads ==> s.threads[t] == Thread(Idle, 0, 0)
  }

  ghost predicate Next(s: State, s': State) {
    exists t :: t in s.threads && Step(s, t, s')
  }

  ghost predicate IsRun(run: seq<State>) {
    && |run| > 0 && Init(run[0])
    && forall i :: 0 <= i < |run| - 1 ==> Next(run[i], run[i + 1])
  }

  // ---------------------------------------------------------------------------
  // Invariant

  predicate Closing(th: Thread) { th.pc.Resetting? || th.pc.Advancing? }

  /** A thread in round `k` either has arrived in it, or has left the round before, or
      is about to notice that the round before is over. */
  ghost predicate InRound(th: Thread, k: nat) {
    match th.pc
    case Idle => th.arrived == k && th.left == k
    case Loaded(gen) => th.arrived == k && th.left == k && gen == k % WORD
    case Waiting(gen) =>
      || (th.arrived == k + 1 && th.left == k && gen == k % WORD)
      || (k > 0 && th.arrived == k && th.left == k - 1 && gen == (k - 1) % WORD)
    case _ => th.arrived == k + 1 && th.left == k
  }

  ghost predicate SomeAdvancing(s: State) {
    exists t :: t in s.threads && s.threads[t].pc.Advancing?
  }

  ghost predicate SomeClosing(s: State) {
    exists t :: t in s.threads && Closing(s.threads[t])
  }

  ghost predicate Rounds(s: State) {
    s.generation == s.round % WORD && forall t :: t in s.threads ==> InRound(s.threads[t], s.round)
  }

  /** At most one thread closes the round, and only after all have arrived. */
  ghost predicate OneCloser(s: State) {
    forall t, u :: t in s.threads && u in s.threads && Closing(s.threads[t]) ==>
      s.threads[u].arrived == s.round + 1 && (u != t ==> !Closing(s.threads[u]))
  }

  ghost predicate Counts(s: State) {
    && s.count == (if SomeAdvancing(s) then 0 else |Arrived(s.threads, s.round + 1)|)
    && (!SomeClosing(s) ==> s.count < s.threshold)
  }

  ghost predicate Inv(s: State) {
    |s.threads.Keys| == s.threshold > 0 && Rounds(s) && OneCloser(s) && Counts(s)
  }

  lemma InitInv(s: State)
    requires Init(s)
    ensures Inv(s)
  {
    assert Arrived(s.threads, 1) == {};
  }

  lemma AllArrived(threads: map<nat, Thread>, n: nat)
    requires |Arrived(threads, n)| >= |threads.Keys|
    ensures forall t :: t in threads ==> threads[t].arrived == n
  {
    SubsetFull(Arrived(threads, n), threads.Keys);
  }

  lemma SubsetFull(a: set<nat>, b: set<nat>)
    requires a <= b && |a| >= |b|
    ensures a == b
  {
    if x :| x in b && x !in a {
      Subset(a, b - {x});
    }
  }

  // ---------------------------------------------------------------------------
  // Steps keep the invariant

  /** Only thread `t` moved, within the same round and generation. */
  ghost predicate OneMoved(s: State, t: nat, s': State) {
    && t in s.threads && t in s'.threads && s'.threads == s.threads[t := s'.threads[t]]
    && s'.threshold == s.threshold && s'.generation == s.generation && s'.round == s.round
  }

  lemma RoundsMove(s: State, t: nat, s': State)
    requires Rounds(s) && OneMoved(s, t, s') && InRound(s'.threads[t], s.round)
    ensures Rounds(s')
  {
    hide InRound;
  }

  lemma CloserMove(s: State, t: nat, s': State)
    requires OneCloser(s) && OneMoved(s, t, s')
    requires s'.threads[t].arrived == s.threads[t].arrived && Closing(s'.threads[t]) == Closing(s.threads[t])
    ensures OneCloser(s')
  {
    hide Closing;
  }

  /** Loading the generation, or noticing that it moved on, changes no arrival. */
  lemma LocalStep(s: State, t: nat, s': State)
    requires Inv(s) && t in s.threads && Step(s, t, s') && (s.threads[t].pc.Idle? || s.threads[t].pc.Waiting?)
    ensures Inv(s')
  {
    hide Rounds, OneCloser, SomeClosing, SomeAdvancing, Arrived, Step, InRound, Closing, OneMoved;
    if s' != s {
      LocalMove(s, t, s');
      SameSize(s, t, s');
      RoundsMove(s, t, s');
      CloserMove(s, t, s');
      SameClosing(s, t, s');
      SameArrived(s, t, s');
    }
  }

  lemma LocalMove(s: State, t: nat, s': State)
    requires Rounds(s) && t in s.threads && Step(s, t, s') && (s.threads[t].pc.Idle? || s.threads[t].pc.Waiting?)
    requires s' != s
    ensures OneMoved(s, t, s') && t in s'.threads && InRound(s'.threads[t], s.round) && s'.count == s.count
    ensures s'.threads[t].arrived == s.threads[t].arrived && !Closing(s.threads[t]) && !Closing(s'.threads[t])
  {
    assert InRound(s.threads[t], s.round);
  }

  lemma SameSize(s: State, t: nat, s': State)
    requires OneMoved(s, t, s')
    ensures t in s.threads && t in s'.threads && s'.threads == s.threads[t := s'.threads[t]]
    ensures s'.threads.Keys == s.threads.Keys && s'.threshold == s.threshold && s'.round == s.round
  {
  }

  lemma SameArrived(s: State, t: nat, s': State)
    requires OneMoved(s, t, s') && s'.threads[t].arrived == s.threads[t].arrived
    ensures s'.threads.Keys == s.threads.Keys
    ensures Arrived(s'.threads, s.round + 1) == Arrived(s.threads, s.round + 1)
  {
  }

  lemma SameClosing(s: State, t: nat, s': State)
    requires t in s.threads && t in s'.threads && s'.threads == s.threads[t := s'.threads[t]]
    requires !Closing(s.threads[t]) && !Closing(s'.threads[t])
    ensures SomeClosing(s') == SomeClosing(s) && SomeAdvancing(s') == SomeAdvancing(s)
  {
    forall u | u in s.threads
      ensures Closing(s.threads[u]) == Closing(s'.threads[u])
      ensures s.threads[u].pc.Advancing? == s'.threads[u].pc.Advancing?
    {
    }
    if SomeClosing(s) {
      var u :| u in s.threads && Closing(s.threads[u]);
      assert u in s'.threads && Closing(s'.threads[u]);
    }
    if SomeAdvancing(s) {
      var u :| u in s.threads && s.threads[u].pc.Advancing?;
      assert u in s'.threads && s'.threads[u].pc.Advancing?;
    }
  }

  /** No thread can arrive while the round is being closed, so the reset to zero
      overwrites no arrival of the next round. */
  lemma NoArrivalWhileClosing(s: State, t: nat)
    requires Inv(s) && t in s.threads && (s.threads[t].pc.Idle? || s.threads[t].pc.Loaded?)
    ensures !SomeClosing(s) && !SomeAdvancing(s)
  {
    assert InRound(s.threads[t], s.round);
    assert forall u :: u in s.threads ==> !Closing(s.threads[u]);
  }

  lemma OneMoreArrived(s: State, t: nat, s': State)
    requires Inv(s) && t in s.threads && Step(s, t, s') && s.threads[t].pc.Loaded?
    ensures s'.threads.Keys == s.threads.Keys
    ensures |Arrived(s'.threads, s.round + 1)| == |Arrived(s.threads, s.round + 1)| + 1
  {
    assert InRound(s.threads[t], s.round);
    assert t !in Arrived(s.threads, s.round + 1);
    assert Arrived(s'.threads, s.round + 1) == Arrived(s.threads, s.round + 1) + {t};
  }

  /** Nobody closes the round yet. */
  lemma NobodyCloses(s: State)
    requires !SomeClosing(s)
    ensures forall u :: u in s.threads ==> !Closing(s.threads[u]) && !s.threads[u].pc.Advancing?
  {
  }

  lemma ArriveLast(s: State, t: nat, s': State)
    requires Inv(s) && t in s.threads && Step(s, t, s') && s.threads[t].pc.Loaded? && s.count + 1 >= s.threshold
    ensures Inv(s')
  {
    NoArrivalWhileClosing(s, t);
    NobodyCloses(s);
    OneMoreArrived(s, t, s');
    AllArrived(s'.threads, s.round + 1);
    assert OneMoved(s, t, s') && InRound(s.threads[t], s.round);
    hide Arrived, Rounds, OneCloser, SomeClosing, SomeAdvancing;
    RoundsMove(s, t, s');
    FirstCloser(s, t, s');
  }

  /** The last arrival is the one thread that closes the round. */
  lemma FirstCloser(s: State, t: nat, s': State)
    requires OneMoved(s, t, s') && s'.threads[t].pc.Resetting?
    requires forall u :: u in s.threads ==> !Closing(s.threads[u])
    requires forall u :: u in s'.threads ==> s'.threads[u].arrived == s.round + 1
    ensures OneCloser(s') && SomeClosing(s') && !SomeAdvancing(s')
  {
    assert Closing(s'.threads[t]);
    assert forall u :: u in s.threads && s.threads[u].pc.Advancing? ==> Closing(s.threads[u]);
  }

  lemma ArriveWait(s: State, t: nat, s': State)
    requires Inv(s) && t in s.threads && Step(s, t, s') && s.threads[t].pc.Loaded? && s.count + 1 < s.threshold
    ensures Inv(s')
  {
    hide Arrived, Rounds, OneCloser, SomeClosing, SomeAdvancing, Step, InRound, Closing, OneMoved;
    NoArrivalWhileClosing(s, t);
    OneMoreArrived(s, t, s');
    WaitMove(s, t, s');
    SameSize(s, t, s');
    RoundsMove(s, t, s');
    SameClosing(s, t, s');
    NoCloser(s');
  }

  lemma WaitMove(s: State, t: nat, s': State)
    requires Rounds(s) && t in s.threads && Step(s, t, s') && s.threads[t].pc.Loaded? && s.count + 1 < s.threshold
    ensures OneMoved(s, t, s') && t in s'.threads && InRound(s'.threads[t], s.round) && s'.count == s.count + 1
    ensures !Closing(s.threads[t]) && !Closing(s'.threads[t])
  {
    assert InRound(s.threads[t], s.round);
  }

  lemma NoCloser(s: State)
    requires !SomeClosing(s)
    ensures OneCloser(s)
  {
  }

  lemma ResetStep(s: State, t: nat, s': State)
    requires Inv(s) && t in s.threads && Step(s, t, s') && s.threads[t].pc.Resetting?
    ensures Inv(s')
  {
    assert Closing(s.threads[t]) && Closing(s'.threads[t]) && s'.threads[t].pc.Advancing?;
    assert OneMoved(s, t, s') && s'.threads.Keys == s.threads.Keys && InRound(s.threads[t], s.round);
    assert SomeClosing(s') && SomeAdvancing(s');
    hide Arrived, Rounds, OneCloser, SomeClosing, SomeAdvancing;
    RoundsMove(s, t, s');
    CloserMove(s, t, s');
  }

  lemma NextGeneration(k: nat)
    ensures (k % WORD + 1) % WORD == (k + 1) % WORD
  {
  }

  lemma AdvanceStep(s: State, t: nat, s': State)
    requires Inv(s) && t in s.threads && Step(s, t, s') && s.threads[t].pc.Advancing?
    ensures Inv(s')
  {
    assert s.count == 0 by {
      assert SomeAdvancing(s);
    }
    hide Counts, SomeAdvancing;
    NextGeneration(s.round);
    assert Closing(s.threads[t]);
    assert s'.threads.Keys == s.threads.Keys;
    forall u | u in s'.threads
      ensures InRound(s'.threads[u], s.round + 1) && !Closing(s'.threads[u]) && s'.threads[u].arrived == s.round + 1
    {
      assert InRound(s.threads[u], s.round);
    }
    assert Rounds(s');
    hide Rounds, InRound;
    FreshRound(s');
  }

  /** A round in which nobody has arrived yet. */
  lemma FreshRound(s: State)
    requires s.count == 0 && s.threshold > 0
    requires forall u :: u in s.threads ==> !Closing(s.threads[u]) && s.threads[u].arrived == s.round
    ensures Counts(s)
  {
    assert Arrived(s.threads, s.round + 1) == {};
  }

  /** Every state of every run satisfies the invariant. */
  lemma {:induction false} RunKeepsInv(run: seq<State>, i: nat)
    requires IsRun(run) && i < |run|
    ensures Inv(run[i])
  {
    if i == 0 {
      InitInv(run[0]);
    } else {
      RunKeepsInv(run, i - 1);
      var s, s' := run[i - 1], run[i - 1 + 1];
      assert Next(s, s');
      var t :| t in s.threads && Step(s, t, s');
      match s.threads[t].pc {
        case Idle => LocalStep(s, t, s');
        case Waiting(_) => LocalStep(s, t, s');
        case Loaded(_) => if s.count + 1 >= s.threshold { ArriveLast(s, t, s'); } else { ArriveWait(s, t, s'); }
        case Resetting => ResetStep(s, t, s');
        case Advancing => AdvanceStep(s, t, s');
      }
    }
  }

  // ---------------------------------------------------------------------------
  // What the barrier promises

  /** No thread returns from its k-th wait before every thread has arrived k times. */
  lemma NoEarlyLeave(run: seq<State>, i: nat, t: nat, u: nat)
    requires IsRun(run) && i < |run| && t in run[i].threads && u in run[i].threads
    ensures run[i].threads[u].arrived >= run[i].threads[t].left
  {
    RunKeepsInv(run, i);
  }

  /** Nobody runs ahead: a thread is at most one arrival past any other thread's
      arrivals, and at most two waits past its returns. */
  lemma RoundsStayTogether(run: seq<State>, i: nat, t: nat, u: nat)
    requires IsRun(run) && i < |run| && t in run[i].threads && u in run[i].threads
    ensures run[i].threads[t].arrived <= run[i].threads[u].arrived + 1
    ensures run[i].threads[t].arrived <= run[i].threads[u].left + 2
  {
    RunKeepsInv(run, i);
  }

  /** The counter holds exactly the arrivals of the open round, unless the last thread
      has reset it, and then every thread has arrived. */
  lemma CountIsArrivals(run: seq<State>, i: nat)
    requires IsRun(run) && i < |run|
    ensures var s := run[i];
            if SomeAdvancing(s) then s.count == 0 && Arrived(s.threads, s.round + 1) == s.threads.Keys
            else s.count == |Arrived(s.threads, s.round + 1)|
  {
    RunKeepsInv(run, i);
    var s := run[i];
    if SomeAdvancing(s) {
      var t :| t in s.threads && s.threads[t].pc.Advancing?;
      assert Closing(s.threads[t]);
      assert Arrived(s.threads, s.round + 1) == s.threads.Keys;
    }
  }

  /** The barrier cannot hang: in every reachable state some thread has a step that changes
      the state. */
  lemma SomeoneCanMove(run: seq<State>, i: nat)
    requires IsRun(run) && i < |run|
    ensures exists t, s' :: t in run[i].threads && Step(run[i], t, s') && s' != run[i]
  {
    RunKeepsInv(run, i);
    var s := run[i];
    var t: nat;
    if SomeClosing(s) {
      t :| t in s.threads && Closing(s.threads[t]);
    } else {
      assert !SomeAdvancing(s);
      var arrived := Arrived(s.threads, s.round + 1);
      assert arrived != s.threads.Keys && arrived <= s.threads.Keys;
      t :| t in s.threads.Keys && t !in arrived;
      assert InRound(s.threads[t], s.round);
    }
    MovesOn(s, t);
  }

  /** A thread that does not spin on an unchanged generation has such a step. */
  lemma MovesOn(s: State, t: nat)
    requires t in s.threads && (s.threads[t].pc.Waiting? ==> s.threads[t].pc.gen != s.generation)
    ensures exists s' :: Step(s, t, s') && s' != s
  {
    var th := s.threads[t];
    var s' :=
      match th.pc
      case Idle => s.(threads := s.threads[t := th.(pc := Loaded(s.generation))])
      case Loaded(gen) =>
        s.(count := s.count + 1,
           threads := s.threads[t := Thread(if s.count + 1 >= s.threshold then Resetting else Waiting(gen),
                                            th.arrived + 1, th.left)])
      case Resetting => s.(count := 0, threads := s.threads[t := th.(pc := Advancing)])
      case Advancing =>
        s.(generation := (s.generation + 1) % WORD, round := s.round + 1,
           threads := s.threads[t := Thread(Idle, th.arrived, th.left + 1)])
      case Waiting(_) => s.(threads := s.threads[t := Thread(Idle, th.arrived, th.left + 1)]);
    assert Step(s, t, s');
    assert s'.threads[t] != th;
  }

  /** A waiting thread returns with its next step if its round was closed, although the
      generation wraps, and stays where it is if not. */
  lemma WaiterLeavesIff(run: seq<State>, i: nat, t: nat, s': State)
    requires IsRun(run) && i < |run| && t in run[i].threads && run[i].threads[t].pc.Waiting? && Step(run[i], t, s')
    ensures var th := run[i].threads[t];
            if th.arrived <= run[i].round then
              && s'.threads == run[i].threads[t := Thread(Idle, th.arrived, th.left + 1)]
              && th.left + 1 == th.arrived
            else s' == run[i]
  {
    RunKeepsInv(run, i);
    assert InRound(run[i].threads[t], run[i].round);
  }
}
