/** `schedule` of kernel/src/process/scheduler.rs on one CPU, with the idle counter that lets
    Dream processes run. The process table is an argument. */
module Dispatch {
  import opened Common
  import opened RunQueues

  datatype RunState = Ready_ | Running | Blocked | Zombie
  datatype Process = Process(state: RunState, class_: nat, slice: nat)

  type Table = t: map<nat, Process> | forall p :: p in t ==> t[p].class_ < CLASSES witness map[]

  const U64 := 0x1_0000_0000_0000_0000
  const IDLE_LIMIT := 100

  /** What `schedule` reads and writes. */
  datatype Sys = Sys(queues: Queues, current: Option<nat>, slice: nat, idleTicks: nat, idle: bool)

  /** The outcome of a tick; a dispatch is a context switch to a queued process. */
  datatype Step = Step(sys: Sys, result: Option<nat>, dispatched: bool)

  predicate HasTimeLeft(s: Sys, t: Table) {
    s.slice > 1 && s.current.Some? && s.current.value in t && t[s.current.value].state == Running
  }

  /** The queues after a runnable current process went back to its class. */
  function Requeued(qs: Queues, current: Option<nat>, t: Table): Queues {
    if current.Some? && current.value in t && t[current.value].state in {Running, Ready_} then
      var c := t[current.value].class_;
      qs[c := Pushed(qs[c], current.value)]
    else qs
  }

  function Idle(s: Sys, qs: Queues, slice: nat): Step {
    Step(Sys(qs, None, slice, (s.idleTicks + 1) % U64, s.idle || s.idleTicks > IDLE_LIMIT), None, false)
  }

  function Tick(s: Sys, t: Table): Step {
    var slice := if s.slice > 0 then s.slice - 1 else 0;
    if HasTimeLeft(s, t) then Step(s.(slice := slice), s.current, false)
    else
      var qs := Requeued(s.queues, s.current, t);
      var i := Best(qs);
      if !Ready(qs, s.idle) then Idle(s, qs, slice)
      else
        var pid, rest := qs[i][0], qs[i := qs[i][1..]];
        if pid in t then Step(Sys(rest, Some(pid), t[pid].slice, 0, false), Some(pid), true)
        else Idle(s, rest, slice)
  }

  class Scheduler {
    const cpu: CpuScheduler
    var idleTicks: nat
    var systemIdle: bool

    constructor ()
      ensures fresh(cpu) && Good(cpu.queues, cpu.bitmap) && idleTicks == 0 && !systemIdle
    {
      cpu := new CpuScheduler();
      idleTicks, systemIdle := 0, false;
    }

    ghost function State(): Sys
      reads this, cpu
    {
      Sys(cpu.queues, cpu.current, cpu.slice, idleTicks, systemIdle)
    }

    /** The current process goes back to its queue if it can still run. */
    method Requeue(t: Table)
      requires Good(cpu.queues, cpu.bitmap)
      modifies cpu`queues, cpu`bitmap
      ensures Good(cpu.queues, cpu.bitmap) && cpu.queues == Requeued(old(cpu.queues), cpu.current, t)
    {
      hide Good;
      if cpu.current.Some? && cpu.current.value in t {
        var p := t[cpu.current.value];
        if p.state == Running || p.state == Ready_ {
          cpu.Enqueue(cpu.current.value, p.class_);
        }
      }
    }

    method Schedule(t: Table) returns (r: Option<nat>)
      requires Good(cpu.queues, cpu.bitmap)
      modifies this, cpu
      ensures Good(cpu.queues, cpu.bitmap)
      ensures State() == Tick(old(State()), t).sys && r == Tick(old(State()), t).result
    {
      hide Good, Requeued, Best;
      if cpu.slice > 0 {
        cpu.slice := cpu.slice - 1;
        if cpu.slice > 0 && cpu.current.Some? && cpu.current.value in t && t[cpu.current.value].state == Running {
          return cpu.current;
        }
      }
      Requeue(t);
      var next := cpu.PickNext(systemIdle);
      if next.Some? && next.value in t {
        cpu.current, cpu.slice := next, t[next.value].slice;
        idleTicks, systemIdle := 0, false;
        return next;
      }
      cpu.current := None;
      var was := idleTicks;
      idleTicks := (idleTicks + 1) % U64;
      if was > IDLE_LIMIT {
        systemIdle := true;
      }
      return None;
    }
  }

  // ---------------------------------------------------------------------------
  // No process is lost

  predicate Queued(qs: Queues, pid: nat) { exists i :: 0 <= i < CLASSES && pid in qs[i] }

  /** Queued, or running and able to go on. */
  predicate Held(s: Sys, t: Table, pid: nat) {
    Queued(s.queues, pid) || (s.current == Some(pid) && pid in t && t[pid].state in {Running, Ready_})
  }

  lemma RequeuedHolds(s: Sys, t: Table, pid: nat)
    requires Held(s, t, pid)
    ensures Queued(Requeued(s.queues, s.current, t), pid)
  {
    var qs := Requeued(s.queues, s.current, t);
    if Queued(s.queues, pid) {
      var i :| 0 <= i < CLASSES && pid in s.queues[i];
      assert pid in qs[i];
    } else {
      assert pid in qs[t[pid].class_];
    }
  }

  /** A tick keeps every process of the table that was queued or able to run. */
  lemma TickKeepsProcesses(s: Sys, t: Table, pid: nat)
    requires Held(s, t, pid) && pid in t
    ensures var after := Tick(s, t).sys; Queued(after.queues, pid) || after.current == Some(pid)
  {
    if !HasTimeLeft(s, t) {
      RequeuedHolds(s, t, pid);
      var qs := Requeued(s.queues, s.current, t);
      var i :| 0 <= i < CLASSES && pid in qs[i];
      var b := Best(qs);
      if Ready(qs, s.idle) {
        var rest := qs[b := qs[b][1..]];
        assert qs[b] == [qs[b][0]] + qs[b][1..];
        assert pid == qs[b][0] || pid in rest[i];
      }
    }
  }

  // ---------------------------------------------------------------------------
  // Dream processes

  /** While another class is queued, a dispatch takes the head of the best such class and
      leaves the Dream queue alone. */
  lemma DreamWaitsForOthers(s: Sys, t: Table)
    requires Tick(s, t).dispatched && Best(Requeued(s.queues, s.current, t)) < DREAM
    ensures var qs, step := Requeued(s.queues, s.current, t), Tick(s, t);
            && step.sys.queues[DREAM] == qs[DREAM]
            && step.result == Some(qs[Best(qs)][0])
            && forall j :: 0 <= j < Best(qs) ==> qs[j] == []
  {
  }

  // ---------------------------------------------------------------------------
  // Who runs next, and where the others stay

  /** The current process can go on, and belongs to class `c` of the table. */
  predicate CurrentIn(s: Sys, t: Table, c: int) {
    && s.current.Some? && s.current.value in t && t[s.current.value].state in {Running, Ready_}
    && t[s.current.value].class_ == c
  }

  /** Somebody of class `c` wants to run: queued, or the current process. */
  predicate Wants(s: Sys, t: Table, c: int)
    requires 0 <= c < CLASSES
  {
    s.queues[c] != [] || CurrentIn(s, t, c)
  }

  /** The queue of class `c` with the current process of that class behind it. */
  function Line(s: Sys, t: Table, c: int): seq<nat>
    requires 0 <= c < CLASSES
  {
    if CurrentIn(s, t, c) && s.current.value !in s.queues[c] then s.queues[c] + [s.current.value] else s.queues[c]
  }

  lemma RequeuedLine(s: Sys, t: Table, c: int)
    requires 0 <= c < CLASSES
    ensures Requeued(s.queues, s.current, t)[c] == Line(s, t, c)
    ensures Line(s, t, c) != [] <==> Wants(s, t, c)
  {
  }

  /** A process with time left goes on and nothing else changes. */
  lemma TimeLeft(s: Sys, t: Table)
    requires HasTimeLeft(s, t)
    ensures Tick(s, t) == Step(s.(slice := s.slice - 1), s.current, false)
  {
  }

  /** A dispatch takes the first in line of the best class that wants to run, gives it its own
      time slice and ends the idle phase. That process leaves its line; all others stay in
      theirs, a preempted one at the end of its own class. */
  lemma DispatchIs(s: Sys, t: Table)
    requires Tick(s, t).dispatched
    ensures var step := Tick(s, t);
            exists c | 0 <= c < CLASSES ::
              && Wants(s, t, c) && (forall j :: 0 <= j < c ==> !Wants(s, t, j)) && (c == DREAM ==> s.idle)
              && step.result == Some(Line(s, t, c)[0]) && step.result.value in t
              && step.sys.current == step.result && step.sys.slice == t[step.result.value].slice
              && step.sys.idleTicks == 0 && !step.sys.idle
              && step.sys.queues[c] == Line(s, t, c)[1..]
              && forall j :: 0 <= j < CLASSES && j != c ==> step.sys.queues[j] == Line(s, t, j)
  {
    var qs := Requeued(s.queues, s.current, t);
    var c := Best(qs);
    forall j | 0 <= j < CLASSES
      ensures qs[j] == Line(s, t, j) && (Line(s, t, j) != [] <==> Wants(s, t, j))
    {
      RequeuedLine(s, t, j);
    }
    hide Requeued, Line, Wants;
    assert Wants(s, t, c);
  }

  /** A tick dispatches exactly if the current process has no time left, some class wants to
      run that is allowed to, and the first in its line is in the table. */
  lemma DispatchesIff(s: Sys, t: Table)
    ensures Tick(s, t).dispatched <==>
            && !HasTimeLeft(s, t)
            && exists c | 0 <= c < CLASSES ::
                 && Wants(s, t, c) && (forall j :: 0 <= j < c ==> !Wants(s, t, j)) && (c == DREAM ==> s.idle)
                 && Line(s, t, c)[0] in t
  {
    var qs := Requeued(s.queues, s.current, t);
    var b := Best(qs);
    forall j | 0 <= j < CLASSES
      ensures qs[j] == Line(s, t, j) && (Line(s, t, j) != [] <==> Wants(s, t, j))
    {
      RequeuedLine(s, t, j);
    }
    hide Requeued, Line, Wants;
    if Tick(s, t).dispatched {
      assert Wants(s, t, b);
    }
    if c :| 0 <= c < CLASSES && Wants(s, t, c) && forall j :: 0 <= j < c ==> !Wants(s, t, j) {
      assert b == c;
    }
  }

  /** Queued processes are in the queue of their class. */
  ghost predicate InOwnClass(s: Sys, t: Table) {
    forall c, pid :: 0 <= c < CLASSES && pid in s.queues[c] && pid in t ==> t[pid].class_ == c
  }

  /** While a process of another class is queued, no Dream process is dispatched. */
  lemma NoDreamWhileOthersWait(s: Sys, t: Table, c: nat)
    requires c < DREAM && s.queues[c] != [] && InOwnClass(s, t) && Tick(s, t).dispatched
    ensures var pid := Tick(s, t).result.value; t[pid].class_ <= c && Tick(s, t).sys.queues[DREAM] == Line(s, t, DREAM)
  {
    hide Tick;
    DispatchIs(s, t);
    assert Wants(s, t, c);
  }

  /** A preempted process waits at the end of the queue of its own class, and stays in it if it
      waited there already. */
  lemma PreemptedWaits(s: Sys, t: Table, c: nat)
    requires c < CLASSES && CurrentIn(s, t, c) && Tick(s, t).dispatched && Tick(s, t).result != s.current
    ensures var q := Tick(s, t).sys.queues[c];
            && s.current.value in q
            && (s.current.value !in s.queues[c] ==> q[|q| - 1] == s.current.value)
  {
    hide Tick;
    DispatchIs(s, t);
    var line := Line(s, t, c);
    assert s.current.value in line;
    assert line == [line[0]] + line[1..];
  }

  /** Nothing runs and only Dream processes wait, all of them known. */
  ghost predicate OnlyDreams(s: Sys, t: Table) {
    && s.current == None && s.idleTicks < U64
    && (forall j :: 0 <= j < DREAM ==> s.queues[j] == []) && s.queues[DREAM] != []
    && forall p :: p in s.queues[DREAM] ==> p in t
  }

  /** The state after `n` ticks. */
  function After(s: Sys, t: Table, n: nat): Sys
    decreases n
  {
    if n == 0 then s else After(Tick(s, t).sys, t, n - 1)
  }

  /** The tick that dispatches the first Dream process. */
  function DreamTick(s: Sys): nat {
    if s.idle then 1 else if s.idleTicks > IDLE_LIMIT then 2 else IDLE_LIMIT + 3 - s.idleTicks
  }

  lemma IdleTick(s: Sys, t: Table)
    requires OnlyDreams(s, t) && !s.idle
    ensures var step := Tick(s, t);
            && step.result == None && !step.dispatched && OnlyDreams(step.sys, t)
            && step.sys.queues == s.queues && DreamTick(step.sys) == DreamTick(s) - 1
  {
    assert Best(s.queues) == DREAM;
  }

  /** From any such state the first Dream process is dispatched at exactly that tick, at the
      latest the 103rd, and nothing is dispatched before. */
  lemma {:induction false} DreamDispatched(s: Sys, t: Table)
    requires OnlyDreams(s, t)
    ensures 1 <= DreamTick(s) <= 103
    ensures forall k: nat :: k < DreamTick(s) - 1 ==> !Tick(After(s, t, k), t).dispatched
    ensures var step := Tick(After(s, t, DreamTick(s) - 1), t);
            step.dispatched && step.result == Some(s.queues[DREAM][0])
    decreases DreamTick(s)
  {
    if s.idle {
      assert Best(s.queues) == DREAM;
      assert After(s, t, 0) == s;
    } else {
      hide Tick;
      IdleTick(s, t);
      var next := Tick(s, t).sys;
      DreamDispatched(next, t);
      forall k: nat | k < DreamTick(s) - 1
        ensures !Tick(After(s, t, k), t).dispatched
      {
        if k > 0 {
          assert After(s, t, k) == After(next, t, k - 1);
        }
      }
    }
  }
}
