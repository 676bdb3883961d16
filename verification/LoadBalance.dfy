/** `balance_load` of kernel/src/process/scheduler.rs over the run queues of all CPUs. */
module LoadBalance {
  import opened Common
  import opened RunQueues

  /** Some CPU has the process queued in this class. */
  ghost predicate OnSome(st: seq<Queues>, i: nat, pid: nat)
    requires i < CLASSES
  {
    exists c :: 0 <= c < |st| && pid in st[c][i]
  }

  /** The same (process, class) pairs are queued somewhere. */
  ghost predicate SamePairs(a: seq<Queues>, b: seq<Queues>) {
    forall i: nat, pid: nat :: i < CLASSES ==> (OnSome(a, i, pid) <==> OnSome(b, i, pid))
  }

  /** Queues of the CPUs other than `cpu` only got longer at the end. */
  ghost predicate OthersGrow(a: seq<Queues>, b: seq<Queues>, cpu: nat) {
    |a| == |b| && forall c, i :: 0 <= c < |a| && c != cpu && 0 <= i < CLASSES ==> a[c][i] <= b[c][i]
  }

  /** The head of class `i` goes from `cpu` to `target`. */
  function Moved(st: seq<Queues>, cpu: nat, i: nat, target: nat): seq<Queues>
    requires cpu < |st| && target < |st| && cpu != target && i < CLASSES && st[cpu][i] != []
  {
    st[cpu := st[cpu][i := st[cpu][i][1..]]][target := st[target][i := Pushed(st[target][i], st[cpu][i][0])]]
  }

  lemma MovedKeepsPairs(st: seq<Queues>, cpu: nat, i: nat, target: nat)
    requires cpu < |st| && target < |st| && cpu != target && i < CLASSES && st[cpu][i] != []
    ensures SamePairs(st, Moved(st, cpu, i, target)) && OthersGrow(st, Moved(st, cpu, i, target), cpu)
  {
    var to := Moved(st, cpu, i, target);
    forall j: nat, pid: nat | j < CLASSES
      ensures OnSome(st, j, pid) <==> OnSome(to, j, pid)
    {
      MovedKeepsPair(st, cpu, i, target, j, pid);
    }
  }

  lemma MovedKeepsPair(st: seq<Queues>, cpu: nat, i: nat, target: nat, j: nat, pid: nat)
    requires cpu < |st| && target < |st| && cpu != target && i < CLASSES && st[cpu][i] != [] && j < CLASSES
    ensures OnSome(st, j, pid) <==> OnSome(Moved(st, cpu, i, target), j, pid)
  {
    var to := Moved(st, cpu, i, target);
    assert st[cpu][i] == [st[cpu][i][0]] + st[cpu][i][1..];
    if OnSome(st, j, pid) {
      var c :| 0 <= c < |st| && pid in st[c][j];
      assert pid in to[c][j] || pid in to[target][j];
    }
    if OnSome(to, j, pid) {
      var c :| 0 <= c < |to| && pid in to[c][j];
      assert pid in st[c][j] || pid in st[cpu][j];
    }
  }

  lemma PairsTrans(a: seq<Queues>, b: seq<Queues>, c: seq<Queues>)
    requires SamePairs(a, b) && SamePairs(b, c)
    ensures SamePairs(a, c)
  {
    hide OnSome;
  }

  lemma GrowTrans(a: seq<Queues>, b: seq<Queues>, c: seq<Queues>, cpu: nat)
    requires OthersGrow(a, b, cpu) && OthersGrow(b, c, cpu)
    ensures OthersGrow(a, c, cpu)
  {
    forall d, i | 0 <= d < |a| && d != cpu && 0 <= i < CLASSES
      ensures a[d][i] <= c[d][i]
    {
      assert a[d][i] <= b[d][i] && b[d][i] <= c[d][i];
    }
  }

  function SumLoads(st: seq<Queues>): nat {
    if st == [] then 0 else SumLoads(st[..|st| - 1]) + Load(st[|st| - 1])
  }

  /** A CPU that balance_load would drain. */
  ghost predicate Overloaded(st: seq<Queues>, c: nat)
    requires c < |st|
  {
    Load(st[c]) > SumLoads(st) / |st| + 1
  }

  class Machine {
    const cpus: seq<CpuScheduler>

    ghost predicate Valid()
      reads cpus
    {
      && (forall i, j :: 0 <= i < j < |cpus| ==> cpus[i] != cpus[j])
      && forall i :: 0 <= i < |cpus| ==> Good(cpus[i].queues, cpus[i].bitmap)
    }

    ghost function State(): (st: seq<Queues>)
      reads cpus
      ensures |st| == |cpus| && forall i :: 0 <= i < |cpus| ==> st[i] == cpus[i].queues
    {
      seq(|cpus|, i requires 0 <= i < |cpus| reads cpus => cpus[i].queues)
    }

    constructor (all: seq<CpuScheduler>)
      requires forall i, j :: 0 <= i < j < |all| ==> all[i] != all[j]
      requires forall i :: 0 <= i < |all| ==> Good(all[i].queues, all[i].bitmap)
      ensures Valid() && cpus == all
    {
      cpus := all;
    }

    /** The least loaded CPU other than `cpu`. */
    method LeastLoaded(cpu: nat) returns (target: nat)
      requires cpu < |cpus| && |cpus| > 1
      ensures target < |cpus| && target != cpu
      ensures forall c :: 0 <= c < |cpus| && c != cpu ==> Load(cpus[target].queues) <= Load(cpus[c].queues)
    {
      hide Load;
      target := 0;
      var least: Option<nat> := None;
      for other := 0 to |cpus|
        invariant least.None? ==> other == 0 || (other == 1 && cpu == 0)
        invariant least.Some? ==> target < other && target != cpu && least.value == Load(cpus[target].queues)
        invariant least.Some? ==>
                    forall c :: 0 <= c < other && c != cpu ==> least.value <= Load(cpus[c].queues)
      {
        if other != cpu {
          var load := cpus[other].TotalLoad();
          if least.None? || load < least.value {
            least, target := Some(load), other;
          }
        }
      }
    }

    /** One round of the stealing loop. */
    method MoveOne(cpu: nat, i: nat)
      requires Valid() && cpu < |cpus| && |cpus| > 1 && i < CLASSES && cpus[cpu].queues[i] != []
      modifies cpus
      ensures Valid()
      ensures exists target: nat :: target < |cpus| && target != cpu && Least(old(State()), cpu, target) &&
                State() == Moved(old(State()), cpu, i, target)
    {
      hide Good, Load, Pushed;
      ghost var was := State();
      var pid := TakeHead(cpu, i);
      var target := LeastLoaded(cpu);
      assert Least(was, cpu, target);
      AddTo(target, pid, i);
    }

    method TakeHead(cpu: nat, i: nat) returns (pid: nat)
      requires Valid() && cpu < |cpus| && i < CLASSES && cpus[cpu].queues[i] != []
      modifies cpus
      ensures Valid() && pid == old(State())[cpu][i][0]
      ensures State() == old(State())[cpu := old(State())[cpu][i := old(State())[cpu][i][1..]]]
    {
      hide Good;
      pid := cpus[cpu].queues[i][0];
      TailNoDup(cpus[cpu].queues, cpus[cpu].bitmap, i);
      cpus[cpu].TakeFrom(i, cpus[cpu].queues[i][1..]);
    }

    method AddTo(target: nat, pid: nat, i: nat)
      requires Valid() && target < |cpus| && i < CLASSES
      modifies cpus
      ensures Valid()
      ensures State() == old(State())[target := old(State())[target][i := Pushed(old(State())[target][i], pid)]]
    {
      hide Good, Pushed;
      cpus[target].Enqueue(pid, i);
    }

    /** Steal everything from one CPU: `load` is not recomputed, so only an empty queue ends
        a round. */
    method Drain(cpu: nat, load: nat, avg: nat)
      requires Valid() && cpu < |cpus| && |cpus| > 1 && load > avg + 1
      modifies cpus
      ensures Valid() && Load(State()[cpu]) == 0
      ensures SamePairs(old(State()), State()) && OthersGrow(old(State()), State(), cpu)
    {
      hide SamePairs, OthersGrow, Moved, Good, Load;
      ghost var was := State();
      Unmoved(was, cpu);
      for i := CLASSES downto 0
        invariant Valid() && forall j :: i <= j < CLASSES ==> State()[cpu][j] == []
        invariant SamePairs(was, State()) && OthersGrow(was, State(), cpu)
      {
        while cpus[cpu].queues[i] != [] && load > avg
          invariant Valid() && forall j :: i < j < CLASSES ==> State()[cpu][j] == []
          invariant SamePairs(was, State()) && OthersGrow(was, State(), cpu)
          decreases |cpus[cpu].queues[i]|
        {
          ghost var before := State();
          MoveOne(cpu, i);
          ghost var target: nat :| target < |cpus| && target != cpu && State() == Moved(before, cpu, i, target);
          MoveFacts(was, before, cpu, i, target);
        }
      }
      assert Load(State()[cpu]) == 0 by {
        NothingQueued(State()[cpu]);
      }
    }

    method SumOfLoads() returns (n: nat)
      ensures n == SumLoads(State())
    {
      hide Load;
      n := 0;
      for c := 0 to |cpus|
        invariant n == SumLoads(State()[..c])
      {
        var load := cpus[c].TotalLoad();
        n := n + load;
        assert State()[..c + 1][..c] == State()[..c];
      }
      assert State()[..|cpus|] == State();
    }

    /** balance_load ends and keeps the queued (process, class) pairs, but it does not balance:
        it does nothing when no CPU is overloaded, and otherwise leaves some CPU with nothing
        to do at all. */
    method BalanceLoad()
      requires Valid()
      modifies cpus
      ensures Valid() && SamePairs(old(State()), State())
      ensures |cpus| <= 1 || (forall c: nat :: c < |cpus| ==> !Overloaded(old(State()), c)) ==>
                State() == old(State())
      ensures |cpus| > 1 && (exists c: nat :: c < |cpus| && Overloaded(old(State()), c)) ==>
                exists c: nat :: c < |cpus| && Load(State()[c]) == 0
    {
      hide SamePairs, OthersGrow, Good, Load, SumLoads;
      ghost var was := State();
      Unmoved(was, 0);
      if |cpus| <= 1 {
        return;
      }
      var total := SumOfLoads();
      if total == 0 {
        IdleMachine(was);
        return;
      }
      var avg := total / |cpus|;
      ghost var drained: Option<nat> := None;
      for cpu := 0 to |cpus|
        invariant Valid() && SamePairs(was, State())
        invariant drained.None? ==> State() == was && forall c: nat :: c < cpu ==> !Overloaded(was, c)
        invariant drained.Some? ==> drained.value < |cpus| && Load(State()[drained.value]) == 0
        invariant drained.Some? ==> exists c: nat :: c < |cpus| && Overloaded(was, c)
      {
        var load := cpus[cpu].TotalLoad();
        if load > avg + 1 {
          ghost var before := State();
          Drain(cpu, load, avg);
          PairsTrans(was, before, State());
          if drained.None? {
            assert Overloaded(was, cpu);
          }
          drained := Some(cpu);
        }
      }
    }
  }

  /** Two CPUs with three processes and none: the first one counts as overloaded. */
  lemma ThreeAndNoneOverloaded()
    ensures var st: seq<Queues> := [[[], [], [1, 2, 3], [], []], [[], [], [], [], []]]; Overloaded(st, 0)
  {
    var st: seq<Queues> := [[[], [], [1, 2, 3], [], []], [[], [], [], [], []]];
    LoadFive(st[0]);
    LoadFive(st[1]);
    assert st[..1] == [st[0]] && st[..1][..0] == [];
    assert SumLoads(st[..1]) == 3;
  }

  lemma LoadFive(qs: Queues)
    ensures Load(qs) == |qs[0]| + |qs[1]| + |qs[2]| + |qs[3]| + |qs[4]|
  {
    assert LoadTo(qs, 1) == |qs[0]|;
    assert LoadTo(qs, 3) == LoadTo(qs, 1) + |qs[1]| + |qs[2]|;
    assert LoadTo(qs, 5) == LoadTo(qs, 3) + |qs[3]| + |qs[4]|;
  }

  /** With two CPUs, one that has nothing to do means the other has everything. */
  lemma TwoCpusOneSided(was: seq<Queues>, st: seq<Queues>, c: nat, i: nat, pid: nat)
    requires |st| == 2 && c < 2 && SamePairs(was, st) && Load(st[c]) == 0 && i < CLASSES && OnSome(was, i, pid)
    ensures pid in st[1 - c][i]
  {
    NothingQueued(st[c]);
    assert OnSome(st, i, pid);
    var d :| 0 <= d < |st| && pid in st[d][i];
  }

  lemma IdleMachine(st: seq<Queues>)
    requires SumLoads(st) == 0
    ensures forall c: nat :: c < |st| ==> !Overloaded(st, c)
  {
    hide Load;
    forall c: nat | c < |st|
      ensures Load(st[c]) == 0
    {
      PartOfSum(st, c);
    }
  }

  lemma {:induction false} PartOfSum(st: seq<Queues>, c: nat)
    requires c < |st|
    ensures Load(st[c]) <= SumLoads(st)
  {
    if c < |st| - 1 {
      PartOfSum(st[..|st| - 1], c);
    }
  }

  /** No CPU other than `cpu` has less to do than `target`. */
  ghost predicate Least(st: seq<Queues>, cpu: nat, target: nat)
    requires target < |st|
  {
    forall c :: 0 <= c < |st| && c != cpu ==> Load(st[target]) <= Load(st[c])
  }

  lemma NothingQueued(qs: Queues)
    ensures Load(qs) == 0 <==> forall i :: 0 <= i < CLASSES ==> qs[i] == []
  {
    LoadZero(qs, CLASSES);
  }

  lemma Unmoved(st: seq<Queues>, cpu: nat)
    ensures SamePairs(st, st) && OthersGrow(st, st, cpu)
  {
  }

  lemma MoveFacts(was: seq<Queues>, st: seq<Queues>, cpu: nat, i: nat, target: nat)
    requires cpu < |st| && target < |st| && cpu != target && i < CLASSES && st[cpu][i] != []
    requires SamePairs(was, st) && OthersGrow(was, st, cpu)
    ensures SamePairs(was, Moved(st, cpu, i, target)) && OthersGrow(was, Moved(st, cpu, i, target), cpu)
    ensures Moved(st, cpu, i, target)[cpu] == st[cpu][i := st[cpu][i][1..]]
  {
    hide SamePairs, OthersGrow;
    MovedKeepsPairs(st, cpu, i, target);
    PairsTrans(was, st, Moved(st, cpu, i, target));
    GrowTrans(was, st, Moved(st, cpu, i, target), cpu);
  }

  lemma TailNoDup(qs: Queues, bm: bv8, i: nat)
    requires Good(qs, bm) && i < CLASSES && qs[i] != []
    ensures NoDup(qs[i][1..])
  {
  }
}
