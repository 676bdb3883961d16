/** `Once::call_once` of kernel/src/sync/mod.rs as a step system: any number of threads call
    it any number of times, interleaved at single atomic operations. */
module Once {

  /** Where a thread stands; `Returned` is after a call_once that came back. */
  datatype Pc = Outside | Check | Try | Running | Finish | Wait | Returned

  datatype Flag = Uninit | Busy | Complete

  /** `started` and `ended` count the calls and returns of the initialisation function. */
  datatype State = State(flag: Flag, started: nat, ended: nat, threads: map<nat, Pc>)

  function Move(s: State, t: nat, pc: Pc): State
    requires t in s.threads
  {
    s.(threads := s.threads[t := pc])
  }

  ghost predicate Step(s: State, t: nat, s': State) {
    && t in s.threads
    && match s.threads[t]
       case Outside => s' == Move(s, t, Check)
       case Check => s' == Move(s, t, if s.flag == Complete then Returned else Try)
       case Try => s' == if s.flag == Uninit then Move(s, t, Running).(flag := Busy, started := s.started + 1)
                         else Move(s, t, Wait)
       case Running => s' == Move(s, t, Finish).(ended := s.ended + 1)
       case Finish => s' == Move(s, t, Returned).(flag := Complete)
       case Wait => s' == if s.flag == Complete then Move(s, t, Returned) else s
       case Returned => s' == Move(s, t, Check)
  }

  ghost predicate Init(s: State) {
    s.flag == Uninit && s.started == 0 && s.ended == 0 && forall t :: t in s.threads ==> s.threads[t] == Outside
  }

  ghost predicate Next(s: State, s': State) { exists t :: Step(s, t, s') }

  ghost predicate IsRun(run: seq<State>) {
    && |run| > 0 && Init(run[0])
    && forall i :: 0 <= i < |run| - 1 ==> Next(run[i], run[i + 1])
  }

  /** The flag tells how far the one initialisation has come, and who performs it. */
  ghost predicate Inv(s: State) {
    && s.started == (if s.flag == Uninit then 0 else 1)
    && (s.flag == Complete ==> s.ended == 1)
    && (s.flag == Uninit ==> s.ended == 0)
    && s.ended <= s.started
    && (forall t :: t in s.threads && s.threads[t] == Running ==> s.flag == Busy && s.ended == 0)
    && (forall t :: t in s.threads && s.threads[t] == Finish ==> s.flag == Busy && s.ended == 1)
    && (forall t :: t in s.threads && s.threads[t] == Returned ==> s.flag == Complete)
    && (forall t, u :: t in s.threads && u in s.threads && t != u ==>
          !(s.threads[t] in {Running, Finish} && s.threads[u] in {Running, Finish}))
  }

  lemma StepKeepsInv(s: State, t: nat, s': State)
    requires Inv(s) && Step(s, t, s')
    ensures Inv(s')
  {
  }

  lemma {:induction false} RunKeepsInv(run: seq<State>, i: nat)
    requires IsRun(run) && i < |run|
    ensures Inv(run[i])
  {
    if i > 0 {
      RunKeepsInv(run, i - 1);
      var s, s' := run[i - 1], run[i - 1 + 1];
      assert Next(s, s');
      var t :| Step(s, t, s');
      StepKeepsInv(s, t, s');
    }
  }

  /** In every run the function is called at most once, and whoever has returned from
      call_once knows that it was called and has ended. */
  lemma OnceAndDone(run: seq<State>, i: nat, t: nat)
    requires IsRun(run) && i < |run| && t in run[i].threads
    ensures run[i].started <= 1
    ensures run[i].threads[t] == Returned ==> run[i].started == 1 && run[i].ended == 1
  {
    hide IsRun;
    RunKeepsInv(run, i);
  }
}
