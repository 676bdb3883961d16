/** The frame bitmap of kernel/src/memory/frame.rs under any interleaving of the
    single atomic operations of allocate, allocate_frame_at and deallocate. */
module FrameRace {

  const WORDS := 16384

  type Word = set<nat>

  /** Where a thread stands. `frame` is the frame a thread has just taken, or is about
      to give back. */
  datatype Pc =
    | Idle
    | LoadStart
    | LoadWord(start: nat, i: nat)
    | Scan(start: nat, i: nat, bit: nat, word: Word)
    | Exchange(start: nat, i: nat, bit: nat, word: Word)
    | StoreZero
    | CountTaken(frame: nat)
    | StoreHint(frame: nat)
    | ClearBit(frame: nat)
    | CountFreed
    | CountReserved

  /** `bits` are the frames whose bit is set; `owners` records who holds a frame. */
  datatype State = State(bits: set<nat>, used: int, hint: nat, owners: map<nat, nat>, threads: map<nat, Pc>)

  function WordAt(bits: set<nat>, i: nat): Word {
    set f | f in bits && f / 64 == i :: f % 64
  }

  function Move(s: State, t: nat, pc: Pc): State
    requires t in s.threads
  {
    s.(threads := s.threads[t := pc])
  }

  // ---------------------------------------------------------------------------
  // Steps

  ghost predicate SearchStep(s: State, t: nat, s': State)
    requires t in s.threads
  {
    match s.threads[t]
    case Idle => s' == Move(s, t, LoadStart)
    case LoadStart => s' == Move(s, t, LoadWord(s.hint, s.hint))
    case LoadWord(start, i) =>
      s' == (if i >= WORDS then Move(s, t, if start > 0 then StoreZero else Idle)
             else if |WordAt(s.bits, i)| == 64 then Move(s, t, LoadWord(start, i + 1))
             else Move(s, t, Scan(start, i, 0, WordAt(s.bits, i))))
    case Scan(start, i, bit, word) =>
      s' == Move(s, t, if bit >= 64 then LoadWord(start, i + 1)
                       else if bit in word then Scan(start, i, bit + 1, word)
                       else Exchange(start, i, bit, word))
    case StoreZero => s' == Move(s, t, LoadStart).(hint := 0)
    case _ => false
  }

  /** The weak compare-exchange: it succeeds only on an unchanged word, and may fail
      even then. After a failure the thread goes on with the word it has just read. */
  ghost predicate ExchangeStep(s: State, t: nat, s': State)
    requires t in s.threads && s.threads[t].Exchange?
  {
    var Exchange(start, i, bit, word) := s.threads[t];
    var current := WordAt(s.bits, i);
    || (current == word && s' == Move(s, t, CountTaken(i * 64 + bit)).(bits := s.bits + {i * 64 + bit}))
    || s' == Move(s, t, if bit in current then Scan(start, i, bit + 1, current) else Exchange(start, i, bit, current))
  }

  ghost predicate OwnStep(s: State, t: nat, f: nat, s': State)
    requires t in s.threads
  {
    match s.threads[t]
    case CountTaken(frame) => s' == Move(s, t, StoreHint(frame)).(used := s.used + 1)
    case StoreHint(frame) => s' == Move(s, t, Idle).(hint := frame / 64, owners := s.owners[frame := t])
    case Idle =>
      || (f in s.owners && s.owners[f] == t && s' == Move(s, t, ClearBit(f)).(owners := s.owners - {f}))
      || s' == Move(s, t, if f in s.bits then Idle else CountReserved).(bits := s.bits + {f})
    case ClearBit(frame) => s' == Move(s, t, if frame in s.bits then CountFreed else Idle).(bits := s.bits - {frame})
    case CountFreed => s' == Move(s, t, Idle).(used := s.used - 1)
    case CountReserved => s' == Move(s, t, Idle).(used := s.used + 1)
    case _ => false
  }

  ghost predicate ThreadStep(s: State, t: nat, f: nat, s': State) {
    && t in s.threads
    && (SearchStep(s, t, s') || OwnStep(s, t, f, s') || (s.threads[t].Exchange? && ExchangeStep(s, t, s')))
  }

  ghost predicate Next(s: State, s': State) {
    exists t, f :: ThreadStep(s, t, f, s')
  }

  ghost predicate Init(s: State) {
    s.owners == map[] && forall t :: t in s.threads ==> s.threads[t] == Idle
  }

  ghost predicate IsRun(run: seq<State>) {
    && |run| > 0 && Init(run[0])
    && forall i :: 0 <= i < |run| - 1 ==> Next(run[i], run[i + 1])
  }

  // ---------------------------------------------------------------------------
  // Invariant

  predicate Holds(pc: Pc, f: nat) { (pc.CountTaken? || pc.StoreHint? || pc.ClearBit?) && pc.frame == f }

  /** Every frame is claimed at most once, by its owner or by the thread that is
      taking or returning it, and a claimed frame has its bit set. */
  ghost predicate Claimed(s: State) {
    && (forall f :: f in s.owners ==> f in s.bits)
    && (forall t, f :: t in s.threads && Holds(s.threads[t], f) ==> f in s.bits && f !in s.owners)
    && (forall t, u, f :: t in s.threads && u in s.threads && Holds(s.threads[t], f) && Holds(s.threads[u], f) ==>
          t == u)
  }

  /** The counter updates that threads still owe. */
  function Owed(pc: Pc): (n: int)
    ensures -1 <= n <= 1
  {
    if pc.CountTaken? || pc.CountReserved? then 1 else if pc.CountFreed? then -1 else 0
  }

  function Adding(threads: map<nat, Pc>): set<nat> { set t | t in threads && Owed(threads[t]) == 1 }

  function Removing(threads: map<nat, Pc>): set<nat> { set t | t in threads && Owed(threads[t]) == -1 }

  /** popcount(bitmap) - used_frames once the owed updates are counted. */
  function Balance(s: State): int {
    |s.bits| - s.used - |Adding(s.threads)| + |Removing(s.threads)|
  }

  lemma OwedMove(threads: map<nat, Pc>, t: nat, pc: Pc)
    requires t in threads
    ensures |Adding(threads[t := pc])| - |Removing(threads[t := pc])| ==
            |Adding(threads)| - |Removing(threads)| + Owed(pc) - Owed(threads[t])
  {
    AddingMove(threads, t, pc);
    RemovingMove(threads, t, pc);
    hide Adding, Removing;
  }

  lemma AddingMove(threads: map<nat, Pc>, t: nat, pc: Pc)
    requires t in threads
    ensures |Adding(threads[t := pc])| ==
            |Adding(threads)| + (if Owed(pc) == 1 then 1 else 0) - (if Owed(threads[t]) == 1 then 1 else 0)
  {
    hide Owed;
    if Owed(pc) == 1 {
      assert Adding(threads[t := pc]) == Adding(threads) + {t};
    } else {
      assert Adding(threads[t := pc]) == Adding(threads) - {t};
    }
  }

  lemma RemovingMove(threads: map<nat, Pc>, t: nat, pc: Pc)
    requires t in threads
    ensures |Removing(threads[t := pc])| ==
            |Removing(threads)| + (if Owed(pc) == -1 then 1 else 0) - (if Owed(threads[t]) == -1 then 1 else 0)
  {
    hide Owed;
    if Owed(pc) == -1 {
      assert Removing(threads[t := pc]) == Removing(threads) + {t};
    } else {
      assert Removing(threads[t := pc]) == Removing(threads) - {t};
    }
  }

  /** A successful exchange sets a bit that was clear at that moment. */
  lemma ExchangeTakesFree(bits: set<nat>, i: nat, bit: nat)
    requires bit < 64 && bit !in WordAt(bits, i)
    ensures i * 64 + bit !in bits
  {
    var f := i * 64 + bit;
    assert f / 64 == i && f % 64 == bit;
  }

  /** A thread that is about to exchange aims at a bit that its snapshot shows clear. */
  ghost predicate AimsAtClear(s: State) {
    forall t :: t in s.threads && s.threads[t].Exchange? ==>
      s.threads[t].bit < 64 && s.threads[t].bit !in s.threads[t].word
  }

  ghost predicate Inv(s: State) { Claimed(s) && AimsAtClear(s) }

  // ---------------------------------------------------------------------------
  // Steps keep the invariant and the balance

  /** A thread that neither holds a frame nor owes an update may move freely. */
  lemma MoveKeeps(s: State, t: nat, pc: Pc, hint: nat)
    requires Inv(s) && t in s.threads && Owed(s.threads[t]) == 0 && Owed(pc) == 0
    requires !pc.StoreHint? && !pc.ClearBit? && !s.threads[t].StoreHint? && !s.threads[t].ClearBit?
    requires pc.Exchange? ==> pc.bit < 64 && pc.bit !in pc.word
    ensures Inv(Move(s, t, pc).(hint := hint)) && Balance(Move(s, t, pc).(hint := hint)) == Balance(s)
  {
    OwedMove(s.threads, t, pc);
    hide Adding, Removing, Balance;
    assert Inv(Move(s, t, pc).(hint := hint));
    hide Inv;
    MoveBalance(s, t, pc, hint);
  }

  lemma MoveBalance(s: State, t: nat, pc: Pc, hint: nat)
    requires t in s.threads && Owed(s.threads[t]) == Owed(pc)
    ensures Balance(Move(s, t, pc).(hint := hint)) == Balance(s)
  {
    OwedMove(s.threads, t, pc);
  }

  lemma SearchKeeps(s: State, t: nat, s': State)
    requires Inv(s) && t in s.threads && SearchStep(s, t, s')
    ensures Inv(s') && Balance(s') == Balance(s)
  {
    hide Inv, Balance, WordAt;
    MoveKeeps(s, t, s'.threads[t], s'.hint);
  }

  lemma ExchangeKeeps(s: State, t: nat, s': State)
    requires Inv(s) && t in s.threads && s.threads[t].Exchange? && ExchangeStep(s, t, s')
    ensures Inv(s') && Balance(s') == Balance(s)
  {
    var Exchange(start, i, bit, word) := s.threads[t];
    assert bit < 64 && bit !in word;
    if s'.threads[t].CountTaken? {
      ExchangeTakesFree(s.bits, i, bit);
      TakeKeeps(s, t, i * 64 + bit);
    } else {
      hide Inv, Balance, WordAt;
      MoveKeeps(s, t, s'.threads[t], s'.hint);
    }
  }

  lemma TakeKeeps(s: State, t: nat, f: nat)
    requires Inv(s) && t in s.threads && s.threads[t].Exchange? && f !in s.bits
    ensures var s' := Move(s, t, CountTaken(f)).(bits := s.bits + {f}); Inv(s') && Balance(s') == Balance(s)
  {
    OwedMove(s.threads, t, CountTaken(f));
    hide Adding, Removing;
    assert |s.bits + {f}| == |s.bits| + 1;
  }

  lemma OwnKeepsClaimed(s: State, t: nat, f: nat, s': State)
    requires Inv(s) && t in s.threads && OwnStep(s, t, f, s')
    ensures Inv(s')
  {
    var was, pc := s.threads[t], s'.threads[t];
    hide Balance, WordAt;
    assert AimsAtClear(s') by { hide Claimed; }
    hide AimsAtClear;
    if was.CountTaken? || was.StoreHint? || was.ClearBit? {
      assert Holds(was, was.frame);
    }
    OthersHold(s, t, s');
  }

  /** A step claims for its thread what it held, or what it owned, and leaves the others. */
  lemma OthersHold(s: State, t: nat, s': State)
    requires Claimed(s) && t in s.threads && t in s'.threads && s'.threads == s.threads[t := s'.threads[t]]
    requires forall f :: f in s'.owners ==> f in s'.bits
    requires forall f :: Holds(s'.threads[t], f) ==>
               f in s'.bits && f !in s'.owners && (Holds(s.threads[t], f) || f in s.owners)
    requires forall f :: f in s.bits && f !in s'.bits ==> Holds(s.threads[t], f)
    requires forall f :: f in s'.owners && f !in s.owners ==> Holds(s.threads[t], f)
    ensures Claimed(s')
  {
    hide Holds;
    forall u, f | u in s'.threads && u != t && Holds(s'.threads[u], f)
      ensures f in s'.bits && f !in s'.owners && !Holds(s'.threads[t], f)
    {
      assert Holds(s.threads[u], f);
    }
  }

  lemma OwnKeepsBalance(s: State, t: nat, f: nat, s': State)
    requires Inv(s) && t in s.threads && OwnStep(s, t, f, s')
    ensures Balance(s') == Balance(s)
  {
    OwedMove(s.threads, t, s'.threads[t]);
    hide Adding, Removing;
    BitsGrow(s.bits, f);
    if s.threads[t].ClearBit? {
      assert Holds(s.threads[t], s.threads[t].frame);
      BitsGrow(s.bits - {s.threads[t].frame}, s.threads[t].frame);
      assert s.bits - {s.threads[t].frame} + {s.threads[t].frame} == s.bits;
    }
  }

  lemma BitsGrow(bits: set<nat>, f: nat)
    ensures |bits + {f}| == |bits| + if f in bits then 0 else 1
  {
    if f in bits {
      assert bits + {f} == bits;
    }
  }

  /** In every run each state claims every frame at most once and the balance never moves. */
  lemma {:induction false} RunKeeps(run: seq<State>, i: nat)
    requires IsRun(run) && i < |run|
    ensures Inv(run[i]) && Balance(run[i]) == Balance(run[0])
  {
    if i > 0 {
      RunKeeps(run, i - 1);
      var s, s' := run[i - 1], run[i - 1 + 1];
      assert Next(s, s');
      var t, f :| ThreadStep(s, t, f, s');
      hide Balance, Claimed, AimsAtClear;
      if SearchStep(s, t, s') {
        SearchKeeps(s, t, s');
      } else if OwnStep(s, t, f, s') {
        OwnKeepsClaimed(s, t, f, s');
        OwnKeepsBalance(s, t, f, s');
      } else {
        ExchangeKeeps(s, t, s');
      }
    }
  }

  // ---------------------------------------------------------------------------
  // What the bitmap promises

  /** An allocation never returns a frame that somebody owns, takes or returns. */
  lemma NoDoubleAllocation(run: seq<State>, i: nat, t: nat, u: nat, f: nat)
    requires IsRun(run) && i < |run| && t in run[i].threads && u in run[i].threads
    requires Holds(run[i].threads[t], f)
    ensures f !in run[i].owners && (Holds(run[i].threads[u], f) ==> u == t) && f in run[i].bits
  {
    RunKeeps(run, i);
  }

  /** When no thread owes an update, the counter has moved exactly with the bitmap. */
  lemma CounterMatchesBits(run: seq<State>, i: nat)
    requires IsRun(run) && i < |run| && forall t :: t in run[i].threads ==> Owed(run[i].threads[t]) == 0
    ensures run[i].used - run[0].used == |run[i].bits| - |run[0].bits|
  {
    RunKeeps(run, i);
    assert Adding(run[i].threads) == {} && Removing(run[i].threads) == {};
    assert Adding(run[0].threads) == {} && Removing(run[0].threads) == {};
  }
}
