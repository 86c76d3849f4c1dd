/** Lab_3/solution/part2.c: any number of depositors and withdrawers of one transaction amount, gated by two
    semaphores, with the account under a mutex. Each thread is a program counter; a step executes one
    statement of one thread, and the statement `amount += deposit_amount` is a load and a store. A schedule
    is any sequence of thread numbers; a thread that is blocked or finished stays where it is. */
module Bank {

  datatype Kind = Deposit | Withdraw

  datatype Pc = SemWait | Lock | Load | Store(local: int) | Unlock | Post | Done

  datatype Thread = Thread(kind: Kind, pc: Pc)

  datatype Owner = Free | Held(thread: nat)

  datatype State = State(threads: seq<Thread>, amount: int, deposits: nat, withdrawals: nat, mutex: Owner)

  function Stage(pc: Pc): nat {
    match pc
    case SemWait => 0
    case Lock => 1
    case Load => 2
    case Store(_) => 3
    case Unlock => 4
    case Post => 5
    case Done => 6
  }

  const DONE := 6

  // ---------- steps ----------

  predicate Enabled(s: State, i: nat) {
    && i < |s.threads|
    && match s.threads[i].pc
       case SemWait => 0 < if s.threads[i].kind == Deposit then s.deposits else s.withdrawals
       case Lock => s.mutex == Free
       case Done => false
       case _ => true
  }

  function Goto(s: State, i: nat, pc: Pc): State
    requires i < |s.threads|
  {
    s.(threads := s.threads[i := s.threads[i].(pc := pc)])
  }

  function Step(s: State, t: int, i: nat): State {
    if !Enabled(s, i) then s
    else
      var deposit := s.threads[i].kind == Deposit;
      match s.threads[i].pc
      case SemWait =>
        if deposit then Goto(s, i, Lock).(deposits := s.deposits - 1)
        else Goto(s, i, Lock).(withdrawals := s.withdrawals - 1)
      case Lock => Goto(s, i, Load).(mutex := Held(i))
      case Load => Goto(s, i, Store(s.amount))
      case Store(local) => Goto(s, i, Unlock).(amount := if deposit then local + t else local - t)
      case Unlock => Goto(s, i, Post).(mutex := Free)
      case Post =>
        if deposit then Goto(s, i, Done).(withdrawals := s.withdrawals + 1)
        else Goto(s, i, Done).(deposits := s.deposits + 1)
      case Done => s
  }

  function Run(s: State, t: int, schedule: seq<nat>): State
    decreases schedule
  {
    if schedule == [] then s else Run(Step(s, t, schedule[0]), t, schedule[1..])
  }

  /** The threads just created, the account empty, the semaphores initialised for capacity `limit`. */
  function Start(kinds: seq<Kind>, limit: nat, t: int): State
    requires 0 < t
  {
    State(seq(|kinds|, i requires 0 <= i < |kinds| => Thread(kinds[i], SemWait)), 0, limit / t, 0, Free)
  }

  // ---------- counting threads ----------

  /** How many threads of this kind have got at least that far. */
  function Reached(threads: seq<Thread>, kind: Kind, stage: nat): nat {
    if threads == [] then 0
    else
      var n := |threads| - 1;
      Reached(threads[..n], kind, stage) + if threads[n].kind == kind && stage <= Stage(threads[n].pc) then 1 else 0
  }

  lemma {:induction false} ReachedOrder(threads: seq<Thread>, kind: Kind, early: nat, late: nat)
    requires early <= late
    ensures Reached(threads, kind, late) <= Reached(threads, kind, early)
  {
    if threads != [] {
      ReachedOrder(threads[..|threads| - 1], kind, early, late);
    }
  }

  /** Equal counts at two stages: no thread is between them. */
  lemma {:induction false} ReachedGap(threads: seq<Thread>, kind: Kind, early: nat, late: nat)
    requires early <= late
    requires forall i :: 0 <= i < |threads| && threads[i].kind == kind && early <= Stage(threads[i].pc) ==> late <= Stage(threads[i].pc)
    ensures Reached(threads, kind, late) == Reached(threads, kind, early)
  {
    if threads != [] {
      var n := |threads| - 1;
      assert forall i :: 0 <= i < n ==> threads[..n][i] == threads[i];
      ReachedGap(threads[..n], kind, early, late);
    }
  }

  lemma {:induction false} NotAllReached(threads: seq<Thread>, kind: Kind, stage: nat, i: nat)
    requires i < |threads| && threads[i].kind == kind && Stage(threads[i].pc) < stage
    ensures Reached(threads, kind, stage) < Reached(threads, kind, 0)
  {
    var n := |threads| - 1;
    if i < n {
      assert threads[..n][i] == threads[i];
      NotAllReached(threads[..n], kind, stage, i);
    } else {
      ReachedOrder(threads[..n], kind, 0, stage);
    }
  }

  /** Moving one thread one stage on changes the one count of the stage it enters. */
  lemma {:induction false} ReachedStep(threads: seq<Thread>, i: nat, pc: Pc, kind: Kind, stage: nat)
    requires i < |threads| && Stage(pc) == Stage(threads[i].pc) + 1
    ensures Reached(threads[i := threads[i].(pc := pc)], kind, stage)
         == Reached(threads, kind, stage) + if kind == threads[i].kind && stage == Stage(pc) then 1 else 0
  {
    var n := |threads| - 1;
    var threads' := threads[i := threads[i].(pc := pc)];
    if i < n {
      ReachedStep(threads[..n], i, pc, kind, stage);
      assert threads'[..n] == threads[..n][i := threads[i].(pc := pc)];
    } else {
      assert threads'[..n] == threads[..n];
    }
  }

  // ---------- what every step keeps ----------

  /** The semaphores and the amount are determined by how far the threads have got. */
  ghost predicate Accounts(s: State, limit: nat, t: int)
    requires 0 < t
  {
    && s.withdrawals == Reached(s.threads, Deposit, 6) - Reached(s.threads, Withdraw, 1)
    && s.deposits == limit / t - Reached(s.threads, Deposit, 1) + Reached(s.threads, Withdraw, 6)
    && s.amount == t * (Reached(s.threads, Deposit, 4) - Reached(s.threads, Withdraw, 4))
  }

  /** Only the owner of the mutex is in the critical section, and nobody changes what it has loaded. */
  ghost predicate Exclusive(s: State) {
    && (s.mutex.Held? ==> s.mutex.thread < |s.threads|)
    && forall i :: 0 <= i < |s.threads| ==>
         && (2 <= Stage(s.threads[i].pc) <= 4 <==> s.mutex == Held(i))
         && (s.threads[i].pc.Store? ==> s.threads[i].pc.local == s.amount)
  }

  ghost predicate Inv(s: State, limit: nat, t: int) {
    0 < t && Accounts(s, limit, t) && Exclusive(s)
  }

  lemma {:induction false} NobodyReached(threads: seq<Thread>, kind: Kind, stage: nat)
    requires 0 < stage && forall i :: 0 <= i < |threads| ==> threads[i].pc == SemWait
    ensures Reached(threads, kind, stage) == 0
  {
    if threads != [] {
      assert forall i :: 0 <= i < |threads| - 1 ==> threads[..|threads| - 1][i] == threads[i];
      NobodyReached(threads[..|threads| - 1], kind, stage);
    }
  }

  lemma StartInv(kinds: seq<Kind>, limit: nat, t: int)
    requires 0 < t
    ensures Inv(Start(kinds, limit, t), limit, t)
  {
    var s := Start(kinds, limit, t);
    forall kind: Kind, stage: nat | 0 < stage
      ensures Reached(s.threads, kind, stage) == 0
    {
      NobodyReached(s.threads, kind, stage);
    }
  }

  /** The pc a step leads to is one stage further. */
  lemma StepAdvances(s: State, t: int, i: nat)
    requires Enabled(s, i)
    ensures var s' := Step(s, t, i);
            && s'.threads == s.threads[i := s.threads[i].(pc := s'.threads[i].pc)]
            && Stage(s'.threads[i].pc) == Stage(s.threads[i].pc) + 1
            && s'.threads[i].kind == s.threads[i].kind
  {
  }

  lemma StepKeepsAccounts(s: State, limit: nat, t: int, i: nat)
    requires Inv(s, limit, t) && Enabled(s, i)
    ensures Accounts(Step(s, t, i), limit, t)
  {
    var s' := Step(s, t, i);
    StepAdvances(s, t, i);
    forall kind: Kind, stage: nat
      ensures Reached(s'.threads, kind, stage)
           == Reached(s.threads, kind, stage) + if kind == s.threads[i].kind && stage == Stage(s'.threads[i].pc) then 1 else 0
    {
      ReachedStep(s.threads, i, s'.threads[i].pc, kind, stage);
    }
    var n := Reached(s.threads, Deposit, 4) - Reached(s.threads, Withdraw, 4);
    assert t * (n + 1) == t * n + t && t * (n - 1) == t * n - t;
  }

  lemma StepKeepsInv(s: State, limit: nat, t: int, i: nat)
    requires Inv(s, limit, t)
    ensures Inv(Step(s, t, i), limit, t)
  {
    if Enabled(s, i) {
      StepKeepsAccounts(s, limit, t, i);
      StepAdvances(s, t, i);
    }
  }

  /** In every reachable state the amount is a multiple of t between 0 and the limit. */
  lemma AmountInRange(s: State, limit: nat, t: int)
    requires Inv(s, limit, t)
    ensures 0 <= s.amount <= limit && s.amount % t == 0
  {
    var n := Reached(s.threads, Deposit, 4) - Reached(s.threads, Withdraw, 4);
    ReachedOrder(s.threads, Deposit, 4, 6);
    ReachedOrder(s.threads, Withdraw, 1, 4);
    ReachedOrder(s.threads, Deposit, 1, 4);
    ReachedOrder(s.threads, Withdraw, 4, 6);
    assert 0 <= n <= limit / t;
    MultipleInRange(n, limit, t);
  }

  lemma MultipleInRange(n: nat, limit: nat, t: int)
    requires 0 < t && n <= limit / t
    ensures 0 <= t * n <= limit && (t * n) % t == 0
  {
    assert t * n <= t * (limit / t) <= limit;
    MultipleMod(n, t);
  }

  lemma MultipleMod(n: nat, t: int)
    requires 0 < t
    ensures (t * n) % t == 0
  {
    var q, r := (t * n) / t, (t * n) % t;
    assert t * (n - q) == r && t * (q - n) == -r;
    if n - q >= 1 {
      TimesAtLeast(t, n - q);
    } else if n - q <= -1 {
      TimesAtLeast(t, q - n);
    }
  }

  lemma TimesAtLeast(t: int, k: int)
    requires 0 < t && 1 <= k
    ensures t <= t * k
  {
  }

  /** At most one thread is in the critical section. */
  lemma MutualExclusion(s: State, limit: nat, t: int, i: nat, j: nat)
    requires Inv(s, limit, t) && i < |s.threads| && j < |s.threads|
    requires 2 <= Stage(s.threads[i].pc) <= 4 && 2 <= Stage(s.threads[j].pc) <= 4
    ensures i == j
  {
  }

  // ---------- whole runs ----------

  function Threads(kinds: seq<Kind>, kind: Kind): nat {
    if kinds == [] then 0
    else Threads(kinds[..|kinds| - 1], kind) + if kinds[|kinds| - 1] == kind then 1 else 0
  }

  /** Nothing can move. */
  ghost predicate Terminal(s: State) {
    forall i :: 0 <= i < |s.threads| ==> !Enabled(s, i)
  }

  lemma {:induction false} RunKeepsInv(s: State, limit: nat, t: int, schedule: seq<nat>)
    requires Inv(s, limit, t)
    ensures Inv(Run(s, t, schedule), limit, t)
    ensures |Run(s, t, schedule).threads| == |s.threads|
    ensures forall kind :: Reached(Run(s, t, schedule).threads, kind, 0) == Reached(s.threads, kind, 0)
    decreases schedule
  {
    if schedule != [] {
      var i := schedule[0];
      StepKeepsInv(s, limit, t, i);
      if Enabled(s, i) {
        StepAdvances(s, t, i);
        forall kind: Kind
          ensures Reached(Step(s, t, i).threads, kind, 0) == Reached(s.threads, kind, 0)
        {
          ReachedStep(s.threads, i, Step(s, t, i).threads[i].pc, kind, 0);
        }
      }
      RunKeepsInv(Step(s, t, i), limit, t, schedule[1..]);
    }
  }

  /** In every interleaving of any number of threads the amount stays a multiple of t within 0..limit. */
  lemma EveryRunInRange(kinds: seq<Kind>, limit: nat, t: int, schedule: seq<nat>)
    requires 0 < t
    ensures var s := Run(Start(kinds, limit, t), t, schedule); 0 <= s.amount <= limit && s.amount % t == 0
  {
    StartInv(kinds, limit, t);
    RunKeepsInv(Start(kinds, limit, t), limit, t, schedule);
    AmountInRange(Run(Start(kinds, limit, t), t, schedule), limit, t);
  }

  lemma {:induction false} StartCounts(kinds: seq<Kind>, limit: nat, t: int, kind: Kind)
    requires 0 < t
    ensures Reached(Start(kinds, limit, t).threads, kind, 0) == Threads(kinds, kind)
  {
    if kinds != [] {
      var n := |kinds| - 1;
      StartCounts(kinds[..n], limit, t, kind);
      assert Start(kinds, limit, t).threads[..n] == Start(kinds[..n], limit, t).threads;
    }
  }

  /** When nothing can move, every thread has finished or waits at its semaphore, which is 0. */
  lemma TerminalThreads(s: State, limit: nat, t: int, i: nat)
    requires Inv(s, limit, t) && Terminal(s) && i < |s.threads|
    ensures s.threads[i].pc == Done
         || (s.threads[i].pc == SemWait && (if s.threads[i].kind == Deposit then s.deposits else s.withdrawals) == 0)
  {
    assert !Enabled(s, i);
    assert s.mutex.Held? ==> Enabled(s, s.mutex.thread);
  }

  function Min(a: int, b: int): int { if a <= b then a else b }

  function Max(a: int, b: int): int { if a <= b then b else a }

  lemma TerminalCounts(s: State, limit: nat, t: int, kind: Kind)
    requires Inv(s, limit, t) && Terminal(s)
    ensures Reached(s.threads, kind, 1) == Reached(s.threads, kind, 4) == Reached(s.threads, kind, 6)
    ensures Reached(s.threads, kind, 6) <= Reached(s.threads, kind, 0)
    ensures Reached(s.threads, kind, 6) < Reached(s.threads, kind, 0) ==>
              (if kind == Deposit then s.deposits else s.withdrawals) == 0
  {
    forall i | 0 <= i < |s.threads|
      ensures s.threads[i].pc == Done
           || (s.threads[i].pc == SemWait && (if s.threads[i].kind == Deposit then s.deposits else s.withdrawals) == 0)
    {
      TerminalThreads(s, limit, t, i);
    }
    ReachedGap(s.threads, kind, 1, 6);
    ReachedGap(s.threads, kind, 4, 6);
    ReachedOrder(s.threads, kind, 0, 6);
    if forall i :: 0 <= i < |s.threads| && s.threads[i].kind == kind ==> s.threads[i].pc == Done {
      ReachedGap(s.threads, kind, 0, 6);
    }
  }

  lemma TerminalAmount(s: State, limit: nat, t: int)
    requires Inv(s, limit, t) && Terminal(s)
    ensures var d, w := Reached(s.threads, Deposit, 0), Reached(s.threads, Withdraw, 0);
            s.amount == t * Min(Max(d - w, 0), limit / t)
  {
    TerminalCounts(s, limit, t, Deposit);
    TerminalCounts(s, limit, t, Withdraw);
    var d: int, w: int := Reached(s.threads, Deposit, 0), Reached(s.threads, Withdraw, 0);
    assert Reached(s.threads, Deposit, 6) - Reached(s.threads, Withdraw, 6) == Min(Max(d - w, 0), limit / t);
  }

  /** Every interleaving that cannot go on ends with the same amount, whatever the order of the threads:
      the surplus of deposits, as far as the limit allows. */
  lemma EveryMaximalRunEndsAlike(kinds: seq<Kind>, limit: nat, t: int, schedule: seq<nat>)
    requires 0 < t && Terminal(Run(Start(kinds, limit, t), t, schedule))
    ensures Run(Start(kinds, limit, t), t, schedule).amount
         == t * Min(Max(Threads(kinds, Deposit) - Threads(kinds, Withdraw), 0), limit / t)
  {
    StartInv(kinds, limit, t);
    RunKeepsInv(Start(kinds, limit, t), limit, t, schedule);
    StartCounts(kinds, limit, t, Deposit);
    StartCounts(kinds, limit, t, Withdraw);
    TerminalAmount(Run(Start(kinds, limit, t), t, schedule), limit, t);
  }

  ghost predicate AllDone(s: State) {
    forall i :: 0 <= i < |s.threads| ==> s.threads[i].pc == Done
  }

  /** When all threads can finish: enough deposits for the withdrawals, and room for the surplus. */
  predicate Fits(d: nat, w: nat, limit: nat, t: int)
    requires 0 < t
  {
    w <= d <= w + limit / t && (limit / t == 0 ==> d == 0)
  }

  /** All threads have finished exactly when of either kind as many have as there are. */
  lemma AllDoneCounts(s: State)
    ensures AllDone(s) <==> (Reached(s.threads, Deposit, DONE) == Reached(s.threads, Deposit, 0) &&
                             Reached(s.threads, Withdraw, DONE) == Reached(s.threads, Withdraw, 0))
  {
    if AllDone(s) {
      ReachedGap(s.threads, Deposit, 0, DONE);
      ReachedGap(s.threads, Withdraw, 0, DONE);
    } else {
      var i :| 0 <= i < |s.threads| && s.threads[i].pc != Done;
      NotAllReached(s.threads, s.threads[i].kind, DONE, i);
    }
  }

  /** With d deposits and w withdrawals to make, of which rd and rw have been made when nothing can move. */
  lemma FitsCounts(d: nat, w: nat, rd: nat, rw: nat, limit: nat, t: int)
    requires 0 < t <= limit && rd <= d && rw <= w && 0 <= rd - rw <= limit / t
    requires (rd < d ==> rd - rw == limit / t) && (rw < w ==> rd == rw)
    ensures (rd == d && rw == w) <==> Fits(d, w, limit, t)
  {
    assert 0 < limit / t;
  }

  lemma TerminalFinishesIffFits(s: State, limit: nat, t: int)
    requires Inv(s, limit, t) && Terminal(s) && t <= limit
    ensures AllDone(s) <==> Fits(Reached(s.threads, Deposit, 0), Reached(s.threads, Withdraw, 0), limit, t)
  {
    AllDoneCounts(s);
    TerminalCounts(s, limit, t, Deposit);
    TerminalCounts(s, limit, t, Withdraw);
    FitsCounts(Reached(s.threads, Deposit, 0), Reached(s.threads, Withdraw, 0),
               Reached(s.threads, Deposit, DONE), Reached(s.threads, Withdraw, DONE), limit, t);
  }

  /** With a transaction amount above the limit no deposit is ever allowed, so no thread ever moves. */
  lemma {:induction false} NothingMoves(kinds: seq<Kind>, limit: nat, t: int, schedule: seq<nat>)
    requires limit < t
    ensures Run(Start(kinds, limit, t), t, schedule) == Start(kinds, limit, t)
    decreases schedule
  {
    if schedule != [] {
      assert limit / t == 0;
      assert !Enabled(Start(kinds, limit, t), schedule[0]);
      NothingMoves(kinds, limit, t, schedule[1..]);
    }
  }

  lemma NothingFits(kinds: seq<Kind>, limit: nat, t: int)
    requires limit < t
    ensures AllDone(Start(kinds, limit, t)) <==> Fits(Threads(kinds, Deposit), Threads(kinds, Withdraw), limit, t)
  {
    var s := Start(kinds, limit, t);
    assert limit / t == 0;
    NoThreads(kinds);
    if kinds != [] {
      assert s.threads[0].pc == SemWait;
    }
  }

  lemma NoThreads(kinds: seq<Kind>)
    ensures kinds == [] <==> Threads(kinds, Deposit) == 0 && Threads(kinds, Withdraw) == 0
  {
  }

  lemma {:induction false} EveryMaximalRunFinishesIffFits(kinds: seq<Kind>, limit: nat, t: int, schedule: seq<nat>)
    requires 0 < t && Terminal(Run(Start(kinds, limit, t), t, schedule))
    ensures AllDone(Run(Start(kinds, limit, t), t, schedule))
       <==> Fits(Threads(kinds, Deposit), Threads(kinds, Withdraw), limit, t)
  {
    if limit < t {
      NothingMoves(kinds, limit, t, schedule);
      NothingFits(kinds, limit, t);
    } else {
      StartInv(kinds, limit, t);
      RunKeepsInv(Start(kinds, limit, t), limit, t, schedule);
      StartCounts(kinds, limit, t, Deposit);
      StartCounts(kinds, limit, t, Withdraw);
      TerminalFinishesIffFits(Run(Start(kinds, limit, t), t, schedule), limit, t);
    }
  }

  // ---------- runs end ----------

  /** The statements executed so far. */
  function Executed(threads: seq<Thread>): nat {
    if threads == [] then 0 else Executed(threads[..|threads| - 1]) + Stage(threads[|threads| - 1].pc)
  }

  lemma {:induction false} ExecutedStep(threads: seq<Thread>, i: nat, pc: Pc)
    requires i < |threads| && Stage(pc) == Stage(threads[i].pc) + 1
    ensures Executed(threads[i := threads[i].(pc := pc)]) == Executed(threads) + 1
  {
    var n := |threads| - 1;
    var threads' := threads[i := threads[i].(pc := pc)];
    if i < n {
      ExecutedStep(threads[..n], i, pc);
      assert threads'[..n] == threads[..n][i := threads[i].(pc := pc)];
    } else {
      assert threads'[..n] == threads[..n];
    }
  }

  lemma {:induction false} ExecutedBound(threads: seq<Thread>)
    ensures Executed(threads) <= DONE * |threads|
  {
    if threads != [] {
      ExecutedBound(threads[..|threads| - 1]);
    }
  }

  /** How many entries of the schedule move a thread. */
  function Moves(s: State, t: int, schedule: seq<nat>): nat
    decreases schedule
  {
    if schedule == [] then 0
    else (if Enabled(s, schedule[0]) then 1 else 0) + Moves(Step(s, t, schedule[0]), t, schedule[1..])
  }

  lemma {:induction false} MovesAreExecuted(s: State, t: int, schedule: seq<nat>)
    ensures Executed(s.threads) + Moves(s, t, schedule) == Executed(Run(s, t, schedule).threads)
    ensures |Run(s, t, schedule).threads| == |s.threads|
    decreases schedule
  {
    if schedule != [] {
      var i := schedule[0];
      if Enabled(s, i) {
        StepAdvances(s, t, i);
        ExecutedStep(s.threads, i, Step(s, t, i).threads[i].pc);
      }
      MovesAreExecuted(Step(s, t, i), t, schedule[1..]);
    }
  }

  /** No interleaving makes more than six moves per thread, so every run comes to an end. */
  lemma RunsAreBounded(s: State, t: int, schedule: seq<nat>)
    ensures Moves(s, t, schedule) <= DONE * |s.threads|
  {
    MovesAreExecuted(s, t, schedule);
    ExecutedBound(Run(s, t, schedule).threads);
  }

  /** And every state can be run on to one where nothing can move, so there are maximal runs. */
  lemma {:induction false} EveryRunCanBeCompleted(s: State, t: int) returns (rest: seq<nat>)
    ensures Terminal(Run(s, t, rest))
    decreases DONE * |s.threads| - Executed(s.threads)
  {
    if Terminal(s) {
      rest := [];
    } else {
      var i :| 0 <= i < |s.threads| && Enabled(s, i);
      var s' := Step(s, t, i);
      StepAdvances(s, t, i);
      ExecutedStep(s.threads, i, s'.threads[i].pc);
      ExecutedBound(s'.threads);
      var later := EveryRunCanBeCompleted(s', t);
      rest := [i] + later;
      assert rest[1..] == later;
    }
  }
}
