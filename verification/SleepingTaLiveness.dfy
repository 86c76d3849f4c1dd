/** The Sleeping TA never lets a student down: any schedule that lets the TA move often enough brings help, and under
    strong fairness every student seated is helped and every student that waits for the TA gets past its wait. */
module SleepingTaLiveness {
  import opened SleepingTa
  import opened SleepingTaInvariant
  import opened SleepingTaTheorems

  // ---------- finite schedules ----------

  /** Somebody is seated, counted and not yet helped. */
  ghost predicate Counted(s: Machine) {
    |s.helped| + Count(Arriving, s.students) < |s.seated|
  }

  /** No student's step takes that back, nor moves the TA. */
  lemma StudentKeepsCounted(s: Machine, i: nat)
    ensures var s' := StudentStep(s, i);
            s'.helped == s.helped && s'.ta == s.ta && s.seated <= s'.seated && (Counted(s) ==> Counted(s'))
  {
    if StudentEnabled(s, i) {
      StudentEffects(s, i);
      EffectCounts(Arriving, s, StudentStep(s, i), i);
    }
  }

  /** Each step of the TA brings the next help closer, or is the help. */
  lemma TaAdvances(s: Machine)
    requires Inv(s) && Counted(s) && TaEnabled(s)
    ensures var s' := TaStep(s);
            && s'.seated == s.seated
            && if s.ta == Help then |s'.helped| == |s.helped| + 1
               else s'.helped == s.helped && Counted(s') && TaDistance(s'.ta) < TaDistance(s.ta)
  {
  }

  function TaMoves(s: Machine, schedule: seq<Thread>): nat
    decreases schedule
  {
    if schedule == [] then 0
    else (if schedule[0] == Ta && TaEnabled(s) then 1 else 0) + TaMoves(Step(s, schedule[0]), schedule[1..])
  }

  lemma {:induction false} RunKeepsHelped(s: Machine, schedule: seq<Thread>)
    ensures s.helped <= Run(s, schedule).helped && s.seated <= Run(s, schedule).seated
    decreases schedule
  {
    if schedule != [] {
      StepKeepsHelped(s, schedule[0]);
      RunKeepsHelped(Step(s, schedule[0]), schedule[1..]);
    }
  }

  /** Every schedule in which the TA makes as many moves as it is away from its next help brings one. */
  lemma {:induction false} EnoughMovesHelp(s: Machine, schedule: seq<Thread>)
    requires Inv(s) && Counted(s) && TaDistance(s.ta) <= TaMoves(s, schedule)
    ensures |s.helped| < |Run(s, schedule).helped|
    decreases schedule
  {
    var t, rest := schedule[0], schedule[1..];
    var s' := Step(s, t);
    StepKeepsInv(s, t);
    match t
    case Student(i) =>
      StudentKeepsCounted(s, i);
      EnoughMovesHelp(s', rest);
    case Ta =>
      if TaEnabled(s) {
        TaAdvances(s);
      }
      if |s.helped| < |s'.helped| {
        RunKeepsHelped(s', rest);
      } else {
        EnoughMovesHelp(s', rest);
      }
  }

  lemma FirstInLine(helped: seq<nat>, seated: seq<nat>, helped': seq<nat>, seated': seq<nat>)
    requires helped <= helped' <= seated' && seated <= seated'
    requires |helped| < |helped'| && |helped| < |seated|
    ensures helped + [seated[|helped|]] <= helped'
  {
    assert helped'[|helped|] == seated'[|helped|] == seated[|helped|];
  }

  /** And the one helped is the first in line. */
  lemma EnoughMovesHelpTheFirst(s: Machine, schedule: seq<Thread>)
    requires Inv(s) && Counted(s) && TaDistance(s.ta) <= TaMoves(s, schedule)
    ensures s.helped + [s.seated[|s.helped|]] <= Run(s, schedule).helped
  {
    var s' := Run(s, schedule);
    EnoughMovesHelp(s, schedule);
    RunKeepsInv(s, schedule);
    RunKeepsHelped(s, schedule);
    FirstInLine(s.helped, s.seated, s'.helped, s'.seated);
  }

  // ---------- infinite executions ----------

  /** The states an execution goes through, and the thread that is scheduled in each. */
  datatype Execution = Execution(at: nat -> Machine, next: nat -> Thread)

  ghost predicate StepAt(e: Execution, k: nat) {
    e.at(k + 1) == Step(e.at(k), e.next(k))
  }

  ghost predicate IsRun(e: Execution, n: nat, permits: nat) {
    e.at(0) == Start(n, permits) && forall k: nat :: StepAt(e, k)
  }

  /** Every infinite schedule has an execution. */
  function Follow(s: Machine, f: nat -> Thread, k: nat): Machine {
    if k == 0 then s else Step(Follow(s, f, k - 1), f(k - 1))
  }

  lemma EveryScheduleRuns(n: nat, permits: nat, f: nat -> Thread)
    ensures IsRun(Execution(k => Follow(Start(n, permits), f, k), f), n, permits)
  {
  }

  ghost predicate GoodAt(e: Execution, n: nat, permits: nat, k: nat) {
    Inv(e.at(k)) && PermitsRight(e.at(k), permits) && |e.at(k).students| == n
  }

  lemma {:induction false} RunIsGood(e: Execution, n: nat, permits: nat, k: nat)
    requires IsRun(e, n, permits)
    ensures GoodAt(e, n, permits, k)
  {
    if k == 0 {
      StartInv(n, permits);
    } else {
      RunIsGood(e, n, permits, k - 1);
      assert StepAt(e, k - 1);
      GoodStep(e, n, permits, k - 1);
    }
  }

  lemma GoodStep(e: Execution, n: nat, permits: nat, k: nat)
    requires GoodAt(e, n, permits, k) && StepAt(e, k)
    ensures GoodAt(e, n, permits, k + 1)
  {
    StepKeepsInv(e.at(k), e.next(k));
    StepKeepsPermits(e.at(k), permits, e.next(k));
    StepKeepsStudents(e.at(k), e.next(k));
  }

  // ---------- fairness ----------

  ghost predicate Moves(e: Execution, t: Thread, k: nat) {
    e.next(k) == t && Enabled(e.at(k), t)
  }

  ghost predicate MovesLater(e: Execution, t: Thread, k: nat) {
    exists m: nat :: k <= m && Moves(e, t, m)
  }

  ghost predicate EnabledLater(e: Execution, t: Thread, k: nat) {
    exists m: nat :: k <= m && Enabled(e.at(m), t)
  }

  ghost predicate AlwaysEnabledLater(e: Execution, t: Thread) {
    forall k: nat :: EnabledLater(e, t, k)
  }

  /** A thread that is enabled again and again moves again and again. */
  ghost predicate StronglyFair(e: Execution) {
    forall t: Thread, k: nat :: AlwaysEnabledLater(e, t) ==> MovesLater(e, t, k)
  }

  /** An execution of the program in which no thread is passed over for ever. */
  ghost predicate FairRun(e: Execution, n: nat, permits: nat) {
    IsRun(e, n, permits) && StronglyFair(e)
  }

  /** A thread does not move from step k up to step m. */
  ghost predicate Rests(e: Execution, t: Thread, k: nat, m: nat) {
    forall j: nat :: k <= j < m ==> !Moves(e, t, j)
  }

  lemma {:induction false} FirstMove(e: Execution, t: Thread, k: nat, bound: nat) returns (m: nat)
    requires k <= bound && Moves(e, t, bound)
    ensures k <= m && Moves(e, t, m) && Rests(e, t, k, m)
    decreases bound - k
  {
    if Moves(e, t, k) {
      m := k;
    } else {
      m := FirstMove(e, t, k + 1, bound);
    }
  }

  // ---------- a resting thread stays where it is ----------

  lemma OthersKeepStudent(s: Machine, t: Thread, i: nat)
    requires i < |s.students| && (t == Student(i) ==> !Enabled(s, t))
    ensures |Step(s, t).students| == |s.students| && Step(s, t).students[i] == s.students[i]
  {
    if t.Student? && StudentEnabled(s, t.i) {
      StudentEffects(s, t.i);
    }
  }

  /** Student i is at pc in step k. */
  ghost predicate StudentAt(e: Execution, i: nat, k: nat, pc: StudentPc) {
    i < |e.at(k).students| && e.at(k).students[i] == pc
  }

  lemma RestingStudentStep(e: Execution, i: nat, k: nat, pc: StudentPc)
    requires StepAt(e, k) && StudentAt(e, i, k, pc) && !Moves(e, Student(i), k)
    ensures StudentAt(e, i, k + 1, pc)
  {
    OthersKeepStudent(e.at(k), e.next(k), i);
  }

  lemma {:induction false} RestingStudentStays(e: Execution, n: nat, permits: nat, i: nat, k: nat, m: nat, pc: StudentPc)
    requires IsRun(e, n, permits) && StudentAt(e, i, k, pc) && k <= m && Rests(e, Student(i), k, m)
    ensures StudentAt(e, i, m, pc)
    decreases m - k
  {
    if k < m {
      RestingStudentStays(e, n, permits, i, k, m - 1, pc);
      assert StepAt(e, m - 1) && !Moves(e, Student(i), m - 1);
      RestingStudentStep(e, i, m - 1, pc);
    }
  }

  /** The TA is at pc in step k and has helped so many. */
  ghost predicate TaAt(e: Execution, k: nat, pc: TaPc, helped: nat) {
    e.at(k).ta == pc && |e.at(k).helped| == helped
  }

  lemma RestingTaStep(e: Execution, k: nat, pc: TaPc, helped: nat)
    requires StepAt(e, k) && TaAt(e, k, pc, helped) && !Moves(e, Ta, k)
    ensures TaAt(e, k + 1, pc, helped)
    ensures Counted(e.at(k)) ==> Counted(e.at(k + 1))
  {
    if e.next(k).Student? {
      StudentKeepsCounted(e.at(k), e.next(k).i);
    }
  }

  /** While the TA rests, nobody is helped, and whoever is counted remains so. */
  lemma {:induction false} RestingTaStays(e: Execution, n: nat, permits: nat, k: nat, m: nat, pc: TaPc, helped: nat)
    requires IsRun(e, n, permits) && TaAt(e, k, pc, helped) && k <= m && Rests(e, Ta, k, m)
    ensures TaAt(e, m, pc, helped)
    ensures Counted(e.at(k)) ==> Counted(e.at(m))
    decreases m - k
  {
    if k < m {
      RestingTaStays(e, n, permits, k, m - 1, pc, helped);
      assert StepAt(e, m - 1) && !Moves(e, Ta, m - 1);
      RestingTaStep(e, m - 1, pc, helped);
    }
  }

  lemma {:induction false} NobodyIsForgotten(e: Execution, n: nat, permits: nat, k: nat, m: nat)
    requires IsRun(e, n, permits) && k <= m
    ensures e.at(k).helped <= e.at(m).helped && e.at(k).seated <= e.at(m).seated
    decreases m - k
  {
    if k < m {
      NobodyIsForgotten(e, n, permits, k, m - 1);
      assert StepAt(e, m - 1);
      StepKeepsHelped(e.at(m - 1), e.next(m - 1));
    }
  }

  // ---------- whoever can step does ----------

  /** A student here can always step. */
  predicate Runnable(pc: StudentPc) {
    pc != StLock && pc != WaitTa
  }

  lemma RunnableIsEnabled(e: Execution, i: nat, k: nat, pc: StudentPc)
    requires StudentAt(e, i, k, pc) && Runnable(pc)
    ensures Enabled(e.at(k), Student(i))
  {
  }

  lemma RunnableMovesLater(e: Execution, n: nat, permits: nat, i: nat, k: nat, pc: StudentPc)
    requires FairRun(e, n, permits) && StudentAt(e, i, k, pc) && Runnable(pc)
    ensures MovesLater(e, Student(i), k)
  {
    if !MovesLater(e, Student(i), k) {
      forall j: nat
        ensures EnabledLater(e, Student(i), j)
      {
        var m := if j <= k then k else j;
        RestingStudentStays(e, n, permits, i, k, m, pc);
        RunnableIsEnabled(e, i, m, pc);
      }
      assert AlwaysEnabledLater(e, Student(i));
      assert false;
    }
  }

  /** The next move of student i. */
  lemma NextMove(e: Execution, n: nat, permits: nat, i: nat, k: nat, pc: StudentPc) returns (m: nat)
    requires FairRun(e, n, permits) && StudentAt(e, i, k, pc) && Runnable(pc)
    ensures k <= m && StudentAt(e, i, m, pc) && Moves(e, Student(i), m)
  {
    RunnableMovesLater(e, n, permits, i, k, pc);
    var bound: nat :| k <= bound && Moves(e, Student(i), bound);
    m := FirstMove(e, Student(i), k, bound);
    RestingStudentStays(e, n, permits, i, k, m, pc);
  }

  /** A move inside the critical section leads nearer to its end, or out of it. */
  lemma InsideMove(e: Execution, n: nat, permits: nat, i: nat, m: nat, pc: StudentPc) returns (pc': StudentPc)
    requires IsRun(e, n, permits) && StudentAt(e, i, m, pc) && Moves(e, Student(i), m) && StudentInside(pc)
    ensures StudentAt(e, i, m + 1, pc')
    ensures if StudentInside(pc') then StudentDistance(pc') < StudentDistance(pc) else e.at(m + 1).mutex == Free
  {
    assert StepAt(e, m);
    pc' := e.at(m + 1).students[i];
  }

  /** A student holding the mutex gives it back. */
  lemma {:induction false} HolderReleases(e: Execution, n: nat, permits: nat, i: nat, k: nat, pc: StudentPc) returns (m: nat)
    requires FairRun(e, n, permits) && StudentAt(e, i, k, pc) && StudentInside(pc)
    ensures k <= m && e.at(m).mutex == Free
    decreases StudentDistance(pc)
  {
    m := NextMove(e, n, permits, i, k, pc);
    var pc' := InsideMove(e, n, permits, i, m, pc);
    m := m + 1;
    if StudentInside(pc') {
      m := HolderReleases(e, n, permits, i, m, pc');
    }
  }

  /** Moves a student that has sat down needs to post students_waiting. */
  function PostDistance(pc: StudentPc): nat {
    match pc
    case NextSeat => 3
    case StUnlock => 2
    case StPost => 1
    case _ => 0
  }

  lemma SeatedMove(e: Execution, n: nat, permits: nat, i: nat, m: nat, pc: StudentPc) returns (pc': StudentPc)
    requires IsRun(e, n, permits) && StudentAt(e, i, m, pc) && Moves(e, Student(i), m) && 0 < PostDistance(pc)
    ensures if pc == StPost then 0 < e.at(m + 1).studentsWaiting
            else StudentAt(e, i, m + 1, pc') && 0 < PostDistance(pc') < PostDistance(pc)
  {
    assert StepAt(e, m);
    pc' := e.at(m + 1).students[i];
  }

  /** A student that has sat down posts students_waiting. */
  lemma {:induction false} SeatedPosts(e: Execution, n: nat, permits: nat, i: nat, k: nat, pc: StudentPc) returns (m: nat)
    requires FairRun(e, n, permits) && StudentAt(e, i, k, pc) && 0 < PostDistance(pc)
    ensures k <= m && 0 < e.at(m).studentsWaiting
    decreases PostDistance(pc)
  {
    m := NextMove(e, n, permits, i, k, pc);
    var pc' := SeatedMove(e, n, permits, i, m, pc);
    m := m + 1;
    if pc != StPost {
      m := SeatedPosts(e, n, permits, i, m, pc');
    }
  }

  // ---------- the TA is never blocked for good ----------

  /** Where the TA is blocked, somebody else opens the way. */
  lemma BlockedTaIsFreed(e: Execution, n: nat, permits: nat, k: nat) returns (m: nat)
    requires FairRun(e, n, permits) && !TaEnabled(e.at(k))
    ensures k <= m && (e.at(m).ta == e.at(k).ta ==> TaEnabled(e.at(m)))
  {
    var s := e.at(k);
    RunIsGood(e, n, permits, k);
    if s.ta == TaLock {
      m := HolderReleases(e, n, permits, s.mutex.student, k, s.students[s.mutex.student]);
    } else {
      var i := TaNotForgotten(s);
      m := SeatedPosts(e, n, permits, i, k, s.students[i]);
    }
  }

  lemma TaEnabledAgain(e: Execution, n: nat, permits: nat, k: nat)
    requires FairRun(e, n, permits)
    ensures EnabledLater(e, Ta, k)
  {
    if TaEnabled(e.at(k)) {
      assert Enabled(e.at(k), Ta);
    } else {
      var m := BlockedTaIsFreed(e, n, permits, k);
      if Rests(e, Ta, k, m) {
        RestingTaStays(e, n, permits, k, m, e.at(k).ta, |e.at(k).helped|);
        assert Enabled(e.at(m), Ta);
      } else {
        var j: nat :| k <= j < m && Moves(e, Ta, j);
        assert Enabled(e.at(j), Ta);
      }
    }
  }

  lemma TaMovesLater(e: Execution, n: nat, permits: nat, k: nat)
    requires FairRun(e, n, permits)
    ensures MovesLater(e, Ta, k)
  {
    forall j: nat
      ensures EnabledLater(e, Ta, j)
    {
      TaEnabledAgain(e, n, permits, j);
    }
    assert AlwaysEnabledLater(e, Ta);
  }

  /** The next move of the TA. */
  lemma NextTaMove(e: Execution, n: nat, permits: nat, k: nat, pc: TaPc, helped: nat) returns (m: nat)
    requires FairRun(e, n, permits) && TaAt(e, k, pc, helped)
    ensures k <= m && TaAt(e, m, pc, helped) && Moves(e, Ta, m)
    ensures Counted(e.at(k)) ==> Counted(e.at(m))
  {
    TaMovesLater(e, n, permits, k);
    var bound: nat :| k <= bound && Moves(e, Ta, bound);
    m := FirstMove(e, Ta, k, bound);
    RestingTaStays(e, n, permits, k, m, pc, helped);
  }

  // ---------- every student seated is helped ----------

  lemma CountedMove(e: Execution, n: nat, permits: nat, m: nat, pc: TaPc, helped: nat) returns (pc': TaPc)
    requires IsRun(e, n, permits) && TaAt(e, m, pc, helped) && Moves(e, Ta, m) && Counted(e.at(m))
    ensures if pc == Help then TaAt(e, m + 1, ClearChair, helped + 1)
            else TaAt(e, m + 1, pc', helped) && Counted(e.at(m + 1)) && TaDistance(pc') < TaDistance(pc)
  {
    RunIsGood(e, n, permits, m);
    assert StepAt(e, m);
    TaAdvances(e.at(m));
    pc' := e.at(m + 1).ta;
  }

  /** Once somebody is counted, the TA comes to help. */
  lemma {:induction false} CountedIsHelped(e: Execution, n: nat, permits: nat, k: nat, pc: TaPc, helped: nat) returns (m: nat)
    requires FairRun(e, n, permits) && TaAt(e, k, pc, helped) && Counted(e.at(k))
    ensures k <= m && TaAt(e, m, ClearChair, helped + 1)
    decreases TaDistance(pc)
  {
    m := NextTaMove(e, n, permits, k, pc, helped);
    var pc' := CountedMove(e, n, permits, m, pc, helped);
    m := m + 1;
    if pc != Help {
      m := CountedIsHelped(e, n, permits, m, pc', helped);
    }
  }

  /** The student on its way from its chair to the counter is the only one, and gets there. */
  lemma ArrivingMove(e: Execution, n: nat, permits: nat, i: nat, m: nat)
    requires IsRun(e, n, permits) && StudentAt(e, i, m, Arrive) && Moves(e, Student(i), m)
    ensures Count(Arriving, e.at(m + 1).students) == 0
  {
    RunIsGood(e, n, permits, m);
    assert StepAt(e, m);
    ArrivingAlone(e.at(m), i);
    StudentEffects(e.at(m), i);
    EffectCounts(Arriving, e.at(m), e.at(m + 1), i);
  }

  lemma NobodyOrOneArrives(e: Execution, n: nat, permits: nat, k: nat) returns (m: nat)
    requires FairRun(e, n, permits)
    ensures k <= m && Count(Arriving, e.at(m).students) == 0
  {
    var s := e.at(k);
    RunIsGood(e, n, permits, k);
    if s.mutex.HeldBy? && s.students[s.mutex.student] == Arrive {
      m := NextMove(e, n, permits, s.mutex.student, k, Arrive);
      ArrivingMove(e, n, permits, s.mutex.student, m);
      m := m + 1;
    } else {
      m := k;
      CountNobody(Arriving, s.students);
    }
  }

  /** Whoever is seated is counted, and then the TA comes to help. */
  lemma SeatedBringsHelp(e: Execution, n: nat, permits: nat, k: nat) returns (m: nat)
    requires FairRun(e, n, permits) && |e.at(k).helped| < |e.at(k).seated|
    ensures k <= m && |e.at(k).helped| < |e.at(m).helped|
  {
    m := NobodyOrOneArrives(e, n, permits, k);
    NobodyIsForgotten(e, n, permits, k, m);
    if |e.at(m).helped| <= |e.at(k).helped| {
      m := CountedIsHelped(e, n, permits, m, e.at(m).ta, |e.at(m).helped|);
    }
  }

  /** Under strong fairness everybody seated is helped in the end, in the order of seating. */
  lemma {:induction false} EverySeatedIsHelped(e: Execution, n: nat, permits: nat, k: nat, place: nat) returns (m: nat)
    requires FairRun(e, n, permits) && place < |e.at(k).seated|
    ensures k <= m && place < |e.at(m).helped| && e.at(m).helped[place] == e.at(k).seated[place]
    decreases place - |e.at(k).helped|
  {
    if |e.at(k).helped| <= place {
      var later := SeatedBringsHelp(e, n, permits, k);
      NobodyIsForgotten(e, n, permits, k, later);
      m := EverySeatedIsHelped(e, n, permits, later, place);
    } else {
      m := k;
      RunIsGood(e, n, permits, k);
    }
  }

  // ---------- and nobody waits for the TA for ever ----------

  /** Moves the TA needs to post ta_available for a help it has announced. */
  function OwedDistance(pc: TaPc): nat {
    match pc
    case ClearChair => 5
    case Leave => 4
    case NextHelp => 3
    case TaUnlock => 2
    case TaPost => 1
    case _ => 0
  }

  lemma OwingMove(e: Execution, n: nat, permits: nat, m: nat, pc: TaPc, helped: nat) returns (pc': TaPc)
    requires IsRun(e, n, permits) && TaAt(e, m, pc, helped) && Moves(e, Ta, m) && OwesPost(pc)
    ensures if pc == TaPost then 0 < e.at(m + 1).taAvailable
            else TaAt(e, m + 1, pc', helped) && OwesPost(pc') && OwedDistance(pc') < OwedDistance(pc)
  {
    assert StepAt(e, m);
    pc' := e.at(m + 1).ta;
  }

  lemma {:induction false} OwingTaPosts(e: Execution, n: nat, permits: nat, k: nat, pc: TaPc, helped: nat) returns (m: nat)
    requires FairRun(e, n, permits) && TaAt(e, k, pc, helped) && OwesPost(pc)
    ensures k <= m && 0 < e.at(m).taAvailable
    decreases OwedDistance(pc)
  {
    m := NextTaMove(e, n, permits, k, pc, helped);
    var pc' := OwingMove(e, n, permits, m, pc, helped);
    m := m + 1;
    if pc != TaPost {
      m := OwingTaPosts(e, n, permits, m, pc', helped);
    }
  }

  /** A student that waits without a permit: the TA owes a post or comes to help. */
  lemma WaitingIsCounted(e: Execution, n: nat, permits: nat, i: nat, k: nat)
    requires IsRun(e, n, permits) && StudentAt(e, i, k, WaitTa) && e.at(k).taAvailable == 0
    ensures OwesPost(e.at(k).ta) || Counted(e.at(k))
  {
    RunIsGood(e, n, permits, k);
    StudentNotForgotten(e.at(k), permits, i);
  }

  /** While a student waits, ta_available is posted. */
  lemma WaitingBringsPermit(e: Execution, n: nat, permits: nat, i: nat, k: nat) returns (m: nat)
    requires FairRun(e, n, permits) && StudentAt(e, i, k, WaitTa)
    ensures k <= m && 0 < e.at(m).taAvailable
  {
    var ta, helped := e.at(k).ta, |e.at(k).helped|;
    m := k;
    if e.at(k).taAvailable == 0 {
      WaitingIsCounted(e, n, permits, i, k);
      if OwesPost(ta) {
        m := OwingTaPosts(e, n, permits, k, ta, helped);
      } else {
        m := CountedIsHelped(e, n, permits, k, ta, helped);
        m := OwingTaPosts(e, n, permits, m, ClearChair, helped + 1);
      }
    }
  }

  /** Under strong fairness no student waits for the TA for ever. */
  lemma EveryWaitEnds(e: Execution, n: nat, permits: nat, i: nat, k: nat)
    requires FairRun(e, n, permits) && StudentAt(e, i, k, WaitTa)
    ensures MovesLater(e, Student(i), k)
  {
    if !MovesLater(e, Student(i), k) {
      forall j: nat
        ensures EnabledLater(e, Student(i), j)
      {
        var from := if j <= k then k else j;
        RestingStudentStays(e, n, permits, i, k, from, WaitTa);
        var m := WaitingBringsPermit(e, n, permits, i, from);
        RestingStudentStays(e, n, permits, i, k, m, WaitTa);
        assert Enabled(e.at(m), Student(i));
      }
      assert AlwaysEnabledLater(e, Student(i));
      assert false;
    }
  }
}
