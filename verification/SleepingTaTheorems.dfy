/** The Sleeping TA over all interleavings: semaphore accounting, first come first served, no student in two
    chairs, no lost wake-up, no deadlock, and help within reach whenever somebody is seated. */
module SleepingTaTheorems {
  import opened SleepingTa
  import opened SleepingTaInvariant

  lemma ReachableInv(n: nat, permits: nat, schedule: seq<Thread>)
    ensures var s := Run(Start(n, permits), schedule); Inv(s) && PermitsRight(s, permits) && |s.students| == n
  {
    StartInv(n, permits);
    RunKeepsInv(Start(n, permits), schedule);
    RunKeepsPermits(Start(n, permits), permits, schedule);
  }

  // ---------- accounting ----------

  /** The counter is the semaphore, plus the students counted but not yet posted, plus one while the TA has
      come for a student and not yet dismissed it; it stays between 0 and the number of chairs. */
  lemma CounterLaw(s: Machine)
    requires Inv(s)
    ensures s.waiting == s.studentsWaiting + (Count(Pending, s.students) - Count(Arriving, s.students))
                       + if s.ta == TaLock || s.ta == Help || s.ta == ClearChair || s.ta == Leave then 1 else 0
    ensures 0 <= s.waiting <= CHAIRS
  {
    PendingBeyondArriving(s.students);
    if s.mutex.HeldBy? && s.students[s.mutex.student] == Arrive {
      ArrivingAlone(s, s.mutex.student);
    } else {
      CountNobody(Arriving, s.students);
    }
  }

  lemma CounterInEveryRun(n: nat, permits: nat, schedule: seq<Thread>)
    ensures var s := Run(Start(n, permits), schedule);
            && s.waiting == s.studentsWaiting + (Count(Pending, s.students) - Count(Arriving, s.students))
                            + (if s.ta == TaLock || s.ta == Help || s.ta == ClearChair || s.ta == Leave then 1 else 0)
            && 0 <= s.waiting <= CHAIRS
  {
    ReachableInv(n, permits, schedule);
    CounterLaw(Run(Start(n, permits), schedule));
  }

  lemma {:induction false} PendingBeyondArriving(students: seq<StudentPc>)
    ensures Count(Arriving, students) <= Count(Pending, students)
  {
    if students != [] {
      PendingBeyondArriving(students[..|students| - 1]);
    }
  }

  /** The one student between its chair and the counter is the one holding the mutex. */
  lemma ArrivingAlone(s: Machine, i: nat)
    requires Exclusive(s) && i < |s.students| && s.students[i] == Arrive
    ensures Count(Arriving, s.students) == 1
  {
    CountUpdate(Arriving, s.students, i, Program);
    CountNobody(Arriving, s.students[i := Program]);
  }

  // ---------- first come, first served ----------

  /** In every run the ids helped are a prefix of the ids seated, at most as many behind as there are chairs. */
  lemma HelpedInOrder(n: nat, permits: nat, schedule: seq<Thread>)
    ensures var s := Run(Start(n, permits), schedule); s.helped <= s.seated && |s.seated| <= |s.helped| + CHAIRS
  {
    ReachableInv(n, permits, schedule);
  }

  lemma QueueAtRest(s: Machine)
    requires Inv(s) && s.mutex == Free
    ensures s.waiting == |s.seated| - |s.helped| && s.nextHelp == Slot(|s.helped|)
    ensures Occupied(s.chairs, s.seated, |s.helped|)
  {
    CountNobody(Arriving, s.students);
  }

  lemma SlotAhead(n: int, k: nat)
    requires 0 <= n
    ensures Slot(n + k) == (Slot(n) + k) % CHAIRS
  {
  }

  lemma OccupiedAhead(chairs: seq<nat>, seated: seq<nat>, cleared: int, k: nat)
    requires |chairs| == CHAIRS && 0 <= cleared && k < CHAIRS && Occupied(chairs, seated, cleared)
    ensures chairs[(Slot(cleared) + k) % CHAIRS] == if cleared + k < |seated| then seated[cleared + k] else 0
  {
    SlotAhead(cleared, k);
  }

  /** While nobody holds the mutex, the chairs read round from next_student_getting_help hold exactly the
      students seated and not yet helped, in order, and the rest is empty. */
  lemma ChairsAreTheQueue(s: Machine, k: nat)
    requires Inv(s) && s.mutex == Free && k < CHAIRS
    ensures s.waiting == |s.seated| - |s.helped|
    ensures s.chairs[(s.nextHelp + k) % CHAIRS] == if k < s.waiting then s.seated[|s.helped| + k] else 0
  {
    QueueAtRest(s);
    OccupiedAhead(s.chairs, s.seated, |s.helped|, k);
  }

  lemma NobodyInTwoChairs(n: nat, permits: nat, schedule: seq<Thread>, c: nat, d: nat)
    requires c < d < CHAIRS
    ensures var chairs := Run(Start(n, permits), schedule).chairs; chairs[c] != 0 ==> chairs[c] != chairs[d]
  {
    ReachableInv(n, permits, schedule);
  }

  // ---------- no lost wake-up ----------

  /** A student blocked on ta_available is not forgotten: the TA is about to post, or more students than there were
      permits to start with, at least two for the one permit of main, count as waiting, so that the TA does not go to sleep. */
  lemma StudentNotForgotten(s: Machine, permits: nat, i: nat)
    requires Inv(s) && PermitsRight(s, permits)
    requires i < |s.students| && s.students[i] == WaitTa && s.taAvailable == 0
    ensures OwesPost(s.ta) || permits < s.waiting
  {
    UnservedBeyondArriving(s.students, i);
  }

  lemma NoStudentForgotten(n: nat, permits: nat, schedule: seq<Thread>, i: nat)
    requires i < n
    ensures var s := Run(Start(n, permits), schedule);
            && |s.students| == n
            && (s.students[i] == WaitTa && s.taAvailable == 0 ==> OwesPost(s.ta) || permits < s.waiting)
  {
    ReachableInv(n, permits, schedule);
    var s := Run(Start(n, permits), schedule);
    if s.students[i] == WaitTa && s.taAvailable == 0 {
      StudentNotForgotten(s, permits, i);
    }
  }

  lemma {:induction false} UnservedBeyondArriving(students: seq<StudentPc>, i: nat)
    requires i < |students| && students[i] == WaitTa
    ensures Count(Arriving, students) < Count(Unserved, students)
  {
    var n := |students| - 1;
    if i < n {
      UnservedBeyondArriving(students[..n], i);
    } else {
      UnservedOrder(students[..n]);
    }
  }

  lemma {:induction false} UnservedOrder(students: seq<StudentPc>)
    ensures Count(Arriving, students) <= Count(Unserved, students)
  {
    if students != [] {
      UnservedOrder(students[..|students| - 1]);
    }
  }

  /** A TA blocked on students_waiting is not forgotten: a seated student has its post ahead and can step. */
  lemma TaNotForgotten(s: Machine) returns (i: nat)
    requires Inv(s) && s.ta == Await && s.studentsWaiting == 0
    ensures StudentEnabled(s, i) && (s.students[i] == NextSeat || s.students[i] == StUnlock || s.students[i] == StPost)
  {
    CounterLaw(s);
    i := PendingNotArriving(s.students);
  }

  lemma TaNeverForgotten(n: nat, permits: nat, schedule: seq<Thread>)
    ensures var s := Run(Start(n, permits), schedule);
            s.ta == Await && s.studentsWaiting == 0 ==>
              exists i: nat :: StudentEnabled(s, i) && s.students[i] in {NextSeat, StUnlock, StPost}
  {
    ReachableInv(n, permits, schedule);
    var s := Run(Start(n, permits), schedule);
    if s.ta == Await && s.studentsWaiting == 0 {
      var i := TaNotForgotten(s);
    }
  }

  lemma {:induction false} PendingNotArriving(students: seq<StudentPc>) returns (i: nat)
    requires Count(Arriving, students) < Count(Pending, students)
    ensures i < |students| && In(Pending, students[i]) && !In(Arriving, students[i])
  {
    var n := |students| - 1;
    if In(Pending, students[n]) && !In(Arriving, students[n]) {
      i := n;
    } else {
      i := PendingNotArriving(students[..n]);
    }
  }

  /** Some thread can always step, and whoever holds the mutex always can. */
  lemma NoDeadlock(s: Machine)
    requires Inv(s)
    ensures TaEnabled(s) || exists i :: StudentEnabled(s, i)
    ensures s.mutex == HeldByTa ==> TaEnabled(s)
    ensures s.mutex.HeldBy? ==> StudentEnabled(s, s.mutex.student)
  {
    if s.mutex.HeldBy? {
      assert StudentInside(s.students[s.mutex.student]);
      assert StudentEnabled(s, s.mutex.student);
    } else if s.ta == Await && s.studentsWaiting == 0 {
      var i := TaNotForgotten(s);
    }
  }

  lemma NoRunDeadlocks(n: nat, permits: nat, schedule: seq<Thread>)
    ensures var s := Run(Start(n, permits), schedule); TaEnabled(s) || exists i :: StudentEnabled(s, i)
  {
    ReachableInv(n, permits, schedule);
    NoDeadlock(Run(Start(n, permits), schedule));
  }

  // ---------- help is always within reach ----------

  /** Steps the TA needs until it has announced the next student. */
  function TaDistance(pc: TaPc): nat {
    match pc
    case Help => 1
    case TaLock => 2
    case Await => 3
    case Awake => 4
    case Look => 5
    case Doze => 6
    case TaPost => 6
    case TaUnlock => 7
    case NextHelp => 8
    case Leave => 9
    case ClearChair => 10
  }

  /** Steps a student needs until it has released the mutex. */
  function StudentDistance(pc: StudentPc): nat {
    match pc
    case Check => 5
    case TakeChair => 4
    case Arrive => 3
    case NextSeat => 2
    case StUnlock => 1
    case GiveUp => 1
    case _ => 0
  }

  function Distance(s: Machine): nat {
    10 * TaDistance(s.ta)
    + (if s.mutex.HeldBy? && s.mutex.student < |s.students| then StudentDistance(s.students[s.mutex.student]) else 0)
    + (if s.studentsWaiting == 0 then 1 else 0)
  }

  /** The student holding the mutex comes closer to releasing it. */
  lemma HolderApproaches(s: Machine, i: nat)
    requires Exclusive(s) && s.mutex == HeldBy(i)
    ensures var s' := StudentStep(s, i);
            Distance(s') < Distance(s) && s'.helped == s.helped && |s.seated| <= |s'.seated|
  {
  }

  /** With no student holding the mutex and somebody seated and not helped, the TA comes closer. */
  lemma TaApproaches(s: Machine)
    requires Inv(s) && |s.helped| < |s.seated| && !s.mutex.HeldBy? && TaEnabled(s) && s.ta != Help
    ensures var s' := TaStep(s); Distance(s') < Distance(s) && s'.helped == s.helped && s'.seated == s.seated
  {
    if s.ta == Look {
      CountNobody(Arriving, s.students);
    }
  }

  lemma PostApproaches(s: Machine) returns (i: nat)
    requires Inv(s) && !s.mutex.HeldBy? && s.ta == Await && s.studentsWaiting == 0
    ensures var s' := StudentStep(s, i);
            Distance(s') < Distance(s) && s'.helped == s.helped && s'.seated == s.seated
  {
    i := TaNotForgotten(s);
    assert s.students[i] == StPost;
  }

  /** One step towards the next help, unless that is the step about to be taken. */
  lemma StepCloser(s: Machine) returns (t: Thread)
    requires Inv(s) && |s.helped| < |s.seated| && s.ta != Help
    ensures var s' := Step(s, t); Distance(s') < Distance(s) && s'.helped == s.helped && |s.seated| <= |s'.seated|
  {
    if s.mutex.HeldBy? {
      t := Student(s.mutex.student);
      HolderApproaches(s, s.mutex.student);
    } else if TaEnabled(s) {
      t := Ta;
      TaApproaches(s);
    } else {
      var i := PostApproaches(s);
      t := Student(i);
    }
  }

  /** From every reachable state in which somebody is seated and not yet helped, some schedule of bounded
      length leads to the first of them being helped. */
  lemma {:induction false} HelpIsWithinReach(s: Machine) returns (schedule: seq<Thread>)
    requires Inv(s) && |s.helped| < |s.seated|
    ensures Run(s, schedule).helped == s.helped + [s.seated[|s.helped|]]
    ensures |schedule| <= 1 + Distance(s)
    decreases Distance(s)
  {
    if s.ta == Help {
      NeverAnEmptyChair(s);
      schedule := [Ta];
      assert [Ta][1..] == [];
      assert Run(s, [Ta]) == Run(TaStep(s), []) == TaStep(s);
    } else {
      var t := StepCloser(s);
      var s' := Step(s, t);
      StepKeepsInv(s, t);
      var rest := HelpIsWithinReach(s');
      StepKeepsHelped(s, t);
      schedule := [t] + rest;
      assert schedule[1..] == rest;
    }
  }
}
