/** What sem_wait(&ta_available) tells a student. It depends on the value main initialises ta_available to: as many
    students as there are permits to start with get past the wait before the TA has done anything, and then a
    permit posted for one student can be taken by another. */
module SleepingTaPermits {
  import opened SleepingTa
  import opened SleepingTaInvariant
  import SleepingTaTheorems

  // ---------- reaching a state ----------

  ghost predicate Reaches(s: Machine, s': Machine) {
    exists schedule :: Run(s, schedule) == s'
  }

  lemma ReachesNext(s: Machine, t: Thread, s': Machine)
    requires Step(s, t) == s'
    ensures Reaches(s, s')
  {
    assert [t][1..] == [];
    assert Run(s, [t]) == s';
  }

  lemma {:induction false} RunAppend(s: Machine, a: seq<Thread>, b: seq<Thread>)
    ensures Run(s, a + b) == Run(Run(s, a), b)
    decreases a
  {
    if a == [] {
      assert a + b == b;
    } else {
      assert (a + b)[0] == a[0] && (a + b)[1..] == a[1..] + b;
      RunAppend(Step(s, a[0]), a[1..], b);
    }
  }

  lemma ReachesOn(s: Machine, s': Machine, s'': Machine)
    requires Reaches(s, s') && Reaches(s', s'')
    ensures Reaches(s, s'')
  {
    var a :| Run(s, a) == s';
    var b :| Run(s', b) == s'';
    RunAppend(s, a, b);
    assert Run(s, a + b) == s'';
  }

  // ---------- what a thread can do while the others rest ----------

  /** The student finds itself in no chair and programs. */
  function Entering(s: Machine, i: nat): Machine
    requires i < |s.students|
  {
    Goto(s, i, StLock)
  }

  lemma {:induction false} StudentScans(s: Machine, i: nat, chair: nat)
    requires i < |s.students| && chair < CHAIRS && s.students[i] == Scan(chair)
    requires forall c :: 0 <= c < CHAIRS ==> s.chairs[c] != Id(i)
    ensures Reaches(s, Goto(s, i, Program))
    decreases CHAIRS - chair
  {
    if chair + 1 < CHAIRS {
      var s1 := Goto(s, i, Scan(chair + 1));
      ReachesNext(s, Student(i), s1);
      StudentScans(s1, i, chair + 1);
      assert s1.students[i := Program] == s.students[i := Program];
      ReachesOn(s, s1, Goto(s, i, Program));
    } else {
      ReachesNext(s, Student(i), Goto(s, i, Program));
    }
  }

  lemma StudentEnters(s: Machine, i: nat)
    requires i < |s.students| && s.students[i] == Scan(0)
    requires forall c :: 0 <= c < CHAIRS ==> s.chairs[c] != Id(i)
    ensures Reaches(s, Entering(s, i))
  {
    var s1 := Goto(s, i, Program);
    StudentScans(s, i, 0);
    assert s1.students[i := StLock] == s.students[i := StLock];
    ReachesNext(s1, Student(i), Entering(s, i));
    ReachesOn(s, s1, Entering(s, i));
  }

  /** The student takes the next chair ... */
  function Taking(s: Machine, i: nat): Machine
    requires i < |s.students|
  {
    Goto(s, i, Arrive).(mutex := HeldBy(i), chairs := s.chairs[s.nextSeat := Id(i)], seated := s.seated + [Id(i)])
  }

  /** ... is counted ... */
  function Counting(s: Machine, i: nat): Machine
    requires i < |s.students|
  {
    Goto(s, i, NextSeat).(waiting := s.waiting + 1)
  }

  /** ... moves the index on ... */
  function Moving(s: Machine, i: nat): Machine
    requires i < |s.students|
  {
    Goto(s, i, StUnlock).(nextSeat := (s.nextSeat + 1) % CHAIRS)
  }

  /** ... and posts students_waiting. */
  function Posting(s: Machine, i: nat): Machine
    requires i < |s.students|
  {
    Goto(s, i, WaitTa).(mutex := Free, studentsWaiting := s.studentsWaiting + 1)
  }

  function Sitting(s: Machine, i: nat): (r: Machine)
    requires i < |s.students|
    ensures |r.students| == |s.students| && r.students == s.students[i := WaitTa] && r.seated == s.seated + [Id(i)]
  {
    Posting(Moving(Counting(Taking(s, i), i), i), i)
  }

  lemma StudentTakes(s: Machine, i: nat)
    requires i < |s.students| && s.students[i] == StLock && s.mutex == Free && s.waiting < CHAIRS
    ensures Reaches(s, Taking(s, i))
  {
    var s1 := Goto(s, i, Check).(mutex := HeldBy(i));
    var s2 := Goto(s1, i, TakeChair);
    assert s2.students[i := Arrive] == s.students[i := Arrive];
    ReachesNext(s, Student(i), s1);
    ReachesNext(s1, Student(i), s2);
    ReachesNext(s2, Student(i), Taking(s, i));
    ReachesOn(s, s1, s2);
    ReachesOn(s, s2, Taking(s, i));
  }

  lemma StudentCounts(s: Machine, i: nat)
    requires i < |s.students| && s.students[i] == Arrive
    ensures Reaches(s, Counting(s, i))
  {
    ReachesNext(s, Student(i), Counting(s, i));
  }

  lemma StudentMovesOn(s: Machine, i: nat)
    requires i < |s.students| && s.students[i] == NextSeat
    ensures Reaches(s, Moving(s, i))
  {
    ReachesNext(s, Student(i), Moving(s, i));
  }

  lemma StudentPosts(s: Machine, i: nat)
    requires i < |s.students| && s.students[i] == StUnlock
    ensures Reaches(s, Posting(s, i))
  {
    var s1 := Goto(s, i, StPost).(mutex := Free);
    assert s1.students[i := WaitTa] == s.students[i := WaitTa];
    ReachesNext(s, Student(i), s1);
    ReachesNext(s1, Student(i), Posting(s, i));
    ReachesOn(s, s1, Posting(s, i));
  }

  lemma StudentSits(s: Machine, i: nat)
    requires i < |s.students| && s.students[i] == StLock && s.mutex == Free && s.waiting < CHAIRS
    ensures Reaches(s, Sitting(s, i))
  {
    var s1 := Taking(s, i);
    var s2 := Counting(s1, i);
    var s3 := Moving(s2, i);
    StudentTakes(s, i);
    StudentCounts(s1, i);
    StudentMovesOn(s2, i);
    StudentPosts(s3, i);
    ReachesOn(s, s1, s2);
    ReachesOn(s, s2, s3);
    ReachesOn(s, s3, Sitting(s, i));
  }

  /** The student gets past its wait. */
  function Passing(s: Machine, i: nat): Machine
    requires i < |s.students| && 0 < s.taAvailable
  {
    Goto(s, i, Scan(0)).(taAvailable := s.taAvailable - 1)
  }

  lemma StudentPasses(s: Machine, i: nat)
    requires i < |s.students| && s.students[i] == WaitTa && 0 < s.taAvailable
    ensures Reaches(s, Passing(s, i))
  {
    ReachesNext(s, Student(i), Passing(s, i));
  }

  /** The TA takes a permit of students_waiting and the mutex ... */
  function Coming(s: Machine): Machine
    requires 0 < s.studentsWaiting
  {
    s.(ta := Help, asleep := false, studentsWaiting := s.studentsWaiting - 1, mutex := HeldByTa)
  }

  /** ... helps the next student and clears the chair ... */
  function Clearing(s: Machine): Machine {
    s.(ta := Leave, helped := s.helped + [s.chairs[s.nextHelp]], chairs := s.chairs[s.nextHelp := 0])
  }

  /** ... counts it out ... */
  function Dismissing(s: Machine): Machine {
    s.(ta := NextHelp, waiting := s.waiting - 1)
  }

  /** ... moves the index on and gives the mutex back ... */
  function MovingOn(s: Machine): Machine {
    s.(ta := TaPost, nextHelp := (s.nextHelp + 1) % CHAIRS, mutex := Free)
  }

  /** ... and posts ta_available. */
  function Helping(s: Machine): (r: Machine)
    requires 0 < s.studentsWaiting
    ensures r.students == s.students && r.seated == s.seated && r.taAvailable == s.taAvailable + 1
    ensures r.helped == s.helped + [s.chairs[s.nextHelp]]
  {
    var s' := MovingOn(Dismissing(Clearing(Coming(s))));
    s'.(ta := Look, taAvailable := s'.taAvailable + 1)
  }

  lemma TaComes(s: Machine)
    requires s.ta == Look && s.mutex == Free && 0 < s.waiting && 0 < s.studentsWaiting
    ensures Reaches(s, Coming(s))
  {
    var s1 := s.(ta := Awake);
    var s2 := s1.(asleep := false, ta := Await);
    var s3 := s2.(studentsWaiting := s.studentsWaiting - 1, ta := TaLock);
    ReachesNext(s, Ta, s1);
    ReachesNext(s1, Ta, s2);
    ReachesNext(s2, Ta, s3);
    ReachesNext(s3, Ta, Coming(s));
    ReachesOn(s, s1, s2);
    ReachesOn(s, s2, s3);
    ReachesOn(s, s3, Coming(s));
  }

  lemma TaClears(s: Machine)
    requires s.ta == Help
    ensures Reaches(s, Clearing(s))
  {
    var s1 := s.(helped := s.helped + [s.chairs[s.nextHelp]], ta := ClearChair);
    ReachesNext(s, Ta, s1);
    ReachesNext(s1, Ta, Clearing(s));
    ReachesOn(s, s1, Clearing(s));
  }

  lemma TaDismisses(s: Machine)
    requires s.ta == Leave
    ensures Reaches(s, Dismissing(s))
  {
    ReachesNext(s, Ta, Dismissing(s));
  }

  lemma TaMovesOn(s: Machine)
    requires s.ta == NextHelp
    ensures Reaches(s, MovingOn(s))
  {
    var s1 := s.(nextHelp := (s.nextHelp + 1) % CHAIRS, ta := TaUnlock);
    ReachesNext(s, Ta, s1);
    ReachesNext(s1, Ta, MovingOn(s));
    ReachesOn(s, s1, MovingOn(s));
  }

  lemma TaHelps(s: Machine)
    requires s.ta == Look && s.mutex == Free && 0 < s.waiting && 0 < s.studentsWaiting
    ensures Reaches(s, Helping(s))
  {
    var s1, s2, s3 := Coming(s), Clearing(Coming(s)), Dismissing(Clearing(Coming(s)));
    var s4 := MovingOn(s3);
    TaComes(s);
    TaClears(s1);
    TaDismisses(s2);
    TaMovesOn(s3);
    ReachesNext(s4, Ta, Helping(s));
    ReachesOn(s, s1, s2);
    ReachesOn(s, s2, s3);
    ReachesOn(s, s3, s4);
    ReachesOn(s, s4, Helping(s));
  }

  // ---------- as many helped as past the wait ----------

  /** In no run more students than the permits to start with are past their wait without a help to match. */
  lemma PassedAtMostPermitsAhead(n: nat, permits: nat, schedule: seq<Thread>)
    ensures var s := Run(Start(n, permits), schedule); Passed(s) <= |s.helped| + permits
  {
    SleepingTaTheorems.ReachableInv(n, permits, schedule);
  }

  /** In a single state: some pass without a help to match exactly when permits are missing, counting the one the
      TA owes. */
  lemma AheadExactlyWhenPermitsMissing(s: Machine, permits: nat)
    requires PermitsRight(s, permits)
    ensures |s.helped| < Passed(s) <==> s.taAvailable + (if OwesPost(s.ta) then 1 else 0) < permits
  {
  }

  /** Every student past its wait is matched by a help, in every run. */
  ghost predicate WaitMeansHelp(n: nat, permits: nat) {
    forall schedule: seq<Thread> :: var s := Run(Start(n, permits), schedule); Passed(s) <= |s.helped|
  }

  lemma FirstWaits(n: nat, permits: nat) returns (s: Machine)
    requires 0 < n
    ensures Reaches(Start(n, permits), s)
    ensures s.seated == [Id(0)] && s.helped == [] && s.chairs == [Id(0), 0, 0] && s.nextSeat == 1 && s.nextHelp == 0
    ensures s.waiting == s.studentsWaiting == 1 && s.taAvailable == permits && s.mutex == Free && s.ta == Look
    ensures s.students == Start(n, permits).students[0 := WaitTa]
  {
    var start := Start(n, permits);
    StudentEnters(start, 0);
    StudentSits(Entering(start, 0), 0);
    s := Sitting(Entering(start, 0), 0);
    assert s.students == start.students[0 := WaitTa];
    ReachesOn(start, Entering(start, 0), s);
  }

  /** The first student takes a chair and is past its wait before the TA has moved. */
  lemma PassedWithoutHelp(n: nat, permits: nat) returns (s: Machine)
    requires 0 < n && 0 < permits
    ensures Reaches(Start(n, permits), s)
    ensures s.helped == [] && s.ta == Look && Passed(s) == 1
    ensures s.seated == [Id(0)] && s.chairs[0] == Id(0) && |s.students| == n && s.students[0] == Scan(0)
  {
    var waiting := FirstWaits(n, permits);
    StudentPasses(waiting, 0);
    s := Passing(waiting, 0);
    ReachesOn(Start(n, permits), waiting, s);
    CountNobody(Unserved, s.students);
  }

  /** sem_wait(&ta_available) counts helps exactly when the semaphore starts at 0, or there is no student. */
  lemma WaitMeansHelpExactlyWithoutPermits(n: nat, permits: nat)
    ensures WaitMeansHelp(n, permits) <==> permits == 0 || n == 0
  {
    if permits == 0 || n == 0 {
      forall schedule: seq<Thread>
        ensures var s := Run(Start(n, permits), schedule); Passed(s) <= |s.helped|
      {
        PassedAtMostPermitsAhead(n, permits, schedule);
        NobodySits(n, permits, schedule);
      }
    } else {
      var s := PassedWithoutHelp(n, permits);
      var schedule :| Run(Start(n, permits), schedule) == s;
    }
  }

  /** Without students nobody is ever seated. */
  lemma NobodySits(n: nat, permits: nat, schedule: seq<Thread>)
    ensures n == 0 ==> Run(Start(n, permits), schedule).seated == []
  {
    var s := Run(Start(n, permits), schedule);
    SleepingTaTheorems.ReachableInv(n, permits, schedule);
    if s.seated != [] {
      assert 1 <= s.seated[0] <= n;
    }
  }

  // ---------- each student past the wait has been helped itself ----------

  /** No student that is not between its chair and the end of its wait has a seating that was not helped. */
  ghost predicate EachHelped(s: Machine) {
    forall i :: 0 <= i < |s.students| && !In(Unserved, s.students[i]) && |s.helped| <= |s.seated| ==>
      Id(i) !in s.seated[|s.helped|..]
  }

  ghost predicate WaitMeansOwnHelp(n: nat, permits: nat) {
    forall schedule: seq<Thread> :: EachHelped(Run(Start(n, permits), schedule))
  }

  lemma OnlyStudentHelped(s: Machine)
    requires Inv(s) && PermitsRight(s, 0) && |s.students| == 1
    ensures EachHelped(s)
  {
    if !In(Unserved, s.students[0]) {
      CountNobody(Unserved, s.students);
      assert s.seated[|s.helped|..] == [];
    }
  }

  lemma SecondWaits(n: nat) returns (s: Machine)
    requires 1 < n
    ensures Reaches(Start(n, 0), s)
    ensures s.seated == [Id(0), Id(1)] && s.helped == [] && s.chairs[0] == Id(0) && s.nextHelp == 0
    ensures s.waiting == s.studentsWaiting == 2 && s.mutex == Free && s.ta == Look
    ensures |s.students| == n && s.students[1] == WaitTa
  {
    var first := FirstWaits(n, 0);
    StudentEnters(first, 1);
    StudentSits(Entering(first, 1), 1);
    s := Sitting(Entering(first, 1), 1);
    ReachesOn(first, Entering(first, 1), s);
    ReachesOn(Start(n, 0), first, s);
  }

  /** Two students wait, the TA helps the first, and the second takes the permit posted for it. */
  lemma SecondPassesForFirst(n: nat) returns (s: Machine)
    requires 1 < n
    ensures Reaches(Start(n, 0), s)
    ensures s.seated == [Id(0), Id(1)] && s.helped == [Id(0)] && |s.students| == n && s.students[1] == Scan(0)
  {
    var waiting := SecondWaits(n);
    TaHelps(waiting);
    StudentPasses(Helping(waiting), 1);
    s := Passing(Helping(waiting), 1);
    ReachesOn(waiting, Helping(waiting), s);
    ReachesOn(Start(n, 0), waiting, s);
  }

  lemma NotEachHelped(n: nat, permits: nat) returns (s: Machine)
    requires (0 < n && 0 < permits) || 1 < n
    ensures Reaches(Start(n, permits), s) && !EachHelped(s)
  {
    if 0 < permits {
      s := PassedWithoutHelp(n, permits);
      assert s.seated[|s.helped|..] == [Id(0)];
    } else {
      s := SecondPassesForFirst(n);
      assert s.seated[|s.helped|..] == [Id(1)];
    }
  }

  /** A student past its wait has been helped itself exactly when there is no student, or a single one and the
      semaphore starts at 0. */
  lemma WaitMeansOwnHelpExactlyForOne(n: nat, permits: nat)
    ensures WaitMeansOwnHelp(n, permits) <==> n == 0 || (n == 1 && permits == 0)
  {
    if n == 0 || (n == 1 && permits == 0) {
      forall schedule: seq<Thread>
        ensures EachHelped(Run(Start(n, permits), schedule))
      {
        if n == 0 {
          NobodySits(n, permits, schedule);
        } else {
          SleepingTaTheorems.ReachableInv(1, 0, schedule);
          OnlyStudentHelped(Run(Start(1, 0), schedule));
        }
      }
    } else {
      var s := NotEachHelped(n, permits);
      var schedule :| Run(Start(n, permits), schedule) == s;
    }
  }
}
