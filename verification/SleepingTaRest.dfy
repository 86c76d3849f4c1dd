/** When the TA sleeps, and who gets a chair. */
module SleepingTaRest {
  import opened SleepingTa
  import opened SleepingTaInvariant
  import SleepingTaTheorems
  import SleepingTaPermits

  // ---------- sleep ----------

  /** The TA sleeps only between finding nobody and having looked again; never on its way to a student. */
  ghost predicate SleepsIdle(s: Machine) {
    s.asleep ==> s.ta == Look || s.ta == Doze || s.ta == Awake
  }

  lemma StepKeepsSleepsIdle(s: Machine, t: Thread)
    requires SleepsIdle(s)
    ensures SleepsIdle(Step(s, t))
  {
    if t.Student? && StudentEnabled(s, t.i) {
      StudentKeepsAsleep(s, t.i);
    }
  }

  lemma StudentKeepsAsleep(s: Machine, i: nat)
    ensures StudentStep(s, i).asleep == s.asleep && StudentStep(s, i).ta == s.ta
  {
  }

  lemma {:induction false} RunKeepsSleepsIdle(s: Machine, schedule: seq<Thread>)
    requires SleepsIdle(s)
    ensures SleepsIdle(Run(s, schedule))
    decreases schedule
  {
    if schedule != [] {
      StepKeepsSleepsIdle(s, schedule[0]);
      RunKeepsSleepsIdle(Step(s, schedule[0]), schedule[1..]);
    }
  }

  /** In every run: while the TA waits for a student, locks for one or helps one, it is awake. */
  lemma AwakeForStudents(n: nat, permits: nat, schedule: seq<Thread>)
    ensures var s := Run(Start(n, permits), schedule); s.asleep ==> s.ta in {Look, Doze, Awake}
  {
    RunKeepsSleepsIdle(Start(n, permits), schedule);
  }

  lemma TwoMoves(s: Machine, schedule: seq<Thread>)
    ensures Run(s, schedule + [Ta, Ta]) == TaStep(TaStep(Run(s, schedule)))
  {
    SleepingTaPermits.RunAppend(s, schedule, [Ta, Ta]);
    var s' := Run(s, schedule);
    assert [Ta, Ta][1..] == [Ta] && [Ta][1..] == [];
    assert Run(s', [Ta, Ta]) == Run(TaStep(s'), [Ta]) == Run(TaStep(TaStep(s')), []);
  }

  lemma LookTwice(s: Machine)
    requires s.ta == Look
    ensures var s' := TaStep(TaStep(s));
            if 0 < s.waiting then s'.ta == Await && !s'.asleep else s'.ta == Look && s'.asleep
  {
  }

  /** In every run, a TA that looks and finds nobody counted falls asleep and looks again; one that finds somebody is
      awake and goes for a student. */
  lemma SleepsExactlyWhenNobodyWaits(n: nat, permits: nat, schedule: seq<Thread>)
    requires Run(Start(n, permits), schedule).ta == Look
    ensures var s, s' := Run(Start(n, permits), schedule), Run(Start(n, permits), schedule + [Ta, Ta]);
            && 0 <= s.waiting <= 3
            && (s.waiting == 0 ==> s'.ta == Look && s'.asleep)
            && (s.waiting > 0 ==> s'.ta == Await && !s'.asleep)
  {
    TwoMoves(Start(n, permits), schedule);
    LookTwice(Run(Start(n, permits), schedule));
    SleepingTaTheorems.CounterInEveryRun(n, permits, schedule);
  }

  // ---------- a chair for every student that finds room ----------

  lemma ThreeMoves(s: Machine, schedule: seq<Thread>, t: Thread)
    ensures Run(s, schedule + [t, t, t]) == Step(Step(Step(Run(s, schedule), t), t), t)
  {
    SleepingTaPermits.RunAppend(s, schedule, [t, t, t]);
    var s' := Run(s, schedule);
    assert [t, t, t][1..] == [t, t] && [t, t][1..] == [t] && [t][1..] == [];
    assert Run(s', [t, t, t]) == Run(Step(s', t), [t, t]) == Run(Step(Step(s', t), t), [t]);
    assert Run(Step(Step(s', t), t), [t]) == Run(Step(Step(Step(s', t), t), t), []);
  }

  lemma EnterOne(s: Machine, i: nat)
    requires i < |s.students| && s.students[i] == StLock && s.mutex == Free
    ensures StudentStep(s, i) == s.(mutex := HeldBy(i), students := s.students[i := Check])
  {
  }

  lemma LooksForRoom(s: Machine, i: nat)
    requires i < |s.students| && s.students[i] == Check
    ensures StudentStep(s, i) == s.(students := s.students[i := if s.waiting < 3 then TakeChair else GiveUp])
  {
  }

  /** A student that gets the mutex sits down in the next chair if fewer than three wait, and otherwise leaves everything as
      it was. */
  lemma ChairExactlyIfRoom(s: Machine, i: nat)
    requires i < |s.students| && s.students[i] == StLock && s.mutex == Free
    ensures var s' := StudentStep(StudentStep(StudentStep(s, i), i), i);
            if s.waiting < 3 then
              s'.seated == s.seated + [Id(i)] && s'.chairs == s.chairs[s.nextSeat := Id(i)]
            else
              s' == s.(students := s.students[i := Scan(0)])
  {
    EnterOne(s, i);
    var s1 := s.(mutex := HeldBy(i), students := s.students[i := Check]);
    LooksForRoom(s1, i);
    assert s.students[i := Check][i := if s.waiting < 3 then TakeChair else GiveUp]
        == s.students[i := if s.waiting < 3 then TakeChair else GiveUp];
    assert s.students[i := GiveUp][i := Scan(0)] == s.students[i := Scan(0)];
  }

  /** That in every run of the program. */
  lemma ChairInEveryRun(n: nat, permits: nat, schedule: seq<Thread>, i: nat)
    requires i < n
    ensures var s := Run(Start(n, permits), schedule);
            && |s.students| == n
            && (s.students[i] == StLock && s.mutex == Free ==>
                  var s' := Run(Start(n, permits), schedule + [Student(i), Student(i), Student(i)]);
                  if s.waiting < 3 then s'.seated == s.seated + [i + 1]
                  else s'.seated == s.seated && s'.chairs == s.chairs && s'.mutex == Free && s'.waiting == s.waiting)
  {
    SleepingTaTheorems.ReachableInv(n, permits, schedule);
    var s := Run(Start(n, permits), schedule);
    if s.students[i] == StLock && s.mutex == Free {
      ThreeMoves(Start(n, permits), schedule, Student(i));
      ChairExactlyIfRoom(s, i);
    }
  }
}
