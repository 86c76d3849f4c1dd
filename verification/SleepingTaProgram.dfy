/** Assignment_3/solution/q1.c as a program: the globals are fields; each call of `TaFunction` or
    `StudentFunction` executes the next step of one thread, and a schedule decides which thread that is. */
module SleepingTaProgram {
  import opened SleepingTa
  import SleepingTaInvariant
  import SleepingTaRest
  import SleepingTaTheorems

  class WaitingRoom {
    const chairs: array<nat>
    const students: array<StudentPc>
    var waiting: int
    var nextSeat: nat
    var nextHelp: nat
    var asleep: bool
    var studentsWaiting: nat
    var taAvailable: nat
    var mutex: Owner
    var ta: TaPc
    var seated: seq<nat>  // the announcements so far
    var helped: seq<nat>

    ghost function Model(): State
      reads this, chairs, students
    {
      State(chairs[..], waiting, nextSeat, nextHelp, asleep, studentsWaiting, taAvailable, mutex, ta,
            students[..], seated, helped)
    }

    ghost predicate Valid()
      reads this, chairs, students
    {
      Shape(Model())
    }

    constructor (n: nat)
      ensures Valid() && fresh(chairs) && fresh(students) && Model() == Start(n, PERMITS)
    {
      chairs := new nat[CHAIRS](i => 0);
      students := new StudentPc[n](i => Scan(0));
      waiting, nextSeat, nextHelp, asleep := 0, 0, 0, false;
      studentsWaiting, taAvailable := 0, PERMITS;
      mutex, ta, seated, helped := Free, Look, [], [];
      new;
      assert chairs[..] == [0, 0, 0];
      assert students[..] == Start(n, PERMITS).students;
    }

    /** ta_function between locking and unlocking the mutex. */
    method HelpStudent()
      requires Valid() && SleepingTaInvariant.TaInside(ta)
      modifies this, chairs
      ensures Valid() && Model() == TaStep(old(Model()))
    {
      match ta
      case Help => helped, ta := helped + [chairs[nextHelp]], ClearChair;
      case ClearChair =>
        chairs[nextHelp] := 0;
        ta := Leave;
      case Leave => waiting, ta := waiting - 1, NextHelp;
      case NextHelp => nextHelp, ta := (nextHelp + 1) % CHAIRS, TaUnlock;
      case TaUnlock => mutex, ta := Free, TaPost;
    }

    method TaFunction()
      requires Valid()
      modifies this, chairs
      ensures Valid() && Model() == TaStep(old(Model()))
    {
      if SleepingTaInvariant.TaInside(ta) {
        HelpStudent();
        return;
      }
      match ta
      case Look => ta := if waiting > 0 then Awake else Doze;
      case Awake => asleep, ta := false, Await;
      case Await =>
        if studentsWaiting > 0 {
          studentsWaiting, ta := studentsWaiting - 1, TaLock;
        }
      case TaLock =>
        if mutex == Free {
          mutex, ta := HeldByTa, Help;
        }
      case TaPost => taAvailable, ta := taAvailable + 1, Look;
      case Doze =>
        if !asleep {
          asleep := true;
        }
        ta := Look;
    }

    /** One iteration of the loop in student_already_waiting. */
    method StudentAlreadyWaiting(i: nat, chair: nat)
      requires Valid() && i < students.Length && students[i] == Scan(chair)
      modifies students
      ensures Valid() && Model() == StudentStep(old(Model()), i)
    {
      assert Model().students[i] == Scan(chair);
      if chairs[chair] == Id(i) {
        students[i] := Scan(0);
      } else if chair + 1 < CHAIRS {
        students[i] := Scan(chair + 1);
      } else {
        students[i] := Program;
      }
    }

    /** The program counter of student i. */
    method Goto(i: nat, pc: StudentPc)
      requires i < students.Length
      modifies students
      ensures students[..] == old(students[..])[i := pc]
    {
      students[i] := pc;
    }

    /** student_function between locking and unlocking the mutex. */
    method TakeSeat(i: nat)
      requires Valid() && i < students.Length && SleepingTaInvariant.StudentInside(students[i])
      modifies this, chairs, students
      ensures Valid() && Model() == StudentStep(old(Model()), i)
    {
      match students[i]
      case Check => Goto(i, if waiting < CHAIRS then TakeChair else GiveUp);
      case TakeChair =>
        chairs[nextSeat] := Id(i);
        seated := seated + [Id(i)];
        Goto(i, Arrive);
      case Arrive =>
        waiting := waiting + 1;
        Goto(i, NextSeat);
      case NextSeat =>
        nextSeat := (nextSeat + 1) % CHAIRS;
        Goto(i, StUnlock);
      case StUnlock =>
        mutex := Free;
        Goto(i, StPost);
      case GiveUp =>
        mutex := Free;
        Goto(i, Scan(0));
    }

    method StudentFunction(i: nat)
      requires Valid() && i < students.Length && !students[i].Scan?
      modifies this, chairs, students
      ensures Valid() && Model() == StudentStep(old(Model()), i)
    {
      if SleepingTaInvariant.StudentInside(students[i]) {
        TakeSeat(i);
        return;
      }
      match students[i]
      case Program => Goto(i, StLock);
      case StLock =>
        if mutex == Free {
          mutex := HeldBy(i);
          Goto(i, Check);
        }
      case StPost =>
        studentsWaiting := studentsWaiting + 1;
        Goto(i, WaitTa);
      case WaitTa =>
        if taAvailable > 0 {
          taAvailable := taAvailable - 1;
          Goto(i, Scan(0));
        }
    }

    method Execute(schedule: seq<Thread>)
      requires Valid()
      modifies this, chairs, students
      ensures Valid() && Model() == Run(old(Model()), schedule)
    {
      for k := 0 to |schedule|
        invariant Valid() && Run(Model(), schedule[k..]) == Run(old(Model()), schedule)
      {
        assert schedule[k..][0] == schedule[k] && schedule[k..][1..] == schedule[k + 1..];
        match schedule[k] {
          case Ta => TaFunction();
          case Student(i) =>
            if i < students.Length {
              if students[i].Scan? {
                StudentAlreadyWaiting(i, students[i].chair);
              } else {
                StudentFunction(i);
              }
            }
        }
      }
    }
  }

  /** The program with n students under any scheduler: what it has announced when it is stopped, how many wait, and
      whether the TA sleeps. */
  method RunOffice(n: nat, schedule: seq<Thread>) returns (seated: seq<nat>, helped: seq<nat>, waiting: int, asleep: bool)
    ensures var s := Run(Start(n, 1), schedule);
            && seated == s.seated && helped == s.helped && waiting == s.waiting && asleep == s.asleep
            && (asleep ==> s.ta in {Look, Doze, Awake})
    ensures helped <= seated && |seated| <= |helped| + 3
    ensures forall k :: 0 <= k < |seated| ==> 1 <= seated[k] <= n
    ensures 0 <= waiting <= 3
  {
    var room := new WaitingRoom(n);
    room.Execute(schedule);
    seated, helped, waiting, asleep := room.seated, room.helped, room.waiting, room.asleep;
    SleepingTaTheorems.ReachableInv(n, PERMITS, schedule);
    SleepingTaTheorems.CounterLaw(Run(Start(n, PERMITS), schedule));
    SleepingTaRest.AwakeForStudents(n, PERMITS, schedule);
  }
}
