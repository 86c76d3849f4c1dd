/** Assignment_3/solution/q1.c: one TA and any number of students. A step is one access to shared memory,
    the mutex or a semaphore, by one thread; a schedule is any sequence of threads, and a thread that is
    blocked stays where it is. `seated` and `helped` are the ids the program announces when a student takes
    a chair and when the TA helps one. */
module SleepingTa {

  const CHAIRS := 3
  const PERMITS := 1

  /** Where the TA is in ta_function. */
  datatype TaPc =
    | Look        // while (1): if (number_students_waiting > 0)
    | Awake       // ta_is_asleep = 0
    | Await       // sem_wait(&students_waiting)
    | TaLock
    | Help        // announce waiting_room_chairs[next_student_getting_help]
    | ClearChair
    | Leave       // number_students_waiting--
    | NextHelp
    | TaUnlock
    | TaPost      // sem_post(&ta_available)
    | Doze        // ta_is_asleep = 1

  /** Where a student is in student_function. */
  datatype StudentPc =
    | Scan(chair: nat)  // student_already_waiting, about to read this chair
    | Program
    | StLock
    | Check       // if (number_students_waiting < NUM_WAITING_CHAIRS)
    | TakeChair
    | Arrive      // number_students_waiting++
    | NextSeat
    | StUnlock
    | StPost      // sem_post(&students_waiting)
    | WaitTa      // sem_wait(&ta_available)
    | GiveUp      // unlock without a chair

  datatype Owner = Free | HeldByTa | HeldBy(student: nat)

  datatype Thread = Ta | Student(i: nat)

  datatype State = State(
    chairs: seq<nat>,
    waiting: int,
    nextSeat: nat,
    nextHelp: nat,
    asleep: bool,
    studentsWaiting: nat,
    taAvailable: nat,
    mutex: Owner,
    ta: TaPc,
    students: seq<StudentPc>,
    seated: seq<nat>,
    helped: seq<nat>)

  /** The id of the i-th student; 0 marks an empty chair. */
  function Id(i: nat): nat { i + 1 }

  ghost predicate Shape(s: State) {
    && |s.chairs| == CHAIRS && s.nextSeat < CHAIRS && s.nextHelp < CHAIRS
    && forall i :: 0 <= i < |s.students| && s.students[i].Scan? ==> s.students[i].chair < CHAIRS
  }

  type Machine = s: State | Shape(s) ghost witness Start(0, 0)

  // ---------- steps ----------

  /** n students, and ta_available initialised to `permits`; main initialises it to 1. */
  function Start(n: nat, permits: nat): (s: State)
    ensures Shape(s)
  {
    State([0, 0, 0], 0, 0, 0, false, 0, permits, Free, Look, seq(n, i => Scan(0)), [], [])
  }

  predicate TaEnabled(s: Machine) {
    match s.ta
    case Await => 0 < s.studentsWaiting
    case TaLock => s.mutex == Free
    case _ => true
  }

  function TaStep(s: Machine): Machine
  {
    if !TaEnabled(s) then s
    else
      match s.ta
      case Look => s.(ta := if 0 < s.waiting then Awake else Doze)
      case Awake => s.(asleep := false, ta := Await)
      case Await => s.(studentsWaiting := s.studentsWaiting - 1, ta := TaLock)
      case TaLock => s.(mutex := HeldByTa, ta := Help)
      case Help => s.(helped := s.helped + [s.chairs[s.nextHelp]], ta := ClearChair)
      case ClearChair => s.(chairs := s.chairs[s.nextHelp := 0], ta := Leave)
      case Leave => s.(waiting := s.waiting - 1, ta := NextHelp)
      case NextHelp => s.(nextHelp := (s.nextHelp + 1) % CHAIRS, ta := TaUnlock)
      case TaUnlock => s.(mutex := Free, ta := TaPost)
      case TaPost => s.(taAvailable := s.taAvailable + 1, ta := Look)
      case Doze => s.(asleep := true, ta := Look)
  }

  predicate StudentEnabled(s: Machine, i: nat) {
    && i < |s.students|
    && match s.students[i]
       case StLock => s.mutex == Free
       case WaitTa => 0 < s.taAvailable
       case _ => true
  }

  function Goto(s: Machine, i: nat, pc: StudentPc): Machine
    requires i < |s.students| && (pc.Scan? ==> pc.chair < CHAIRS)
  {
    s.(students := s.students[i := pc])
  }

  function StudentStep(s: Machine, i: nat): Machine
  {
    if !StudentEnabled(s, i) then s
    else
      match s.students[i]
      case Scan(chair) =>
        if s.chairs[chair] == Id(i) then Goto(s, i, Scan(0))
        else if chair + 1 < CHAIRS then Goto(s, i, Scan(chair + 1))
        else Goto(s, i, Program)
      case Program => Goto(s, i, StLock)
      case StLock => Goto(s, i, Check).(mutex := HeldBy(i))
      case Check => Goto(s, i, if s.waiting < CHAIRS then TakeChair else GiveUp)
      case TakeChair => Goto(s, i, Arrive).(chairs := s.chairs[s.nextSeat := Id(i)], seated := s.seated + [Id(i)])
      case Arrive => Goto(s, i, NextSeat).(waiting := s.waiting + 1)
      case NextSeat => Goto(s, i, StUnlock).(nextSeat := (s.nextSeat + 1) % CHAIRS)
      case StUnlock => Goto(s, i, StPost).(mutex := Free)
      case StPost => Goto(s, i, WaitTa).(studentsWaiting := s.studentsWaiting + 1)
      case WaitTa => Goto(s, i, Scan(0)).(taAvailable := s.taAvailable - 1)
      case GiveUp => Goto(s, i, Scan(0)).(mutex := Free)
  }

  predicate Enabled(s: Machine, t: Thread) {
    match t
    case Ta => TaEnabled(s)
    case Student(i) => StudentEnabled(s, i)
  }

  function Step(s: Machine, t: Thread): Machine
  {
    match t
    case Ta => TaStep(s)
    case Student(i) => StudentStep(s, i)
  }

  function Run(s: Machine, schedule: seq<Thread>): Machine
    decreases schedule
  {
    if schedule == [] then s else Run(Step(s, schedule[0]), schedule[1..])
  }

  // ---------- counting students ----------

  /** Students between the steps of taking a chair: not counted yet; next seat not moved yet; students_waiting
      not posted yet; not yet past the wait for the TA. */
  datatype Group = Arriving | Seating | Pending | Unserved

  predicate In(group: Group, pc: StudentPc) {
    match pc
    case Arrive => true
    case NextSeat => group != Arriving
    case StUnlock => group == Pending || group == Unserved
    case StPost => group == Pending || group == Unserved
    case WaitTa => group == Unserved
    case _ => false
  }

  function Count(group: Group, students: seq<StudentPc>): nat {
    if students == [] then 0
    else Count(group, students[..|students| - 1]) + if In(group, students[|students| - 1]) then 1 else 0
  }

  lemma {:induction false} CountUpdate(group: Group, students: seq<StudentPc>, i: nat, pc: StudentPc)
    requires i < |students|
    ensures Count(group, students[i := pc])
         == Count(group, students) - (if In(group, students[i]) then 1 else 0) + (if In(group, pc) then 1 else 0)
  {
    var n := |students| - 1;
    if i < n {
      CountUpdate(group, students[..n], i, pc);
      assert students[i := pc][..n] == students[..n][i := pc];
    } else {
      assert students[i := pc][..n] == students[..n];
    }
  }

  lemma {:induction false} CountNobody(group: Group, students: seq<StudentPc>)
    requires forall i :: 0 <= i < |students| ==> !In(group, students[i])
    ensures Count(group, students) == 0
  {
    if students != [] {
      CountNobody(group, students[..|students| - 1]);
    }
  }
}
