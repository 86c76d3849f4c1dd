/** What every interleaving of the Sleeping TA keeps: who may touch what, how the ring of chairs relates to
    the announcements, and how the counter and the two semaphores follow from them. */
module SleepingTaInvariant {
  import opened SleepingTa

  // ---------- the mutex ----------

  predicate TaInside(pc: TaPc) {
    match pc
    case Help => true
    case ClearChair => true
    case Leave => true
    case NextHelp => true
    case TaUnlock => true
    case _ => false
  }

  predicate StudentInside(pc: StudentPc) {
    match pc
    case Check => true
    case TakeChair => true
    case Arrive => true
    case NextSeat => true
    case StUnlock => true
    case GiveUp => true
    case _ => false
  }

  ghost predicate Exclusive(s: Machine) {
    && (s.mutex == HeldByTa <==> TaInside(s.ta))
    && (s.mutex.HeldBy? ==> s.mutex.student < |s.students|)
    && forall i :: 0 <= i < |s.students| ==> (s.mutex == HeldBy(i) <==> StudentInside(s.students[i]))
  }

  // ---------- the ring of chairs ----------

  /** The chair of the n-th student ever to sit down. */
  function Slot(n: int): (r: nat)
    ensures r < CHAIRS
  {
    n % CHAIRS
  }

  /** How many chairs have been vacated, and how many times each index has moved. */
  function Cleared(s: Machine): int {
    |s.helped| - if s.ta == ClearChair then 1 else 0
  }

  function HelpMoves(s: Machine): int {
    |s.helped| - if s.ta == ClearChair || s.ta == Leave || s.ta == NextHelp then 1 else 0
  }

  function SeatMoves(s: Machine): int {
    |s.seated| - Count(Seating, s.students)
  }

  ghost predicate Announced(seated: seq<nat>, helped: seq<nat>, cleared: int, helpMoves: int, seatMoves: int, n: nat) {
    && 0 <= helpMoves <= cleared <= |helped| <= |seated| <= helpMoves + CHAIRS
    && 0 <= seatMoves
    && helped == seated[..|helped|]
    && (forall k :: 0 <= k < |seated| ==> 1 <= seated[k] <= n)
  }

  /** The chairs hold exactly the students seated and not yet vacated, in the order they sat down. */
  ghost predicate Occupied(chairs: seq<nat>, seated: seq<nat>, cleared: int)
    requires |chairs| == CHAIRS && 0 <= cleared
  {
    && (forall k :: cleared <= k < |seated| ==> chairs[Slot(k)] == seated[k])
    && (forall k :: |seated| <= k < cleared + CHAIRS ==> chairs[Slot(k)] == 0)
  }

  ghost predicate Ring(s: Machine) {
    && Announced(s.seated, s.helped, Cleared(s), HelpMoves(s), SeatMoves(s), |s.students|)
    && Occupied(s.chairs, s.seated, Cleared(s))
    && s.nextSeat == Slot(SeatMoves(s)) && s.nextHelp == Slot(HelpMoves(s))
  }

  // ---------- counter and semaphores ----------

  /** number_students_waiting counts those seated and not yet dismissed. */
  ghost predicate CounterRight(s: Machine) {
    s.waiting == |s.seated| - Count(Arriving, s.students)
                 - |s.helped| + (if s.ta == ClearChair || s.ta == Leave then 1 else 0)
  }

  /** students_waiting counts those seated and posted for whom the TA has not yet come. */
  ghost predicate PostsRight(s: Machine) {
    s.studentsWaiting == |s.seated| - Count(Pending, s.students)
                         - |s.helped| - (if s.ta == TaLock || s.ta == Help then 1 else 0)
  }

  ghost predicate Accounts(s: Machine) {
    CounterRight(s) && PostsRight(s)
  }

  /** What a thread that looked at the counter may still rely on. */
  ghost predicate Sightings(s: Machine) {
    && (s.ta == Awake || s.ta == Await ==> 0 < s.waiting)
    && forall i :: 0 <= i < |s.students| && s.students[i] == TakeChair ==> s.waiting < CHAIRS
  }

  // ---------- scans ----------

  /** The student has read this chair, or all chairs, and has not sat down since. */
  predicate Scanned(pc: StudentPc, chair: nat) {
    match pc
    case Scan(next) => chair < next
    case Program => true
    case StLock => true
    case Check => true
    case TakeChair => true
    case _ => false
  }

  /** A student does not sit where it has looked, although it looks chair by chair without the mutex. */
  ghost predicate Scans(s: Machine) {
    forall i, c :: 0 <= i < |s.students| && 0 <= c < CHAIRS && Scanned(s.students[i], c) ==> s.chairs[c] != Id(i)
  }

  /** No student occupies two chairs. */
  ghost predicate NoTwoChairs(chairs: seq<nat>) {
    forall c, d :: 0 <= c < d < |chairs| && chairs[c] != 0 ==> chairs[c] != chairs[d]
  }

  // ---------- the permits of ta_available ----------

  /** Students past their wait for the TA, over the whole run. */
  function Passed(s: Machine): int {
    |s.seated| - Count(Unserved, s.students)
  }

  /** The TA has announced a help and not yet posted ta_available for it. */
  predicate OwesPost(pc: TaPc) {
    (TaInside(pc) && pc != Help) || pc == TaPost
  }

  /** Every permit there ever was has been taken by a student past its wait, or is still there. */
  ghost predicate PermitsRight(s: Machine, permits: nat) {
    Passed(s) + s.taAvailable == permits + |s.helped| - if OwesPost(s.ta) then 1 else 0
  }

  ghost predicate Inv(s: Machine) {
    Exclusive(s) && Ring(s) && Accounts(s) && Sightings(s) && Scans(s) && NoTwoChairs(s.chairs)
  }

  lemma StartInv(n: nat, permits: nat)
    ensures Inv(Start(n, permits)) && PermitsRight(Start(n, permits), permits)
  {
    CountNobody(Arriving, Start(n, permits).students);
    CountNobody(Seating, Start(n, permits).students);
    CountNobody(Pending, Start(n, permits).students);
    CountNobody(Unserved, Start(n, permits).students);
  }

  // ---------- slots ----------

  lemma SlotNext(n: int)
    requires 0 <= n
    ensures (Slot(n) + 1) % CHAIRS == Slot(n + 1)
  {
  }

  lemma SlotsApart(m: int, n: int)
    requires m < n < m + CHAIRS
    ensures Slot(m) != Slot(n)
  {
  }

  lemma SlotWraps(n: int)
    ensures Slot(n + CHAIRS) == Slot(n)
  {
  }

  /** Seating someone in the next slot. */
  lemma OccupyNext(chairs: seq<nat>, seated: seq<nat>, cleared: int, id: nat)
    requires |chairs| == CHAIRS && 0 <= cleared <= |seated| < cleared + CHAIRS && Occupied(chairs, seated, cleared)
    ensures Occupied(chairs[Slot(|seated|) := id], seated + [id], cleared)
  {
    var n := |seated|;
    forall k | cleared <= k < cleared + CHAIRS && k != n
      ensures Slot(k) != Slot(n)
    {
      SlotsApart(if k < n then k else n, if k < n then n else k);
    }
  }

  /** Vacating the oldest slot. */
  lemma VacateOldest(chairs: seq<nat>, seated: seq<nat>, cleared: int)
    requires |chairs| == CHAIRS && 0 <= cleared < |seated| <= cleared + CHAIRS && Occupied(chairs, seated, cleared)
    ensures Occupied(chairs[Slot(cleared) := 0], seated, cleared + 1)
  {
    forall k | cleared < k < cleared + CHAIRS
      ensures Slot(k) != Slot(cleared)
    {
      SlotsApart(cleared, k);
    }
    SlotWraps(cleared);
  }

  // ---------- steps of the TA ----------

  /** When the TA announces whom it helps, someone is seated and not yet helped, and it is the first of them. */
  lemma NeverAnEmptyChair(s: Machine)
    requires Inv(s) && s.ta == Help
    ensures |s.helped| < |s.seated| && s.chairs[s.nextHelp] == s.seated[|s.helped|] != 0
  {
  }

  lemma HelpKeepsRing(s: Machine)
    requires Inv(s) && s.ta == Help
    ensures Ring(TaStep(s))
  {
    NeverAnEmptyChair(s);
    var s', h := TaStep(s), |s.helped|;
    assert s'.helped == s.seated[..h + 1];
    assert Cleared(s') == Cleared(s) && HelpMoves(s') == HelpMoves(s) && SeatMoves(s') == SeatMoves(s);
  }

  lemma ClearChairKeepsRing(s: Machine)
    requires Ring(s) && s.ta == ClearChair
    ensures Ring(TaStep(s))
  {
    var s' := TaStep(s);
    VacateOldest(s.chairs, s.seated, Cleared(s));
    assert Cleared(s') == Cleared(s) + 1 && HelpMoves(s') == HelpMoves(s) == Cleared(s) && SeatMoves(s') == SeatMoves(s);
  }

  lemma TaKeepsRing(s: Machine)
    requires Inv(s)
    ensures Ring(TaStep(s))
  {
    if s.ta == Help {
      HelpKeepsRing(s);
    } else if s.ta == ClearChair {
      ClearChairKeepsRing(s);
    } else if s.ta == NextHelp {
      NextHelpKeepsRing(s);
    } else {
      OtherTaStepsKeepRing(s);
    }
  }

  lemma NextHelpKeepsRing(s: Machine)
    requires Ring(s) && s.ta == NextHelp
    ensures Ring(TaStep(s))
  {
    SlotNext(HelpMoves(s));
    assert HelpMoves(TaStep(s)) == HelpMoves(s) + 1;
  }

  lemma OtherTaStepsKeepRing(s: Machine)
    requires Ring(s) && s.ta != Help && s.ta != ClearChair && s.ta != NextHelp
    ensures Ring(TaStep(s))
  {
    var s' := TaStep(s);
    assert Cleared(s') == Cleared(s) && HelpMoves(s') == HelpMoves(s) && SeatMoves(s') == SeatMoves(s);
  }

  lemma TaKeepsAccounts(s: Machine)
    requires Accounts(s)
    ensures Accounts(TaStep(s))
  {
  }

  lemma TaKeepsExclusive(s: Machine)
    requires Exclusive(s)
    ensures Exclusive(TaStep(s))
  {
  }

  lemma TaKeepsSightings(s: Machine)
    requires Sightings(s)
    ensures Sightings(TaStep(s))
  {
  }

  lemma TaKeepsScans(s: Machine)
    requires Scans(s) && NoTwoChairs(s.chairs)
    ensures Scans(TaStep(s)) && NoTwoChairs(TaStep(s).chairs)
  {
  }

  // ---------- steps of a student ----------

  /** The step with which a student leaves a group. Every group is entered by taking a chair. */
  function Last(group: Group): StudentPc {
    match group
    case Arriving => Arrive
    case Seating => NextSeat
    case Pending => StPost
    case Unserved => WaitTa
  }

  /** What a step of student i does to counter, semaphores and announcements, by where the student is. */
  ghost predicate Effects(s: Machine, s': Machine, i: nat) {
    && i < |s.students| == |s'.students| && s'.students == s.students[i := s'.students[i]]
    && s'.ta == s.ta && s'.helped == s.helped
    && s'.seated == s.seated + (if s.students[i] == TakeChair then [Id(i)] else [])
    && s'.waiting == s.waiting + (if s.students[i] == Arrive then 1 else 0)
    && s'.studentsWaiting == s.studentsWaiting + (if s.students[i] == StPost then 1 else 0)
    && s'.taAvailable == s.taAvailable - (if s.students[i] == WaitTa then 1 else 0)
    && forall group :: In(group, s'.students[i]) <==>
         s.students[i] == TakeChair || (In(group, s.students[i]) && s.students[i] != Last(group))
  }

  lemma StudentEffects(s: Machine, i: nat)
    requires StudentEnabled(s, i)
    ensures Effects(s, StudentStep(s, i), i)
  {
  }

  /** Taking a chair adds to every group; its last step takes from it. */
  lemma EffectCounts(group: Group, s: Machine, s': Machine, i: nat)
    requires Effects(s, s', i)
    ensures Count(group, s'.students) == Count(group, s.students)
              + (if s.students[i] == TakeChair then 1 else 0) - (if s.students[i] == Last(group) then 1 else 0)
  {
    CountUpdate(group, s.students, i, s'.students[i]);
  }

  /** A student that stays where it is with respect to the mutex, takes it, or gives it back. */
  lemma ExclusiveFrame(s: Machine, s': Machine, i: nat)
    requires Exclusive(s) && i < |s.students| && s'.ta == s.ta
    requires |s'.students| == |s.students| && s'.students == s.students[i := s'.students[i]]
    requires var before, after := StudentInside(s.students[i]), StudentInside(s'.students[i]);
             if before == after then s'.mutex == s.mutex
             else if after then s.mutex == Free && s'.mutex == HeldBy(i)
             else s'.mutex == Free
    ensures Exclusive(s')
  {
  }

  lemma StudentKeepsExclusive(s: Machine, i: nat)
    requires Exclusive(s) && StudentEnabled(s, i)
    ensures Exclusive(StudentStep(s, i))
  {
    ExclusiveFrame(s, StudentStep(s, i), i);
  }

  /** While a student takes a chair, the next seat is free. */
  lemma SeatIsFree(s: Machine, i: nat)
    requires Exclusive(s) && Ring(s) && Accounts(s) && Sightings(s)
    requires i < |s.students| && s.students[i] == TakeChair
    ensures Cleared(s) == |s.helped| && |s.seated| < Cleared(s) + CHAIRS && SeatMoves(s) == |s.seated|
    ensures s.nextSeat == Slot(|s.seated|) && s.chairs[s.nextSeat] == 0
  {
    assert s.mutex == HeldBy(i);
    CountNobody(Arriving, s.students);
    CountNobody(Seating, s.students);
  }

  lemma TakeChairKeepsRing(s: Machine, i: nat)
    requires Inv(s) && i < |s.students| && s.students[i] == TakeChair
    ensures Ring(StudentStep(s, i))
  {
    SeatIsFree(s, i);
    var s' := StudentStep(s, i);
    OccupyNext(s.chairs, s.seated, Cleared(s), Id(i));
    CountUpdate(Seating, s.students, i, Arrive);
    assert s'.helped == s'.seated[..|s'.helped|];
    assert Cleared(s') == Cleared(s) && HelpMoves(s') == HelpMoves(s) && SeatMoves(s') == SeatMoves(s);
  }

  lemma RingFrame(s: Machine, s': Machine)
    requires Ring(s) && s'.chairs == s.chairs && s'.seated == s.seated && s'.helped == s.helped
    requires |s'.students| == |s.students| && s'.nextHelp == s.nextHelp && s'.ta == s.ta
    requires SeatMoves(s') == SeatMoves(s) + (if s'.nextSeat == s.nextSeat then 0 else 1)
    requires s'.nextSeat == s.nextSeat || s'.nextSeat == (s.nextSeat + 1) % CHAIRS
    ensures Ring(s')
  {
    SlotNext(SeatMoves(s));
  }

  /** What a student's step does not touch, unless it takes a chair. */
  lemma StudentFrame(s: Machine, i: nat)
    requires StudentEnabled(s, i) && s.students[i] != TakeChair
    ensures var s' := StudentStep(s, i);
            && s'.chairs == s.chairs && s'.nextHelp == s.nextHelp
            && s'.nextSeat == (if s.students[i] == NextSeat then (s.nextSeat + 1) % CHAIRS else s.nextSeat)
  {
  }

  lemma OtherStudentStepsKeepRing(s: Machine, i: nat)
    requires Ring(s) && StudentEnabled(s, i) && s.students[i] != TakeChair
    ensures Ring(StudentStep(s, i))
  {
    StudentFrame(s, i);
    StudentEffects(s, i);
    EffectCounts(Seating, s, StudentStep(s, i), i);
    RingFrame(s, StudentStep(s, i));
  }

  lemma EffectsKeepAccounts(s: Machine, s': Machine, i: nat)
    requires Accounts(s) && Effects(s, s', i)
    ensures Accounts(s')
  {
    EffectCounts(Arriving, s, s', i);
    EffectCounts(Pending, s, s', i);
  }

  lemma EffectsKeepPermits(s: Machine, s': Machine, permits: nat, i: nat)
    requires PermitsRight(s, permits) && Effects(s, s', i)
    ensures PermitsRight(s', permits)
  {
    EffectCounts(Unserved, s, s', i);
  }

  lemma TaKeepsPermits(s: Machine, permits: nat)
    requires PermitsRight(s, permits)
    ensures PermitsRight(TaStep(s), permits)
  {
  }

  lemma StepKeepsPermits(s: Machine, permits: nat, t: Thread)
    requires PermitsRight(s, permits)
    ensures PermitsRight(Step(s, t), permits)
  {
    match t
    case Ta =>
      TaKeepsPermits(s, permits);
    case Student(i) =>
      if StudentEnabled(s, i) {
        StudentEffects(s, i);
        EffectsKeepPermits(s, StudentStep(s, i), permits, i);
      } else {
        assert Step(s, t) == s;
      }
  }

  lemma EffectsKeepSightings(s: Machine, s': Machine, i: nat)
    requires Exclusive(s) && Sightings(s) && Effects(s, s', i)
    requires s'.students[i] == TakeChair ==> s'.waiting < CHAIRS
    ensures Sightings(s')
  {
    assert s.students[i] == Arrive ==> s.mutex == HeldBy(i);
  }


  lemma TakeChairKeepsScans(s: Machine, i: nat)
    requires Inv(s) && i < |s.students| && s.students[i] == TakeChair
    ensures Scans(StudentStep(s, i)) && NoTwoChairs(StudentStep(s, i).chairs)
  {
  }

  /** A chair counts as scanned only if the student had scanned it before, or has just read it. */
  lemma ScanReads(s: Machine, i: nat, c: nat)
    requires StudentEnabled(s, i) && s.students[i] != TakeChair && c < CHAIRS
    ensures Scanned(StudentStep(s, i).students[i], c) ==>
              Scanned(s.students[i], c) || (s.students[i] == Scan(c) && s.chairs[c] != Id(i))
  {
  }

  lemma OtherStudentStepsKeepScans(s: Machine, i: nat)
    requires Scans(s) && NoTwoChairs(s.chairs) && StudentEnabled(s, i) && s.students[i] != TakeChair
    ensures Scans(StudentStep(s, i)) && NoTwoChairs(StudentStep(s, i).chairs)
  {
    var s' := StudentStep(s, i);
    StudentFrame(s, i);
    StudentEffects(s, i);
    forall j, c | 0 <= j < |s'.students| && 0 <= c < CHAIRS && Scanned(s'.students[j], c)
      ensures s'.chairs[c] != Id(j)
    {
      if j == i {
        ScanReads(s, i, c);
      }
    }
  }

  lemma StudentKeepsInv(s: Machine, i: nat)
    requires Inv(s) && StudentEnabled(s, i)
    ensures Inv(StudentStep(s, i))
  {
    StudentKeepsExclusive(s, i);
    StudentEffects(s, i);
    EffectsKeepAccounts(s, StudentStep(s, i), i);
    EffectsKeepSightings(s, StudentStep(s, i), i);
    if s.students[i] == TakeChair {
      TakeChairKeepsRing(s, i);
      TakeChairKeepsScans(s, i);
    } else {
      OtherStudentStepsKeepRing(s, i);
      OtherStudentStepsKeepScans(s, i);
    }
  }

  lemma TaKeepsInv(s: Machine)
    requires Inv(s)
    ensures Inv(TaStep(s))
  {
    TaKeepsExclusive(s);
    TaKeepsRing(s);
    TaKeepsAccounts(s);
    TaKeepsSightings(s);
    TaKeepsScans(s);
  }

  lemma StepKeepsInv(s: Machine, t: Thread)
    requires Inv(s)
    ensures Inv(Step(s, t))
  {
    match t
    case Ta =>
      TaKeepsInv(s);
    case Student(i) =>
      if StudentEnabled(s, i) {
        StudentKeepsInv(s, i);
      } else {
        assert Step(s, t) == s;
      }
  }

  lemma StepKeepsStudents(s: Machine, t: Thread)
    ensures |Step(s, t).students| == |s.students|
  {
  }

  /** Announcements are never taken back. */
  lemma StepKeepsHelped(s: Machine, t: Thread)
    ensures s.helped <= Step(s, t).helped && s.seated <= Step(s, t).seated
  {
    if t.Student? && StudentEnabled(s, t.i) {
      StudentEffects(s, t.i);
    }
  }

  lemma {:induction false} RunKeepsInv(s: Machine, schedule: seq<Thread>)
    requires Inv(s)
    ensures Inv(Run(s, schedule)) && |Run(s, schedule).students| == |s.students|
    decreases schedule
  {
    if schedule != [] {
      var s' := Step(s, schedule[0]);
      StepKeepsInv(s, schedule[0]);
      StepKeepsStudents(s, schedule[0]);
      RunKeepsInv(s', schedule[1..]);
    }
  }

  lemma {:induction false} RunKeepsPermits(s: Machine, permits: nat, schedule: seq<Thread>)
    requires PermitsRight(s, permits)
    ensures PermitsRight(Run(s, schedule), permits)
    decreases schedule
  {
    if schedule != [] {
      StepKeepsPermits(s, permits, schedule[0]);
      RunKeepsPermits(Step(s, schedule[0]), permits, schedule[1..]);
    }
  }
}
