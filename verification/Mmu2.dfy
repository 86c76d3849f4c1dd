/** Assignment_4/solution2/assignment4.c: the memory manager that never removes an evicted page from the
    TLB. TLB_SIZE and FRAME_COUNT are the lengths of `tlb` and `framePage`. */
module Mmu2 {
  import opened Ring
  import opened Paging
  import MachineWords
  import Sequences

  datatype State = State(
    pageTable: seq<int>,
    memory: seq<seq<Byte>>,
    tlb: seq<Entry>,
    tlbIndex: nat,
    tlbCount: nat,
    framePage: seq<int>,
    current: nat)

  // ---------- well-formed states ----------

  ghost predicate Shape(s: State) {
    && |s.pageTable| == PAGES
    && 0 < |s.framePage| == |s.memory|
    && s.tlbIndex < |s.tlb|
    && s.current < |s.framePage|
    && forall f :: 0 <= f < |s.memory| ==> |s.memory[f]| == FRAME_SIZE
  }

  /** The frames in use: all of them, or those before `current`. */
  ghost predicate FramesInOrder(s: State) {
    || (forall f :: 0 <= f < |s.framePage| ==> s.framePage[f] != -1)
    || (forall f :: 0 <= f < |s.framePage| ==> (s.framePage[f] != -1 <==> f < s.current))
  }

  /** Page table and frame table are inverse to each other. */
  ghost predicate Linked(s: State)
    requires Shape(s)
  {
    && (forall f :: 0 <= f < |s.framePage| && s.framePage[f] != -1 ==>
          0 <= s.framePage[f] < PAGES && s.pageTable[s.framePage[f]] == f)
    && (forall p :: 0 <= p < PAGES && s.pageTable[p] != -1 ==>
          0 <= s.pageTable[p] < |s.framePage| && s.framePage[s.pageTable[p]] == p)
  }

  /** A TLB entry in use names a frame in use, and its page is there or nowhere. */
  ghost predicate TlbHonest(s: State)
    requires Shape(s)
  {
    forall x :: 0 <= x < |s.tlb| && s.tlb[x] != EMPTY ==>
      && 0 <= s.tlb[x].page < PAGES
      && 0 <= s.tlb[x].frame < |s.framePage| && s.framePage[s.tlb[x].frame] != -1
      && s.pageTable[s.tlb[x].page] in {-1, s.tlb[x].frame}
  }

  ghost predicate Valid(s: State) {
    Shape(s) && FramesInOrder(s) && Linked(s) && TlbHonest(s)
  }

  type Machine = s: State | Valid(s) ghost witness Start(1, 1)

  // ---------- one access ----------

  function Start(tlbSize: nat, frames: nat): (s: State)
    requires 0 < tlbSize && 0 < frames
    ensures Valid(s) && |s.tlb| == tlbSize && |s.framePage| == frames
  {
    State(seq(PAGES, i => -1), seq(frames, f => seq(FRAME_SIZE, o => 0)), seq(tlbSize, i => EMPTY), 0, 0,
          seq(frames, f => -1), 0)
  }

  function AddTlb(s: State, page: int, frame: int): State
    requires s.tlbIndex < |s.tlb|
  {
    s.(tlb := s.tlb[s.tlbIndex := Entry(page, frame)],
       tlbIndex := Next(s.tlbIndex, |s.tlb|),
       tlbCount := if s.tlbCount < |s.tlb| then s.tlbCount + 1 else s.tlbCount)
  }

  /** Looks for the new page, not for the one replaced. */
  function UpdateTlb(tlb: seq<Entry>, page: int, frame: int): seq<Entry> {
    var i := FirstMatch(tlb, page);
    if i < |tlb| then tlb[i := tlb[i].(frame := frame)] else tlb
  }

  function ReplacePage(s: Machine, store: Store, page: int): (r: State)
    requires 0 <= page < PAGES
  {
    var f := s.current;
    var oldPage := s.framePage[f];
    s.(pageTable := (if oldPage != -1 then s.pageTable[oldPage := -1] else s.pageTable)[page := f],
       framePage := s.framePage[f := page],
       memory := s.memory[f := PageBytes(store, page)],
       tlb := UpdateTlb(s.tlb, page, f),
       current := Next(f, |s.framePage|))
  }

  lemma MissMeansAbsent(s: Machine, page: int)
    requires 0 <= page < PAGES && Search(s.tlb, page) == -1
    ensures FirstMatch(s.tlb, page) == |s.tlb|
  {
  }

  lemma ReplacePageKeepsValid(s: Machine, store: Store, page: int)
    requires 0 <= page < PAGES && Search(s.tlb, page) == -1 && s.pageTable[page] == -1
    ensures Valid(AddTlb(ReplacePage(s, store, page), page, s.current))
  {
  }

  /** The state and the frame number after translating a page number. */
  function Translate(s: Machine, store: Store, page: int): (r: (Machine, int))
    requires 0 <= page < PAGES
    ensures 0 <= r.1 < |r.0.framePage| && r.0.framePage[r.1] != -1
    ensures |r.0.tlb| == |s.tlb| && |r.0.framePage| == |s.framePage|
  {
    if Search(s.tlb, page) != -1 then (s, Search(s.tlb, page))
    else if s.pageTable[page] != -1 then (AddTlb(s, page, s.pageTable[page]), s.pageTable[page])
    else
      ReplacePageKeepsValid(s, store, page);
      (AddTlb(ReplacePage(s, store, page), page, s.current), s.current)
  }

  function Tally(c: Counters, s: Machine, page: int): Counters
    requires 0 <= page < PAGES
  {
    Counters(c.totalAddresses + 1,
             if Search(s.tlb, page) != -1 then c.tlbHits + 1 else c.tlbHits,
             if Search(s.tlb, page) == -1 && s.pageTable[page] == -1 then c.pageFaults + 1 else c.pageFaults)
  }

  // ---------- whole traces ----------

  /** The cast to unsigned int of what atoi returned. */
  function Logical(number: int): (r: nat)
    ensures r < 0x1_0000_0000 && (number - r) % 0x1_0000_0000 == 0
  {
    number % 0x1_0000_0000
  }

  function Page(number: int): nat { Logical(number) / FRAME_SIZE }

  function Offset(number: int): (r: nat)
    ensures r < FRAME_SIZE
    ensures Page(number) * FRAME_SIZE + r == Logical(number)
  {
    Logical(number) % FRAME_SIZE
  }

  /** What a line of the address file leads to: an invalid page number is reported and skipped. */
  datatype Line = Rejected(logical: nat, page: nat) | Printed(out: Output)

  function Access(s: Machine, store: Store, number: int): (r: (Machine, Line))
    ensures |r.0.tlb| == |s.tlb| && |r.0.framePage| == |s.framePage|
  {
    var page, offset := Page(number), Offset(number);
    if PAGES <= page then (s, Rejected(Logical(number), page))
    else
      var (s', frame) := Translate(s, store, page);
      (s', Printed(Output(Logical(number), frame * FRAME_SIZE + offset, s'.memory[frame][offset])))
  }

  function Trace(s: Machine, store: Store, numbers: seq<int>): (r: (Machine, seq<Line>))
    ensures |r.1| == |numbers|
    ensures |r.0.tlb| == |s.tlb| && |r.0.framePage| == |s.framePage|
    decreases numbers
  {
    if numbers == [] then (s, [])
    else
      var (s', line) := Access(s, store, numbers[0]);
      var (s'', lines) := Trace(s', store, numbers[1..]);
      (s'', [line] + lines)
  }

  function TallyAccess(c: Counters, s: Machine, number: int): Counters {
    if PAGES <= Page(number) then c else Tally(c, s, Page(number))
  }

  function TallyTrace(c: Counters, s: Machine, store: Store, numbers: seq<int>): Counters
    decreases numbers
  {
    if numbers == [] then c
    else TallyTrace(TallyAccess(c, s, numbers[0]), Access(s, store, numbers[0]).0, store, numbers[1..])
  }

  /** The body of the main loop. */
  function Advance(store: Store): (Progress<Machine, Line>, int) -> Progress<Machine, Line> {
    (p: Progress<Machine, Line>, number: int) =>
      var (s', line) := Access(p.state, store, number);
      Progress(s', TallyAccess(p.counters, p.state, number), p.lines + [line])
  }

  lemma {:induction false} ContinueIsTrace(p: Progress<Machine, Line>, store: Store, numbers: seq<int>)
    ensures var (s', lines) := Trace(p.state, store, numbers);
            Continue(Advance(store), p, numbers) == Progress(s', TallyTrace(p.counters, p.state, store, numbers), p.lines + lines)
    decreases numbers
  {
    if numbers == [] {
      assert p.lines + [] == p.lines;
    } else {
      var p' := Advance(store)(p, numbers[0]);
      ContinueIsTrace(p', store, numbers[1..]);
      Sequences.Regroup(p.lines, Access(p.state, store, numbers[0]).1, Trace(p'.state, store, numbers[1..]).1);
    }
  }

  /** The main loop, started with nothing printed, goes through the trace. */
  lemma LoopIsTrace(s: Machine, c: Counters, store: Store, numbers: seq<int>)
    ensures var (s', lines) := Trace(s, store, numbers);
            Continue(Advance(store), Progress(s, c, []), numbers) == Progress(s', TallyTrace(c, s, store, numbers), lines)
  {
    ContinueIsTrace(Progress(s, c, []), store, numbers);
    assert [] + Trace(s, store, numbers).1 == Trace(s, store, numbers).1;
  }

  // ---------- what a single access returns ----------

  ghost predicate MemoryHolds(s: Machine, store: Store) {
    forall f :: 0 <= f < |s.framePage| && s.framePage[f] != -1 ==> s.memory[f] == PageBytes(store, s.framePage[f])
  }

  lemma TranslateKeepsMemory(s: Machine, store: Store, page: int)
    requires MemoryHolds(s, store) && 0 <= page < PAGES
    ensures MemoryHolds(Translate(s, store, page).0, store)
  {
  }

  /** The page is in the TLB but no longer in memory. */
  predicate StaleHit(s: Machine, page: int)
    requires 0 <= page < PAGES
  {
    Search(s.tlb, page) != -1 && s.pageTable[page] == -1
  }

  /** The frame returned holds the page asked for, unless the access is a stale hit: then it never does. */
  lemma FrameIsRightUnlessStale(s: Machine, store: Store, page: int)
    requires 0 <= page < PAGES
    ensures var (s', frame) := Translate(s, store, page); s'.framePage[frame] == page <==> !StaleHit(s, page)
  {
  }

  lemma FrameOfPhysical(frame: nat, offset: nat)
    requires offset < FRAME_SIZE
    ensures (frame * FRAME_SIZE + offset) / FRAME_SIZE == frame && (frame * FRAME_SIZE + offset) % FRAME_SIZE == offset
  {
  }

  /** The byte printed is always that of the page now in the frame named by the physical address. */
  lemma ByteIsOfResidentPage(s: Machine, store: Store, number: int)
    requires MemoryHolds(s, store) && Page(number) < PAGES
    ensures var (s', line) := Access(s, store, number);
            && line.Printed? && line.out.physical % FRAME_SIZE == Offset(number)
            && var f := line.out.physical / FRAME_SIZE;
               && 0 <= f < |s'.framePage| && 0 <= s'.framePage[f] < PAGES
               && line.out.value == store[s'.framePage[f] * FRAME_SIZE + Offset(number)]
  {
    TranslateKeepsMemory(s, store, Page(number));
    FrameOfPhysical(Translate(s, store, Page(number)).1, Offset(number));
  }

  // ---------- addresses as machine words ----------

  /** The shift and the mask of the source give page number and offset of the 32-bit address. */
  lemma AddressWord(number: int) returns (a: bv32)
    ensures a as int == Logical(number) == number % 0x1_0000_0000
    ensures Page(number) == (a >> 8) as int && Offset(number) == (a & 0xFF) as int
    ensures a >> 8 < 256 <==> Page(number) < PAGES
  {
    a := MachineWords.Word32(Logical(number));
    MachineWords.MasksSplitWideAddress(a);
    MachineWords.ShortAddress(a);
  }

  lemma FramesInUse(s: Machine, f: nat)
    requires f < |s.framePage| && s.framePage[f] != -1
    ensures f < 256
  {
    Sequences.DistinctBelow(s.framePage[..f + 1], PAGES);
  }

  /** The line rejects the 32-bit address a if its page number is 256 or more; otherwise it shows a, and frame f
      shifted left with the offset of a or-ed in. */
  ghost predicate ShowsWords(line: Line, number: int, a: bv32, f: bv32) {
    && a as int == number % 0x1_0000_0000 && f < 256
    && if a >> 8 >= 256 then line == Rejected(a as int, (a >> 8) as int)
       else line.Printed? && line.out.logical == a as int && line.out.physical == ((f << 8) | (a & 0xFF)) as int
  }

  ghost predicate ShowsAddress(line: Line, number: int) {
    exists a: bv32, f: bv32 :: ShowsWords(line, number, a, f)
  }

  lemma JoinedAddress(frame: nat, offset: nat, a: bv32) returns (f: bv32)
    requires frame < 256 && offset == (a & 0xFF) as int
    ensures f < 256 && f as int == frame
    ensures frame * 256 + offset == ((f << 8) | (a & 0xFF)) as int
  {
    f := MachineWords.FrameWord(frame);
    MachineWords.ByteMask(a);
    MachineWords.ShiftJoinsAddress(f, a & 0xFF);
  }

  lemma PrintedInWords(number: int, frame: nat, value: Byte, a: bv32) returns (f: bv32)
    requires frame < 256 && a as int == Logical(number) && a >> 8 < 256 && Offset(number) == (a & 0xFF) as int
    ensures f < 256 && f as int == frame
    ensures ShowsWords(Printed(Output(Logical(number), frame * FRAME_SIZE + Offset(number), value)), number, a, f)
  {
    f := JoinedAddress(frame, Offset(number), a);
  }

  lemma RejectedInWords(number: int, a: bv32)
    requires a as int == Logical(number) && a >> 8 >= 256 && Page(number) == (a >> 8) as int
    ensures ShowsWords(Rejected(Logical(number), Page(number)), number, a, 0)
  {
  }

  lemma TranslatedFrame(s: Machine, store: Store, page: nat)
    requires page < PAGES
    ensures 0 <= Translate(s, store, page).1 < 256
  {
    var (s', frame) := Translate(s, store, page);
    FramesInUse(s', frame);
  }

  /** What an access prints, in the source's own terms; a rejected address changes nothing. */
  lemma AccessShowsWords(s: Machine, store: Store, number: int) returns (a: bv32, f: bv32)
    ensures ShowsWords(Access(s, store, number).1, number, a, f)
    ensures if a >> 8 >= 256 then Access(s, store, number).0 == s
            else (a >> 8) as int < PAGES && f as int == Translate(s, store, (a >> 8) as int).1
  {
    a := AddressWord(number);
    if Page(number) < PAGES {
      TranslatedFrame(s, store, Page(number));
      f := PrintedInWords(number, Translate(s, store, Page(number)).1, Access(s, store, number).1.out.value, a);
    } else {
      f := 0;
      RejectedInWords(number, a);
    }
  }

  lemma AccessShowsAddress(s: Machine, store: Store, number: int)
    ensures ShowsAddress(Access(s, store, number).1, number)
  {
    var a, f := AccessShowsWords(s, store, number);
  }

  ghost predicate ShowsAddresses(lines: seq<Line>, numbers: seq<int>) {
    |lines| == |numbers| && forall i :: 0 <= i < |lines| ==> ShowsAddress(lines[i], numbers[i])
  }

  lemma ShowsFirst(first: Line, rest: seq<Line>, numbers: seq<int>)
    requires numbers != [] && ShowsAddress(first, numbers[0]) && ShowsAddresses(rest, numbers[1..])
    ensures ShowsAddresses([first] + rest, numbers)
  {
    forall i | 1 <= i < |numbers|
      ensures ShowsAddress(([first] + rest)[i], numbers[i])
    {
      assert ShowsAddress(rest[i - 1], numbers[1..][i - 1]);
    }
  }

  lemma {:induction false} TraceShowsAddresses(s: Machine, store: Store, numbers: seq<int>)
    ensures ShowsAddresses(Trace(s, store, numbers).1, numbers)
    decreases numbers
  {
    if numbers != [] {
      var (s', first) := Access(s, store, numbers[0]);
      AccessShowsAddress(s, store, numbers[0]);
      TraceShowsAddresses(s', store, numbers[1..]);
      ShowsFirst(first, Trace(s', store, numbers[1..]).1, numbers);
    }
  }
}
