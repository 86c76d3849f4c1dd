/** Assignment_4/solution/Assignment4.c: the memory manager that rewrites the evicted page's TLB entry.
    This module holds the state, one access as a function of the state, and what every state keeps.
    TLB_SIZE and NUM_FRAMES are the lengths of `tlb` and `pageOrder`. */
module Mmu {
  import opened Ring
  import opened Paging
  import MachineWords
  import Sequences

  datatype State = State(
    pageTable: seq<int>,
    memory: seq<seq<Byte>>,
    tlb: seq<Entry>,
    tlbIndex: nat,
    nextFrame: nat,
    pageOrder: seq<int>,
    frameIndex: nat)

  /** The four ways an access can go. */
  datatype Path = TlbHit | TableHit | FreeLoad | Replacement

  // ---------- well-formed states ----------

  ghost predicate Shape(s: State) {
    && |s.pageTable| == PAGES
    && 0 < |s.pageOrder| == |s.memory|
    && s.tlbIndex < |s.tlb|
    && s.frameIndex < |s.pageOrder|
    && s.nextFrame <= |s.pageOrder|
    && (s.nextFrame < |s.pageOrder| ==> s.frameIndex == 0)
    && forall f :: 0 <= f < |s.memory| ==> |s.memory[f]| == FRAME_SIZE
  }

  ghost predicate TlbInRange(s: State) {
    forall x :: 0 <= x < |s.tlb| ==>
      s.tlb[x] == EMPTY || (0 <= s.tlb[x].page < PAGES && 0 <= s.tlb[x].frame < s.nextFrame)
  }

  /** Page table and frame order are inverse to each other on the frames in use. */
  ghost predicate Linked(s: State)
    requires Shape(s)
  {
    && (forall f :: 0 <= f < s.nextFrame ==> 0 <= s.pageOrder[f] < PAGES && s.pageTable[s.pageOrder[f]] == f)
    && (forall p :: 0 <= p < PAGES && s.pageTable[p] != -1 ==>
          0 <= s.pageTable[p] < s.nextFrame && s.pageOrder[s.pageTable[p]] == p)
  }

  ghost predicate Valid(s: State) {
    Shape(s) && TlbInRange(s) && Linked(s)
  }

  type Machine = s: State | Valid(s) ghost witness Start(1, 1)

  // ---------- one access ----------

  function Start(tlbSize: nat, frames: nat): (s: State)
    requires 0 < tlbSize && 0 < frames
    ensures Valid(s) && |s.tlb| == tlbSize && |s.pageOrder| == frames
  {
    State(seq(PAGES, i => -1), seq(frames, f => seq(FRAME_SIZE, o => 0)), seq(tlbSize, i => EMPTY), 0, 0,
          seq(frames, f => -1), 0)
  }

  function TlbAdd(s: State, page: int, frame: int): State
    requires s.tlbIndex < |s.tlb|
  {
    s.(tlb := s.tlb[s.tlbIndex := Entry(page, frame)], tlbIndex := Next(s.tlbIndex, |s.tlb|))
  }

  /** Rewrite the first entry of the replaced page, if there is one, and add the new page as well. */
  function TlbUpdate(s: State, replaced: int, page: int, frame: int): State
    requires s.tlbIndex < |s.tlb|
  {
    var i := FirstMatch(s.tlb, replaced);
    TlbAdd(if i < |s.tlb| then s.(tlb := s.tlb[i := Entry(page, frame)]) else s, page, frame)
  }

  /** A fault served from a free frame. */
  function LoadFree(s: Machine, store: Store, page: int): Machine
    requires 0 <= page < PAGES && s.pageTable[page] == -1
    requires s.nextFrame < |s.pageOrder|
  {
    var f := s.nextFrame;
    TlbAdd(s.(nextFrame := f + 1,
              memory := s.memory[f := PageBytes(store, page)],
              pageTable := s.pageTable[page := f],
              pageOrder := s.pageOrder[f := page]),
           page, f)
  }

  /** A fault that replaces the oldest page. */
  function Replace(s: Machine, store: Store, page: int): Machine
    requires 0 <= page < PAGES && s.pageTable[page] == -1
    requires s.nextFrame == |s.pageOrder|
  {
    var f := s.frameIndex;
    var replaced := s.pageOrder[f];
    TlbUpdate(s.(memory := s.memory[f := PageBytes(store, page)],
                 pageTable := s.pageTable[replaced := -1][page := f],
                 pageOrder := s.pageOrder[f := page]),
              replaced, page, f)
    .(frameIndex := Next(f, |s.pageOrder|))
  }

  function PathOf(s: Machine, page: int): Path
    requires 0 <= page < PAGES
  {
    if Search(s.tlb, page) != -1 then TlbHit
    else if s.pageTable[page] != -1 then TableHit
    else if s.nextFrame < |s.pageOrder| then FreeLoad
    else Replacement
  }

  /** The state and the frame number after translating a page number. */
  function Translate(s: Machine, store: Store, page: int): (r: (Machine, int))
    requires 0 <= page < PAGES
    ensures 0 <= r.1 < r.0.nextFrame
    ensures |r.0.tlb| == |s.tlb| && |r.0.pageOrder| == |s.pageOrder|
  {
    match PathOf(s, page)
    case TlbHit => (s, Search(s.tlb, page))
    case TableHit => (TlbAdd(s, page, s.pageTable[page]), s.pageTable[page])
    case FreeLoad => (LoadFree(s, store, page), s.nextFrame)
    case Replacement => (Replace(s, store, page), s.frameIndex)
  }

  function Tally(c: Counters, path: Path): Counters {
    match path
    case TlbHit => Counters(c.totalAddresses + 1, c.tlbHits + 1, c.pageFaults)
    case TableHit => Counters(c.totalAddresses + 1, c.tlbHits, c.pageFaults)
    case FreeLoad => Counters(c.totalAddresses + 1, c.tlbHits, c.pageFaults + 1)
    case Replacement => Counters(c.totalAddresses + 1, c.tlbHits, c.pageFaults + 1)
  }

  /** The cast to uint16_t of what atoi returned. */
  function Logical(number: int): (r: nat)
    ensures r < 0x1_0000 && (number - r) % 0x1_0000 == 0
  {
    number % 65536
  }

  function Page(number: int): (r: nat)
    ensures r < PAGES
  {
    Logical(number) / FRAME_SIZE
  }

  function Offset(number: int): (r: nat)
    ensures r < FRAME_SIZE
    ensures Page(number) * FRAME_SIZE + r == Logical(number)
  {
    Logical(number) % FRAME_SIZE
  }

  function Access(s: Machine, store: Store, number: int): (r: (Machine, Output))
    ensures |r.0.tlb| == |s.tlb| && |r.0.pageOrder| == |s.pageOrder|
  {
    var (s', frame) := Translate(s, store, Page(number));
    (s', Output(Logical(number), frame * FRAME_SIZE + Offset(number), s'.memory[frame][Offset(number)]))
  }

  function Trace(s: Machine, store: Store, numbers: seq<int>): (r: (Machine, seq<Output>))
    ensures |r.1| == |numbers|
    ensures |r.0.tlb| == |s.tlb| && |r.0.pageOrder| == |s.pageOrder|
    decreases numbers
  {
    if numbers == [] then (s, [])
    else
      var (s', out) := Access(s, store, numbers[0]);
      var (s'', outs) := Trace(s', store, numbers[1..]);
      (s'', [out] + outs)
  }

  function TallyTrace(c: Counters, s: Machine, store: Store, numbers: seq<int>): Counters
    decreases numbers
  {
    if numbers == [] then c
    else TallyTrace(Tally(c, PathOf(s, Page(numbers[0]))), Access(s, store, numbers[0]).0, store, numbers[1..])
  }

  /** The body of the main loop. */
  function Advance(store: Store): (Progress<Machine, Output>, int) -> Progress<Machine, Output> {
    (p: Progress<Machine, Output>, number: int) =>
      var (s', out) := Access(p.state, store, number);
      Progress(s', Tally(p.counters, PathOf(p.state, Page(number))), p.lines + [out])
  }

  lemma {:induction false} ContinueIsTrace(p: Progress<Machine, Output>, store: Store, numbers: seq<int>)
    ensures var (s', outs) := Trace(p.state, store, numbers);
            Continue(Advance(store), p, numbers) == Progress(s', TallyTrace(p.counters, p.state, store, numbers), p.lines + outs)
    decreases numbers
  {
    if numbers == [] {
      assert p.lines + [] == p.lines;
    } else {
      var p' := Advance(store)(p, numbers[0]);
      ContinueIsTrace(p', store, numbers[1..]);
      Sequences.Regroup(p.lines, Access(p.state, store, numbers[0]).1, Trace(p'.state, store, numbers[1..]).1);
    }
  }

  /** The main loop, started with nothing printed, goes through the trace. */
  lemma LoopIsTrace(s: Machine, c: Counters, store: Store, numbers: seq<int>)
    ensures var (s', outs) := Trace(s, store, numbers);
            Continue(Advance(store), Progress(s, c, []), numbers) == Progress(s', TallyTrace(c, s, store, numbers), outs)
  {
    ContinueIsTrace(Progress(s, c, []), store, numbers);
    assert [] + Trace(s, store, numbers).1 == Trace(s, store, numbers).1;
  }

  // ---------- addresses as machine words ----------

  /** The masks and the shift of the source give page number and offset of the 16-bit address. */
  lemma AddressWord(number: int) returns (a: bv16)
    ensures a as int == Logical(number) == number % 65536
    ensures Page(number) == ((a & 0xFF00) >> 8) as int
    ensures Offset(number) == (a & 0x00FF) as int
  {
    a := MachineWords.Word16(Logical(number));
    MachineWords.MasksSplitAddress(a);
  }

  lemma FramesInUse(s: Machine)
    ensures s.nextFrame <= 256
  {
    Sequences.DistinctBelow(s.pageOrder[..s.nextFrame], PAGES);
  }

  /** The line shows the 16-bit address a, and frame f shifted left with the offset of a or-ed in. */
  ghost predicate ShowsWords(out: Output, number: int, a: bv16, f: bv32) {
    && a as int == number % 65536 && f < 256
    && out.logical == a as int
    && out.physical == ((f << 8) | ((a & 0x00FF) as bv32)) as int
  }

  ghost predicate ShowsAddress(out: Output, number: int) {
    exists a: bv16, f: bv32 :: ShowsWords(out, number, a, f)
  }

  lemma JoinedAddress(frame: nat, offset: nat, a: bv16) returns (f: bv32)
    requires frame < 256 && offset == (a & 0x00FF) as int
    ensures f < 256 && f as int == frame
    ensures frame * 256 + offset == ((f << 8) | ((a & 0x00FF) as bv32)) as int
  {
    f := MachineWords.FrameWord(frame);
    MachineWords.OffsetWord(a);
    MachineWords.ShiftJoinsAddress(f, (a & 0x00FF) as bv32);
  }

  lemma PrintedInWords(number: int, frame: nat, value: Byte, a: bv16) returns (f: bv32)
    requires frame < 256 && a as int == Logical(number) && Offset(number) == (a & 0x00FF) as int
    ensures f < 256 && f as int == frame
    ensures ShowsWords(Output(Logical(number), frame * FRAME_SIZE + Offset(number), value), number, a, f)
  {
    f := JoinedAddress(frame, Offset(number), a);
  }

  lemma TranslatedFrame(s: Machine, store: Store, page: nat)
    requires page < PAGES
    ensures 0 <= Translate(s, store, page).1 < 256
  {
    FramesInUse(Translate(s, store, page).0);
  }

  /** What an access prints, in the source's own terms. */
  lemma AccessShowsWords(s: Machine, store: Store, number: int) returns (a: bv16, f: bv32)
    ensures f as int == Translate(s, store, ((a & 0xFF00) >> 8) as int).1
    ensures ShowsWords(Access(s, store, number).1, number, a, f)
  {
    a := AddressWord(number);
    TranslatedFrame(s, store, Page(number));
    f := PrintedInWords(number, Translate(s, store, Page(number)).1, Access(s, store, number).1.value, a);
  }

  lemma AccessShowsAddress(s: Machine, store: Store, number: int)
    ensures ShowsAddress(Access(s, store, number).1, number)
  {
    var a, f := AccessShowsWords(s, store, number);
  }

  ghost predicate ShowsAddresses(outs: seq<Output>, numbers: seq<int>) {
    |outs| == |numbers| && forall i :: 0 <= i < |outs| ==> ShowsAddress(outs[i], numbers[i])
  }

  lemma ShowsFirst(first: Output, rest: seq<Output>, numbers: seq<int>)
    requires numbers != [] && ShowsAddress(first, numbers[0]) && ShowsAddresses(rest, numbers[1..])
    ensures ShowsAddresses([first] + rest, numbers)
  {
    forall i | 1 <= i < |numbers|
      ensures ShowsAddress(([first] + rest)[i], numbers[i])
    {
      assert ShowsAddress(rest[i - 1], numbers[1..][i - 1]);
    }
  }

  lemma {:induction false} TraceShowsAddresses(s: Machine, store: Store, numbers: seq<int>)
    ensures ShowsAddresses(Trace(s, store, numbers).1, numbers)
    decreases numbers
  {
    if numbers != [] {
      var (s', first) := Access(s, store, numbers[0]);
      AccessShowsAddress(s, store, numbers[0]);
      TraceShowsAddresses(s', store, numbers[1..]);
      ShowsFirst(first, Trace(s', store, numbers[1..]).1, numbers);
    }
  }
}
