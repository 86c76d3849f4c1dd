/** Assignment_4/solution2/assignment4.c as a program: arrays and indices updated in place by
    replace_page, write_frame, add_TLB and update_TLB, each proved against module Mmu2. */
module Mmu2Simulator {
  import opened Paging
  import opened PagingBuffers
  import Mmu2
  import Mmu2Fifo
  import TwoQueues

  class Simulator {
    const backingStore: Store
    const pageTable: array<int>
    const physicalMemory: array2<Byte>
    const tlb: array<Entry>
    const framePage: array<int>
    var tlbIndex: nat
    var tlbCount: nat
    var current: nat

    ghost function Model(): Mmu2.State
      reads this, pageTable, physicalMemory, tlb, framePage
    {
      Mmu2.State(pageTable[..], Rows(physicalMemory), tlb[..], tlbIndex, tlbCount, framePage[..], current)
    }

    ghost predicate Valid()
      reads this, pageTable, physicalMemory, tlb, framePage
    {
      pageTable != framePage && physicalMemory.Length1 == FRAME_SIZE && Mmu2.Valid(Model())
    }

    constructor (store: Store, tlbSize: nat, frames: nat)
      requires 0 < tlbSize && 0 < frames
      ensures Valid() && fresh(pageTable) && fresh(physicalMemory) && fresh(tlb) && fresh(framePage)
      ensures Model() == Mmu2.Start(tlbSize, frames) && backingStore == store
    {
      backingStore := store;
      pageTable := new int[PAGES](i => -1);
      var memory := NewMemory(frames);
      physicalMemory := memory;
      tlb := new Entry[tlbSize](i => EMPTY);
      framePage := new int[frames](i => -1);
      tlbIndex, tlbCount, current := 0, 0, 0;
      new;
      var start := Mmu2.Start(tlbSize, frames);
      assert pageTable[..] == start.pageTable;
      assert tlb[..] == start.tlb;
      assert framePage[..] == start.framePage;
    }

    method AddTlb(page: int, frame: int)
      requires tlbIndex < tlb.Length
      modifies this`tlbIndex, this`tlbCount, tlb
      ensures Model() == Mmu2.AddTlb(old(Model()), page, frame)
    {
      tlb[tlbIndex] := Entry(page, frame);
      tlbIndex := (tlbIndex + 1) % tlb.Length;
      if tlbCount < tlb.Length {
        tlbCount := tlbCount + 1;
      }
    }

    method UpdateTlb(page: int, frame: int)
      modifies tlb
      ensures tlb[..] == Mmu2.UpdateTlb(old(tlb[..]), page, frame)
    {
      for i := 0 to tlb.Length
        invariant tlb[..] == old(tlb[..])
        invariant forall x :: 0 <= x < i ==> tlb[x].page != page
      {
        if tlb[i].page == page {
          assert FirstMatch(tlb[..], page) == i;
          tlb[i] := tlb[i].(frame := frame);
          return;
        }
      }
    }

    /** Enters the page into the frame table, copies it and enters it into the page table. */
    method Load(page: nat, frame: nat)
      requires page < PAGES == pageTable.Length && pageTable != framePage
      requires frame < framePage.Length == physicalMemory.Length0 && physicalMemory.Length1 == FRAME_SIZE
      modifies pageTable, physicalMemory, framePage
      ensures Model() == old(Model()).(framePage := old(framePage[..])[frame := page],
                                       memory := old(Rows(physicalMemory))[frame := PageBytes(backingStore, page)],
                                       pageTable := old(pageTable[..])[page := frame])
    {
      framePage[frame] := page;
      CopyPage(backingStore, page, physicalMemory, frame);
      pageTable[page] := frame;
    }

    /** Takes the page that is replaced, if there is one, out of the page table. */
    method Unmap(oldPage: int)
      requires -1 <= oldPage < PAGES == pageTable.Length
      modifies pageTable
      ensures pageTable[..] == if oldPage != -1 then old(pageTable[..])[oldPage := -1] else old(pageTable[..])
    {
      if oldPage != -1 {
        pageTable[oldPage] := -1;
      }
    }

    method ReplacePage(page: nat, ghost s: Mmu2.Machine)
      requires Model() == s && page < PAGES == pageTable.Length && pageTable != framePage
      requires current < framePage.Length == physicalMemory.Length0 && physicalMemory.Length1 == FRAME_SIZE
      requires -1 <= framePage[current] < PAGES
      modifies this`current, pageTable, physicalMemory, tlb, framePage
      ensures Model() == Mmu2.ReplacePage(s, backingStore, page)
    {
      var oldPage := framePage[current];
      ghost var unmapped := if oldPage != -1 then s.pageTable[oldPage := -1] else s.pageTable;
      Unmap(oldPage);
      assert Model() == s.(pageTable := unmapped);
      Load(page, current);
      assert Model() == s.(framePage := s.framePage[s.current := page], pageTable := unmapped[page := s.current],
                           memory := s.memory[s.current := PageBytes(backingStore, page)]);
      UpdateTlb(page, current);
      current := (current + 1) % framePage.Length;
      assert oldPage == s.framePage[s.current];
    }

    /** The branch of the main loop after a TLB miss: page table or page fault, then a TLB entry. */
    method TranslateMiss(page: nat) returns (frame: int, fault: bool)
      requires Valid() && page < PAGES && Search(tlb[..], page) == -1
      modifies this, pageTable, physicalMemory, tlb, framePage
      ensures (Model(), frame) == Mmu2.Translate(old(Model()), backingStore, page)
      ensures fault == old(pageTable[page] == -1)
    {
      ghost var s: Mmu2.Machine := Model();
      fault := pageTable[page] == -1;
      if !fault {
        frame := pageTable[page];
      } else {
        assert s.framePage[s.current] == framePage[current];
        ReplacePage(page, s);
        assert pageTable[..] == Mmu2.ReplacePage(s, backingStore, page).pageTable;
        assert pageTable[..][page] == s.current;
        frame := pageTable[page];
      }
      AddTlb(page, frame);
    }

    /** The body of the main loop for one line of the address file; the counters are locals of main. */
    method Access(number: int, c: Counters) returns (line: Mmu2.Line, c': Counters)
      requires Valid()
      modifies this, pageTable, physicalMemory, tlb, framePage
      ensures Valid()
      ensures (Model(), line) == Mmu2.Access(old(Model()), backingStore, number)
      ensures c' == Mmu2.TallyAccess(c, old(Model()), number)
    {
      ghost var s: Mmu2.Machine := Model();
      var page, offset := Mmu2.Page(number), Mmu2.Offset(number);
      if PAGES <= page {
        line, c' := Mmu2.Rejected(Mmu2.Logical(number), page), c;
        return;
      }
      c' := c.(totalAddresses := c.totalAddresses + 1);
      var frame := SearchTlb(tlb, page);
      if frame != -1 {
        c' := c'.(tlbHits := c'.tlbHits + 1);
      } else {
        var fault;
        frame, fault := TranslateMiss(page);
        if fault {
          c' := c'.(pageFaults := c'.pageFaults + 1);
        }
      }
      ghost var s': Mmu2.Machine := Model();
      assert (s', frame) == Mmu2.Translate(s, backingStore, page);
      RowsAt(physicalMemory, frame, offset);
      line := Mmu2.Printed(Output(Mmu2.Logical(number), frame * FRAME_SIZE + offset, physicalMemory[frame, offset]));
    }

    /** The main loop. */
    method TranslateFile(numbers: seq<int>) returns (lines: seq<Mmu2.Line>, counters: Counters)
      requires Valid()
      modifies this, pageTable, physicalMemory, tlb, framePage
      ensures Valid()
      ensures (Model(), lines) == Mmu2.Trace(old(Model()), backingStore, numbers)
      ensures counters == Mmu2.TallyTrace(Counters(0, 0, 0), old(Model()), backingStore, numbers)
    {
      lines, counters := [], Counters(0, 0, 0);
      ghost var p: Progress<Mmu2.Machine, Mmu2.Line> := Progress(Model(), counters, lines);
      ghost var start := p;
      assert numbers[0..] == numbers;
      for i := 0 to |numbers|
        invariant Valid() && p == Progress(Model(), counters, lines)
        invariant Continue(Mmu2.Advance(backingStore), p, numbers[i..])
               == Continue(Mmu2.Advance(backingStore), start, numbers)
      {
        ContinueFrom(Mmu2.Advance(backingStore), p, numbers, i);
        var line;
        line, counters := Access(numbers[i], counters);
        lines := lines + [line];
        p := Progress(Model(), counters, lines);
      }
      assert numbers[|numbers|..] == [];
      Mmu2.LoopIsTrace(start.state, start.counters, backingStore, numbers);
    }
  }

  /** The whole program: what it prints for a file of addresses, and its three counters. */
  method Run(store: Store, tlbSize: nat, frames: nat, numbers: seq<int>)
    returns (lines: seq<Mmu2.Line>, counters: Counters)
    requires 0 < tlbSize && 0 < frames
    ensures lines == Mmu2.Trace(Mmu2.Start(tlbSize, frames), store, numbers).1
    ensures counters == Mmu2.TallyTrace(Counters(0, 0, 0), Mmu2.Start(tlbSize, frames), store, numbers)
    ensures Mmu2.ShowsAddresses(lines, numbers)
    ensures TwoQueues.NeverStale(TwoQueues.EMPTY_QUEUES, tlbSize, frames, Mmu2Fifo.Pages(numbers)) ==>
              Mmu2Fifo.ReadsStore(lines, store, numbers)
  {
    var simulator := new Simulator(store, tlbSize, frames);
    lines, counters := simulator.TranslateFile(numbers);
    Mmu2.TraceShowsAddresses(Mmu2.Start(tlbSize, frames), store, numbers);
    Mmu2Fifo.StartReadsStore(tlbSize, frames, store, numbers);
  }
}
