/** Assignment_4/solution/Assignment4.c as a program: the global arrays and indices are fields that the
    functions update in place, each proved against its counterpart in module Mmu. */
module MmuSimulator {
  import opened Paging
  import opened PagingBuffers
  import Mmu
  import MmuCoherence

  class Simulator {
    const backingStore: Store
    const pageTable: array<int>
    const physicalMemory: array2<Byte>
    const tlb: array<Entry>
    const pageOrder: array<int>
    var tlbIndex: nat
    var nextFrame: nat
    var frameIndex: nat
    var pageFaults: nat
    var tlbHits: nat
    var totalAddresses: nat

    ghost function Model(): Mmu.State
      reads this, pageTable, physicalMemory, tlb, pageOrder
    {
      Mmu.State(pageTable[..], Rows(physicalMemory), tlb[..], tlbIndex, nextFrame, pageOrder[..], frameIndex)
    }

    ghost function Tallies(): Counters
      reads this
    {
      Counters(totalAddresses, tlbHits, pageFaults)
    }

    ghost predicate Valid()
      reads this, pageTable, physicalMemory, tlb, pageOrder
    {
      pageTable != pageOrder && physicalMemory.Length1 == FRAME_SIZE && Mmu.Valid(Model())
    }

    constructor (store: Store, tlbSize: nat, frames: nat)
      requires 0 < tlbSize && 0 < frames
      ensures Valid() && fresh(pageTable) && fresh(physicalMemory) && fresh(tlb) && fresh(pageOrder)
      ensures Model() == Mmu.Start(tlbSize, frames) && Tallies() == Counters(0, 0, 0)
      ensures backingStore == store
    {
      backingStore := store;
      pageTable := new int[PAGES](i => -1);
      var memory := NewMemory(frames);
      physicalMemory := memory;
      tlb := new Entry[tlbSize](i => EMPTY);
      pageOrder := new int[frames](i => -1);
      tlbIndex, nextFrame, frameIndex := 0, 0, 0;
      pageFaults, tlbHits, totalAddresses := 0, 0, 0;
      new;
      var start := Mmu.Start(tlbSize, frames);
      assert pageTable[..] == start.pageTable;
      assert tlb[..] == start.tlb;
      assert pageOrder[..] == start.pageOrder;
    }

    method TlbAdd(page: int, frame: int)
      requires tlbIndex < tlb.Length
      modifies this`tlbIndex, tlb
      ensures Model() == Mmu.TlbAdd(old(Model()), page, frame)
    {
      tlb[tlbIndex] := Entry(page, frame);
      tlbIndex := (tlbIndex + 1) % tlb.Length;
    }

    method TlbUpdate(replaced: int, page: int, frame: int)
      requires tlbIndex < tlb.Length
      modifies this`tlbIndex, tlb
      ensures Model() == Mmu.TlbUpdate(old(Model()), replaced, page, frame)
    {
      ghost var before := tlb[..];
      var i := 0;
      while i < tlb.Length
        invariant 0 <= i <= tlb.Length
        invariant tlb[..] == before
        invariant forall x :: 0 <= x < i ==> tlb[x].page != replaced
      {
        if tlb[i].page == replaced {
          assert FirstMatch(before, replaced) == i;
          tlb[i] := Entry(page, frame);
          break;
        }
        i := i + 1;
      }
      assert tlb[..] == if i < tlb.Length then before[i := Entry(page, frame)] else before;
      TlbAdd(page, frame);
    }

    /** What both fault branches do: copy the page, enter it into the page table and into the frame order. */
    method Load(page: nat, frame: nat)
      requires page < PAGES == pageTable.Length && pageTable != pageOrder
      requires frame < pageOrder.Length == physicalMemory.Length0 && physicalMemory.Length1 == FRAME_SIZE
      modifies pageTable, physicalMemory, pageOrder
      ensures Model() == old(Model()).(memory := old(Rows(physicalMemory))[frame := PageBytes(backingStore, page)],
                                       pageTable := old(pageTable[..])[page := frame],
                                       pageOrder := old(pageOrder[..])[frame := page])
    {
      CopyPage(backingStore, page, physicalMemory, frame);
      pageTable[page] := frame;
      pageOrder[frame] := page;
    }

    /** The fault branch of the main loop when a frame is free. */
    method LoadFree(page: nat) returns (frame: int)
      requires Valid() && page < PAGES && pageTable[page] == -1 && nextFrame < pageOrder.Length
      modifies this`tlbIndex, this`nextFrame, pageTable, physicalMemory, tlb, pageOrder
      ensures Model() == Mmu.LoadFree(old(Model()), backingStore, page) && frame == old(nextFrame)
    {
      frame := nextFrame;
      nextFrame := nextFrame + 1;
      Load(page, frame);
      TlbAdd(page, frame);
    }

    /** The fault branch of the main loop when memory is full. */
    method ReplaceOldest(page: nat) returns (frame: int)
      requires Valid() && page < PAGES && pageTable[page] == -1 && nextFrame == pageOrder.Length
      modifies this`tlbIndex, this`frameIndex, pageTable, physicalMemory, tlb, pageOrder
      ensures Model() == Mmu.Replace(old(Model()), backingStore, page) && frame == old(frameIndex)
    {
      ghost var s: Mmu.Machine := Model();
      frame := frameIndex;
      var replaced := pageOrder[frameIndex];
      assert s.pageOrder[frame] == replaced && 0 <= replaced < PAGES;
      pageTable[replaced] := -1;
      assert Model() == s.(pageTable := s.pageTable[replaced := -1]);
      Load(page, frame);
      TlbUpdate(replaced, page, frame);
      frameIndex := (frameIndex + 1) % pageOrder.Length;
    }

    /** Steps 1 and 2 of the main loop: TLB, page table, page fault. */
    method Translate(page: nat) returns (frame: int)
      requires Valid() && page < PAGES
      modifies this`tlbIndex, this`nextFrame, this`frameIndex, this`pageFaults, this`tlbHits
      modifies pageTable, physicalMemory, tlb, pageOrder
      ensures Valid()
      ensures (Model(), frame) == Mmu.Translate(old(Model()), backingStore, page)
      ensures tlbHits == old(tlbHits) + if Mmu.PathOf(old(Model()), page) == Mmu.TlbHit then 1 else 0
      ensures pageFaults == old(pageFaults) + if Mmu.PathOf(old(Model()), page) in {Mmu.FreeLoad, Mmu.Replacement} then 1 else 0
    {
      frame := SearchTlb(tlb, page);
      if frame != -1 {
        tlbHits := tlbHits + 1;
      } else if pageTable[page] != -1 {
        frame := pageTable[page];
        TlbAdd(page, frame);
      } else {
        pageFaults := pageFaults + 1;
        if nextFrame < pageOrder.Length {
          frame := LoadFree(page);
        } else {
          frame := ReplaceOldest(page);
        }
      }
    }

    /** Step 3 of the main loop: the physical address and the value there. */
    method ReadOut(number: int, frame: nat) returns (out: Output)
      requires frame < physicalMemory.Length0 && physicalMemory.Length1 == FRAME_SIZE
      ensures out == Output(Mmu.Logical(number), frame * FRAME_SIZE + Mmu.Offset(number),
                            Rows(physicalMemory)[frame][Mmu.Offset(number)])
    {
      var offset := Mmu.Offset(number);
      out := Output(Mmu.Logical(number), frame * FRAME_SIZE + offset, physicalMemory[frame, offset]);
    }

    /** The body of the main loop for one line of the address file. */
    method Access(number: int) returns (out: Output)
      requires Valid()
      modifies this, pageTable, physicalMemory, tlb, pageOrder
      ensures Valid()
      ensures (Model(), out) == Mmu.Access(old(Model()), backingStore, number)
      ensures Tallies() == Mmu.Tally(old(Tallies()), Mmu.PathOf(old(Model()), Mmu.Page(number)))
    {
      ghost var s: Mmu.Machine := Model();
      totalAddresses := totalAddresses + 1;
      assert Model() == s;
      var frame := Translate(Mmu.Page(number));
      assert Model() == Mmu.Translate(s, backingStore, Mmu.Page(number)).0;
      out := ReadOut(number, frame);
    }

    /** The main loop. */
    method TranslateFile(numbers: seq<int>) returns (outs: seq<Output>)
      requires Valid()
      modifies this, pageTable, physicalMemory, tlb, pageOrder
      ensures Valid()
      ensures (Model(), outs) == Mmu.Trace(old(Model()), backingStore, numbers)
      ensures Tallies() == Mmu.TallyTrace(old(Tallies()), old(Model()), backingStore, numbers)
    {
      outs := [];
      ghost var p: Progress<Mmu.Machine, Output> := Progress(Model(), Tallies(), outs);
      ghost var start := p;
      assert numbers[0..] == numbers;
      for i := 0 to |numbers|
        invariant Valid() && p == Progress(Model(), Tallies(), outs)
        invariant Continue(Mmu.Advance(backingStore), p, numbers[i..])
               == Continue(Mmu.Advance(backingStore), start, numbers)
      {
        ContinueFrom(Mmu.Advance(backingStore), p, numbers, i);
        var out := Access(numbers[i]);
        outs := outs + [out];
        p := Progress(Model(), Tallies(), outs);
      }
      assert numbers[|numbers|..] == [];
      Mmu.LoopIsTrace(start.state, start.counters, backingStore, numbers);
    }
  }

  /** The whole program: what it prints for a file of addresses, and its three counters. */
  method Run(store: Store, tlbSize: nat, frames: nat, numbers: seq<int>)
    returns (outs: seq<Output>, counters: Counters)
    requires 0 < tlbSize && 0 < frames
    ensures outs == Mmu.Trace(Mmu.Start(tlbSize, frames), store, numbers).1
    ensures counters == Mmu.TallyTrace(Counters(0, 0, 0), Mmu.Start(tlbSize, frames), store, numbers)
    ensures Mmu.ShowsAddresses(outs, numbers)
    ensures MmuCoherence.GoodSizes(tlbSize, frames) ==> MmuCoherence.ReadsStore(outs, store, numbers)
  {
    var simulator := new Simulator(store, tlbSize, frames);
    outs := simulator.TranslateFile(numbers);
    counters := Counters(simulator.totalAddresses, simulator.tlbHits, simulator.pageFaults);
    Mmu.TraceShowsAddresses(Mmu.Start(tlbSize, frames), store, numbers);
    MmuCoherence.GoodSizesReadStore(tlbSize, frames, store, numbers);
  }
}
