/** Assignment_4 has two memory managers. They run in lockstep, state for state and line for line, until an
    evicted page has a TLB entry other than the one about to be overwritten; that access separates them. */
module Lockstep {
  import opened Ring
  import opened Paging
  import Mmu
  import Mmu2

  /** Same TLB, page table, memory and frame order; `current` is `next_frame` while frames are free and
      `frame_index` afterwards. */
  ghost predicate Agree(a: Mmu.Machine, b: Mmu2.Machine) {
    && a.tlb == b.tlb && a.tlbIndex == b.tlbIndex
    && a.pageTable == b.pageTable && a.memory == b.memory && a.pageOrder == b.framePage
    && b.current == (if a.nextFrame < |a.pageOrder| then a.nextFrame else a.frameIndex)
    && (forall f :: 0 <= f < |b.framePage| ==> (b.framePage[f] == -1 <==> a.nextFrame <= f))
    && (forall x, y :: 0 <= x < y < |b.tlb| && b.tlb[x] != EMPTY ==> b.tlb[x].page != b.tlb[y].page)
  }

  /** The access evicts a page that keeps a TLB entry although the new page takes position tlbIndex. */
  ghost predicate Separates(b: Mmu2.Machine, page: int)
    requires 0 <= page < PAGES
  {
    && Search(b.tlb, page) == -1 && b.pageTable[page] == -1 && b.framePage[b.current] != -1
    && exists x :: 0 <= x < |b.tlb| && x != b.tlbIndex && b.tlb[x].page == b.framePage[b.current]
  }

  lemma FreeLoadAgrees(a: Mmu.Machine, b: Mmu2.Machine, store: Store, page: int)
    requires Agree(a, b) && 0 <= page < PAGES && Mmu.PathOf(a, page) == Mmu.FreeLoad
    ensures Agree(Mmu.LoadFree(a, store, page), Mmu2.Translate(b, store, page).0)
  {
  }

  lemma ReplacementAgrees(a: Mmu.Machine, b: Mmu2.Machine, store: Store, page: int)
    requires Agree(a, b) && 0 <= page < PAGES && Mmu.PathOf(a, page) == Mmu.Replacement && !Separates(b, page)
    ensures Agree(Mmu.Replace(a, store, page), Mmu2.Translate(b, store, page).0)
  {
  }

  lemma ReplacementSeparates(a: Mmu.Machine, b: Mmu2.Machine, store: Store, page: int)
    requires Agree(a, b) && 0 <= page < PAGES && Separates(b, page)
    ensures Mmu.Replace(a, store, page).tlb != Mmu2.Translate(b, store, page).0.tlb
  {
    Mmu2.MissMeansAbsent(b, page);
    var a', b' := Mmu.Replace(a, store, page), Mmu2.Translate(b, store, page).0;
    var replaced := b.framePage[b.current];
    var x :| 0 <= x < |b.tlb| && x != b.tlbIndex && b.tlb[x].page == replaced;
    var i := FirstMatch(a.tlb, replaced);
    assert i == x;
    assert a'.tlb[x] == Entry(page, a.frameIndex) && b'.tlb[x] == b.tlb[x];
  }

  /** One access: both programs return the same frame, and they still agree exactly when the access does
      not separate them. */
  lemma TranslateInLockstep(a: Mmu.Machine, b: Mmu2.Machine, store: Store, page: int)
    requires Agree(a, b) && 0 <= page < PAGES
    ensures Mmu.Translate(a, store, page).1 == Mmu2.Translate(b, store, page).1
    ensures Agree(Mmu.Translate(a, store, page).0, Mmu2.Translate(b, store, page).0) <==> !Separates(b, page)
  {
    match Mmu.PathOf(a, page)
    case TlbHit =>
    case TableHit => Mmu2.MissMeansAbsent(b, page);
    case FreeLoad => FreeLoadAgrees(a, b, store, page);
    case Replacement =>
      if Separates(b, page) {
        ReplacementSeparates(a, b, store, page);
      } else {
        ReplacementAgrees(a, b, store, page);
      }
  }

  // ---------- whole traces ----------

  /** Both programs take these addresses; others the first cuts to 16 bits and the second rejects. */
  ghost predicate Addresses16(numbers: seq<int>) {
    forall i :: 0 <= i < |numbers| ==> 0 <= numbers[i] < 65536
  }

  ghost predicate NeverSeparates(b: Mmu2.Machine, store: Store, numbers: seq<int>)
    requires Addresses16(numbers)
    decreases numbers
  {
    numbers == [] ||
    (!Separates(b, Mmu2.Page(numbers[0])) && NeverSeparates(Mmu2.Access(b, store, numbers[0]).0, store, numbers[1..]))
  }

  /** The states agree after every address of the trace. */
  ghost predicate StayInLockstep(a: Mmu.Machine, b: Mmu2.Machine, store: Store, numbers: seq<int>)
    decreases numbers
  {
    && Agree(a, b)
    && (numbers != [] ==>
          StayInLockstep(Mmu.Access(a, store, numbers[0]).0, Mmu2.Access(b, store, numbers[0]).0, store, numbers[1..]))
  }

  lemma SamePageAndOffset(number: int)
    requires 0 <= number < 65536
    ensures Mmu2.Logical(number) == Mmu.Logical(number) == number
    ensures Mmu2.Page(number) == Mmu.Page(number) < PAGES
    ensures Mmu2.Offset(number) == Mmu.Offset(number)
  {
  }

  lemma TallyInLockstep(a: Mmu.Machine, b: Mmu2.Machine, c: Counters, page: int)
    requires Agree(a, b) && 0 <= page < PAGES
    ensures Mmu.Tally(c, Mmu.PathOf(a, page)) == Mmu2.Tally(c, b, page)
  {
  }

  lemma OutputInLockstep(a: Mmu.Machine, b: Mmu2.Machine, store: Store, number: int)
    requires Agree(a, b) && 0 <= number < 65536 && !Separates(b, Mmu.Page(number))
    ensures Mmu2.Access(b, store, number).1 == Mmu2.Printed(Mmu.Access(a, store, number).1)
  {
    SamePageAndOffset(number);
    TranslateInLockstep(a, b, store, Mmu.Page(number));
  }

  lemma AccessInLockstep(a: Mmu.Machine, b: Mmu2.Machine, store: Store, number: int)
    requires Agree(a, b) && 0 <= number < 65536
    ensures Mmu2.Page(number) == Mmu.Page(number) < PAGES
    ensures Agree(Mmu.Access(a, store, number).0, Mmu2.Access(b, store, number).0) <==> !Separates(b, Mmu2.Page(number))
  {
    SamePageAndOffset(number);
    TranslateInLockstep(a, b, store, Mmu.Page(number));
  }

  /** The programs stay in the same states exactly on the traces that never separate them. */
  lemma {:induction false} LockstepExactlyUnlessSeparated(a: Mmu.Machine, b: Mmu2.Machine, store: Store, numbers: seq<int>)
    requires Agree(a, b) && Addresses16(numbers)
    ensures StayInLockstep(a, b, store, numbers) <==> NeverSeparates(b, store, numbers)
    decreases numbers
  {
    if numbers != [] {
      AccessInLockstep(a, b, store, numbers[0]);
      if !Separates(b, Mmu2.Page(numbers[0])) {
        LockstepExactlyUnlessSeparated(
          Mmu.Access(a, store, numbers[0]).0, Mmu2.Access(b, store, numbers[0]).0, store, numbers[1..]);
      }
    }
  }

  /** While they do, the counters are the same ... */
  lemma {:induction false} CountersInLockstep(a: Mmu.Machine, b: Mmu2.Machine, c: Counters, store: Store, numbers: seq<int>)
    requires StayInLockstep(a, b, store, numbers) && Addresses16(numbers)
    ensures Agree(Mmu.Trace(a, store, numbers).0, Mmu2.Trace(b, store, numbers).0)
    ensures Mmu.TallyTrace(c, a, store, numbers) == Mmu2.TallyTrace(c, b, store, numbers)
    decreases numbers
  {
    if numbers != [] {
      SamePageAndOffset(numbers[0]);
      TallyInLockstep(a, b, c, Mmu.Page(numbers[0]));
      CountersInLockstep(Mmu.Access(a, store, numbers[0]).0, Mmu2.Access(b, store, numbers[0]).0,
                         Mmu2.TallyAccess(c, b, numbers[0]), store, numbers[1..]);
    }
  }

  function Lines(outs: seq<Output>): seq<Mmu2.Line> {
    if outs == [] then [] else [Mmu2.Printed(outs[0])] + Lines(outs[1..])
  }

  lemma TraceFirst(s: Mmu.Machine, store: Store, numbers: seq<int>)
    requires numbers != []
    ensures var (s', out) := Mmu.Access(s, store, numbers[0]);
            Lines(Mmu.Trace(s, store, numbers).1) == [Mmu2.Printed(out)] + Lines(Mmu.Trace(s', store, numbers[1..]).1)
  {
    var (s', out) := Mmu.Access(s, store, numbers[0]);
    var rest := Mmu.Trace(s', store, numbers[1..]).1;
    assert ([out] + rest)[1..] == rest;
  }

  /** ... and so are the lines printed. */
  lemma {:induction false} LinesInLockstep(a: Mmu.Machine, b: Mmu2.Machine, store: Store, numbers: seq<int>)
    requires StayInLockstep(a, b, store, numbers) && Addresses16(numbers)
    ensures Mmu2.Trace(b, store, numbers).1 == Lines(Mmu.Trace(a, store, numbers).1)
    decreases numbers
  {
    if numbers != [] {
      SamePageAndOffset(numbers[0]);
      AccessInLockstep(a, b, store, numbers[0]);
      OutputInLockstep(a, b, store, numbers[0]);
      LinesInLockstep(Mmu.Access(a, store, numbers[0]).0, Mmu2.Access(b, store, numbers[0]).0, store, numbers[1..]);
      TraceFirst(a, store, numbers);
    }
  }

  lemma StartAgrees(tlbSize: nat, frames: nat)
    requires 0 < tlbSize && 0 < frames
    ensures Agree(Mmu.Start(tlbSize, frames), Mmu2.Start(tlbSize, frames))
  {
  }

  /** The two programs from their initial states, on any trace of 16-bit addresses: in lockstep exactly if the trace
      never separates them, and then they print the same. */
  lemma ProgramsInLockstep(tlbSize: nat, frames: nat, store: Store, numbers: seq<int>)
    requires 0 < tlbSize && 0 < frames && Addresses16(numbers)
    ensures var a, b := Mmu.Start(tlbSize, frames), Mmu2.Start(tlbSize, frames);
            && (StayInLockstep(a, b, store, numbers) <==> NeverSeparates(b, store, numbers))
            && (NeverSeparates(b, store, numbers) ==>
                  && Mmu2.Trace(b, store, numbers).1 == Lines(Mmu.Trace(a, store, numbers).1)
                  && Mmu.TallyTrace(Counters(0, 0, 0), a, store, numbers)
                  == Mmu2.TallyTrace(Counters(0, 0, 0), b, store, numbers))
  {
    var a, b := Mmu.Start(tlbSize, frames), Mmu2.Start(tlbSize, frames);
    StartAgrees(tlbSize, frames);
    LockstepExactlyUnlessSeparated(a, b, store, numbers);
    if NeverSeparates(b, store, numbers) {
      CountersInLockstep(a, b, Counters(0, 0, 0), store, numbers);
      LinesInLockstep(a, b, store, numbers);
    }
  }
}
