/** The frames of Assignment_4/solution/Assignment4.c, seen through its page faults, are a FIFO cache
    without a TLB. From that its fault count inherits the bounds of module Fifo. */
module MmuFifo {
  import opened Paging
  import opened Mmu
  import opened MmuCoherence
  import Sequences
  import Fifo
  import Ring

  /** The resident pages, oldest first. */
  function Queue(s: Machine): seq<int> {
    var full := s.nextFrame == |s.pageOrder|;
    Ring.Contents(s.pageOrder, if full then s.frameIndex else s.nextFrame, full)
  }

  lemma QueueIsResident(s: Machine, page: int)
    requires 0 <= page < PAGES
    ensures page in Queue(s) <==> s.pageTable[page] != -1
  {
  }

  /** An access faults exactly when its page is not in the queue. */
  lemma FaultsOutsideQueue(s: Machine, page: int)
    requires Inv(s) && 0 <= page < PAGES
    ensures PathOf(s, page) in {FreeLoad, Replacement} <==> page !in Queue(s)
  {
  }

  lemma TranslateTouchesQueue(s: Machine, store: Store, page: int)
    requires Inv(s) && 0 <= page < PAGES
    ensures Queue(Translate(s, store, page).0) == Fifo.Touch(Queue(s), |s.pageOrder|, page)
  {
    FaultsOutsideQueue(s, page);
    var s' := Translate(s, store, page).0;
    match PathOf(s, page)
    case TlbHit =>
    case TableHit =>
    case FreeLoad => Ring.WriteAppends(s.pageOrder, s.nextFrame, page);
    case Replacement => Ring.WriteReplaces(s.pageOrder, s.frameIndex, page);
  }

  function Pages(numbers: seq<int>): seq<int> {
    seq(|numbers|, i requires 0 <= i < |numbers| => Page(numbers[i]))
  }

  lemma AccessRefinesFifo(c: Counters, s: Machine, store: Store, number: int) returns (c': Counters, s': Machine)
    requires Inv(s) && GoodSizes(|s.tlb|, |s.pageOrder|)
    ensures s' == Access(s, store, number).0 && c' == Tally(c, PathOf(s, Page(number)))
    ensures Inv(s') && |s'.tlb| == |s.tlb| && |s'.pageOrder| == |s.pageOrder|
    ensures Queue(s') == Fifo.Touch(Queue(s), |s.pageOrder|, Page(number))
    ensures c'.pageFaults == c.pageFaults + if Page(number) in Queue(s) then 0 else 1
    ensures c'.totalAddresses == c.totalAddresses + 1
  {
    var page := Page(number);
    s', c' := Translate(s, store, page).0, Tally(c, PathOf(s, page));
    FaultsOutsideQueue(s, page);
    TranslateTouchesQueue(s, store, page);
    TranslateKeeps(s, store, page);
  }

  /** A whole trace: same resident pages, same faults as FIFO paging without a TLB. */
  lemma {:induction false} TraceRefinesFifo(c: Counters, s: Machine, store: Store, numbers: seq<int>)
    requires Inv(s) && GoodSizes(|s.tlb|, |s.pageOrder|)
    ensures Queue(Trace(s, store, numbers).0) == Fifo.Run(Queue(s), |s.pageOrder|, Pages(numbers))
    ensures TallyTrace(c, s, store, numbers).totalAddresses == c.totalAddresses + |numbers|
    ensures TallyTrace(c, s, store, numbers).pageFaults
         == c.pageFaults + Fifo.Faults(Queue(s), |s.pageOrder|, Pages(numbers))
    decreases numbers
  {
    if numbers != [] {
      assert Pages(numbers)[0] == Page(numbers[0]) && Pages(numbers)[1..] == Pages(numbers[1..]);
      var c', s' := AccessRefinesFifo(c, s, store, numbers[0]);
      TraceRefinesFifo(c', s', store, numbers[1..]);
    }
  }

  /** TLB hits and page faults share the addresses; a TLB with an entry for every frame leaves no third kind. */
  lemma {:induction false} HitsAndFaults(c: Counters, s: Machine, store: Store, numbers: seq<int>)
    requires Inv(s) && GoodSizes(|s.tlb|, |s.pageOrder|)
    ensures var c' := TallyTrace(c, s, store, numbers);
            var hits, faults := c'.tlbHits - c.tlbHits, c'.pageFaults - c.pageFaults;
            if |s.pageOrder| <= |s.tlb| then hits + faults == |numbers| else hits + faults <= |numbers|
    decreases numbers
  {
    if numbers != [] {
      var page := Page(numbers[0]);
      if PathOf(s, page) == TableHit {
        TableHitKeeps(s, page);
      }
      TranslateKeeps(s, store, page);
      HitsAndFaults(Tally(c, PathOf(s, page)), Translate(s, store, page).0, store, numbers[1..]);
    }
  }

  /** The number of page faults printed at the end: exactly those of FIFO paging; never fewer than the
      distinct pages of the trace, and no more when these fit into the frames; at most `frames` times
      the faults of any demand-paging schedule with as many frames, whatever that schedule knows. */
  lemma PageFaultCount(tlbSize: nat, frames: nat, store: Store, numbers: seq<int>, rival: seq<set<int>>)
    requires 0 < tlbSize && 0 < frames && GoodSizes(tlbSize, frames)
    requires Fifo.Schedule(rival, frames, Pages(numbers)) && rival[0] == {}
    ensures var faults := TallyTrace(Counters(0, 0, 0), Start(tlbSize, frames), store, numbers).pageFaults;
            var distinct := |Sequences.Elements(Pages(numbers))|;
            && faults == Fifo.Faults([], frames, Pages(numbers))
            && distinct <= faults
            && (distinct <= frames ==> faults == distinct)
            && faults <= frames * Fifo.RivalFaults(rival, Pages(numbers))
  {
    StartIsGood(tlbSize, frames, store);
    TraceRefinesFifo(Counters(0, 0, 0), Start(tlbSize, frames), store, numbers);
    var pages := Pages(numbers);
    assert Sequences.Elements([]) == {};
    assert Sequences.Elements(pages) - {} == Sequences.Elements(pages) == {} + Sequences.Elements(pages);
    Fifo.DistinctPagesFault([], frames, pages);
    if |Sequences.Elements(pages)| <= frames {
      Fifo.FittingTraceFaultsOnce([], frames, pages);
    }
    Fifo.Competitive(frames, pages, rival);
  }
}
