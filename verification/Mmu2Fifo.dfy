/** Assignment_4/solution2/assignment4.c is the two queues of module TwoQueues: what its TLB holds, what it
    counts, and exactly when it prints the bytes of the backing store. */
module Mmu2Fifo {
  import opened Paging
  import opened Mmu2
  import Fifo
  import Ring
  import TwoQueues

  // ---------- the two queues of a state ----------

  /** The entries in use are `tlbCount` many, in ring order, with pairwise distinct pages. */
  ghost predicate TlbRing(s: Machine) {
    && s.tlbCount <= |s.tlb|
    && (s.tlbCount < |s.tlb| ==> s.tlbCount == s.tlbIndex)
    && (forall x :: 0 <= x < |s.tlb| ==> (s.tlb[x] == EMPTY <==> s.tlbCount <= x))
    && (forall x, y :: 0 <= x < y < s.tlbCount ==> s.tlb[x].page != s.tlb[y].page)
  }

  function EntryPages(tlb: seq<Entry>): (r: seq<int>)
    ensures |r| == |tlb| && forall x :: 0 <= x < |tlb| ==> r[x] == tlb[x].page
  {
    seq(|tlb|, x requires 0 <= x < |tlb| => tlb[x].page)
  }

  /** The pages of the TLB, first inserted first. */
  function TlbQueue(s: Machine): seq<int> {
    Ring.Contents(EntryPages(s.tlb), s.tlbIndex, s.tlbCount == |s.tlb|)
  }

  /** The resident pages, first loaded first. */
  function FrameQueue(s: Machine): seq<int> {
    Ring.Contents(s.framePage, s.current, s.framePage[s.current] != -1)
  }

  function Abstract(s: Machine): TwoQueues.Queues {
    TwoQueues.Queues(TlbQueue(s), FrameQueue(s))
  }

  lemma InTlbQueue(s: Machine, page: int)
    requires TlbRing(s) && 0 <= page < PAGES
    ensures page in TlbQueue(s) <==> Search(s.tlb, page) != -1
  {
  }

  lemma InFrameQueue(s: Machine, page: int)
    requires 0 <= page < PAGES
    ensures page in FrameQueue(s) <==> s.pageTable[page] != -1
  {
  }

  // ---------- one access ----------

  lemma AddTlbTouches(s: Machine, s': Machine, page: int, frame: int)
    requires TlbRing(s) && 0 <= page < PAGES && Search(s.tlb, page) == -1
    requires s'.tlb == s.tlb[s.tlbIndex := Entry(page, frame)] && s'.tlbIndex == Ring.Next(s.tlbIndex, |s.tlb|)
    requires s'.tlbCount == if s.tlbCount < |s.tlb| then s.tlbCount + 1 else s.tlbCount
    ensures TlbRing(s') && TlbQueue(s') == Fifo.Touch(TlbQueue(s), |s.tlb|, page)
  {
    InTlbQueue(s, page);
    MissMeansAbsent(s, page);
    assert EntryPages(s'.tlb) == EntryPages(s.tlb)[s.tlbIndex := page];
    if s.tlbCount < |s.tlb| {
      Ring.WriteAppends(EntryPages(s.tlb), s.tlbIndex, page);
    } else {
      Ring.WriteReplaces(EntryPages(s.tlb), s.tlbIndex, page);
    }
  }

  lemma ReplacePageTouches(s: Machine, s': Machine, page: int)
    requires 0 <= page < PAGES && s.pageTable[page] == -1
    requires s'.framePage == s.framePage[s.current := page] && s'.current == Ring.Next(s.current, |s.framePage|)
    ensures FrameQueue(s') == Fifo.Touch(FrameQueue(s), |s.framePage|, page)
  {
    InFrameQueue(s, page);
    if s.framePage[s.current] == -1 {
      Ring.WriteAppends(s.framePage, s.current, page);
      assert s'.framePage[s'.current] != -1 <==> s.current + 1 == |s.framePage|;
    } else {
      Ring.WriteReplaces(s.framePage, s.current, page);
    }
  }

  /** An access moves the two queues as TwoQueues.Step says, and the TLB has no page twice. */
  lemma TranslateSteps(s: Machine, store: Store, page: int)
    requires TlbRing(s) && 0 <= page < PAGES
    ensures TlbRing(Translate(s, store, page).0)
    ensures Abstract(Translate(s, store, page).0) == TwoQueues.Step(Abstract(s), |s.tlb|, |s.framePage|, page)
    ensures StaleHit(s, page) <==> TwoQueues.Stale(Abstract(s), page)
  {
    InTlbQueue(s, page);
    InFrameQueue(s, page);
    var (s', frame) := Translate(s, store, page);
    if Search(s.tlb, page) == -1 {
      MissMeansAbsent(s, page);
      AddTlbTouches(s, s', page, frame);
      if s.pageTable[page] == -1 {
        ReplacePageTouches(s, s', page);
      }
    }
  }

  // ---------- whole traces ----------

  /** The page numbers the program does not reject. */
  function Pages(numbers: seq<int>): (r: seq<int>)
    ensures forall i :: 0 <= i < |r| ==> 0 <= r[i] < PAGES
  {
    if numbers == [] then []
    else (if Page(numbers[0]) < PAGES then [Page(numbers[0])] else []) + Pages(numbers[1..])
  }

  lemma HitSteps(c: Counters, s: Machine, store: Store, page: int)
    requires TlbRing(s) && 0 <= page < PAGES && page in TlbQueue(s)
    ensures Tally(c, s, page) == Counters(c.totalAddresses + 1, c.tlbHits + 1, c.pageFaults)
    ensures Translate(s, store, page).0 == s
  {
  }

  lemma MissTallies(c: Counters, s: Machine, page: int)
    requires TlbRing(s) && 0 <= page < PAGES && page !in TlbQueue(s)
    ensures Tally(c, s, page) == Counters(c.totalAddresses + 1, c.tlbHits,
              c.pageFaults + if page in FrameQueue(s) then 0 else 1)
  {
  }

  lemma AccessSteps(c: Counters, s: Machine, store: Store, page: int) returns (c': Counters, s': Machine)
    requires TlbRing(s) && 0 <= page < PAGES
    ensures s' == Translate(s, store, page).0 && c' == Tally(c, s, page)
    ensures TlbRing(s') && |s'.tlb| == |s.tlb| && |s'.framePage| == |s.framePage|
    ensures TlbQueue(s') == Fifo.Touch(TlbQueue(s), |s.tlb|, page)
    ensures page in TlbQueue(s) ==> c' == Counters(c.totalAddresses + 1, c.tlbHits + 1, c.pageFaults)
    ensures page in TlbQueue(s) ==> FrameQueue(s') == FrameQueue(s)
    ensures page !in TlbQueue(s) ==> c' == Counters(c.totalAddresses + 1, c.tlbHits,
              c.pageFaults + if page in FrameQueue(s) then 0 else 1)
    ensures page !in TlbQueue(s) ==> FrameQueue(s') == Fifo.Touch(FrameQueue(s), |s.framePage|, page)
  {
    c', s' := Tally(c, s, page), Translate(s, store, page).0;
    TranslateSteps(s, store, page);
    assert Abstract(s') == TwoQueues.Step(Abstract(s), |s.tlb|, |s.framePage|, page);
    if page in TlbQueue(s) {
      HitSteps(c, s, store, page);
    } else {
      MissTallies(c, s, page);
    }
  }

  lemma PagesFirst(numbers: seq<int>)
    requires numbers != [] && Page(numbers[0]) < PAGES
    ensures Pages(numbers)[0] == Page(numbers[0]) && Pages(numbers)[1..] == Pages(numbers[1..])
  {
  }

  /** After a trace the TLB holds the last pages inserted, as a FIFO cache of TLB_SIZE pages would, and memory
      is a FIFO cache of FRAME_COUNT pages on the references that missed the first. */
  lemma {:induction false} TraceQueues(s: Machine, store: Store, numbers: seq<int>)
    requires TlbRing(s)
    ensures TlbRing(Trace(s, store, numbers).0)
    ensures TlbQueue(Trace(s, store, numbers).0) == Fifo.Run(TlbQueue(s), |s.tlb|, Pages(numbers))
    ensures FrameQueue(Trace(s, store, numbers).0)
         == Fifo.Run(FrameQueue(s), |s.framePage|, Fifo.Misses(TlbQueue(s), |s.tlb|, Pages(numbers)))
    decreases numbers
  {
    if numbers != [] {
      if PAGES <= Page(numbers[0]) {
        assert Pages(numbers) == Pages(numbers[1..]);
        TraceQueues(s, store, numbers[1..]);
      } else {
        PagesFirst(numbers);
        Fifo.MissesFirst(TlbQueue(s), |s.tlb|, Pages(numbers));
        var _, s' := AccessSteps(Counters(0, 0, 0), s, store, Page(numbers[0]));
        TraceQueues(s', store, numbers[1..]);
      }
    }
  }

  /** TLB hits are the hits of the first cache, page faults the faults of the second. */
  lemma {:induction false} TraceCounts(c: Counters, s: Machine, store: Store, numbers: seq<int>)
    requires TlbRing(s)
    ensures var c' := TallyTrace(c, s, store, numbers);
            && c'.totalAddresses == c.totalAddresses + |Pages(numbers)|
            && c'.tlbHits + Fifo.Faults(TlbQueue(s), |s.tlb|, Pages(numbers)) == c.tlbHits + |Pages(numbers)|
            && c'.pageFaults == c.pageFaults
                 + Fifo.Faults(FrameQueue(s), |s.framePage|, Fifo.Misses(TlbQueue(s), |s.tlb|, Pages(numbers)))
    decreases numbers
  {
    if numbers != [] {
      if PAGES <= Page(numbers[0]) {
        assert Pages(numbers) == Pages(numbers[1..]);
        TraceCounts(c, s, store, numbers[1..]);
      } else {
        PagesFirst(numbers);
        Fifo.MissesFirst(TlbQueue(s), |s.tlb|, Pages(numbers));
        var c', s' := AccessSteps(c, s, store, Page(numbers[0]));
        TraceCounts(c', s', store, numbers[1..]);
      }
    }
  }

  // ---------- when the bytes printed are right ----------

  /** A valid address is answered with the byte the backing store has there. */
  predicate AnswersWell(line: Line, store: Store, number: int) {
    if Page(number) < PAGES then line.Printed? && line.out.value == store[Logical(number)] else line == Rejected(Logical(number), Page(number))
  }

  ghost predicate ReadsStore(lines: seq<Line>, store: Store, numbers: seq<int>) {
    |lines| == |numbers| && forall i :: 0 <= i < |lines| ==> AnswersWell(lines[i], store, numbers[i])
  }

  lemma ReadsStoreFirst(line: Line, lines: seq<Line>, store: Store, numbers: seq<int>)
    requires numbers != []
    ensures ReadsStore([line] + lines, store, numbers)
       <==> AnswersWell(line, store, numbers[0]) && ReadsStore(lines, store, numbers[1..])
  {
  }

  lemma AccessReads(s: Machine, store: Store, number: int)
    requires MemoryHolds(s, store) && Page(number) < PAGES && !StaleHit(s, Page(number))
    ensures AnswersWell(Access(s, store, number).1, store, number)
  {
    FrameIsRightUnlessStale(s, store, Page(number));
    TranslateKeepsMemory(s, store, Page(number));
  }

  lemma {:induction false} NeverStaleReadsStore(s: Machine, store: Store, numbers: seq<int>)
    requires TlbRing(s) && MemoryHolds(s, store)
    requires TwoQueues.NeverStale(Abstract(s), |s.tlb|, |s.framePage|, Pages(numbers))
    ensures ReadsStore(Trace(s, store, numbers).1, store, numbers)
    decreases numbers
  {
    if numbers != [] {
      var page, rest := Page(numbers[0]), numbers[1..];
      var (s', line) := Access(s, store, numbers[0]);
      if PAGES <= page {
        assert Pages(numbers) == Pages(rest);
      } else {
        assert Pages(numbers)[0] == page && Pages(numbers)[1..] == Pages(rest);
        TranslateSteps(s, store, page);
        TranslateKeepsMemory(s, store, page);
        AccessReads(s, store, numbers[0]);
      }
      NeverStaleReadsStore(s', store, rest);
      ReadsStoreFirst(line, Trace(s', store, rest).1, store, numbers);
    }
  }

  /** The first page of the trace to be found stale. */
  function FirstStale(q: TwoQueues.Queues, tlbSize: nat, frames: nat, pages: seq<int>): int
    requires 0 < tlbSize && 0 < frames && !TwoQueues.NeverStale(q, tlbSize, frames, pages)
    decreases pages
  {
    if TwoQueues.Stale(q, pages[0]) then pages[0]
    else FirstStale(TwoQueues.Step(q, tlbSize, frames, pages[0]), tlbSize, frames, pages[1..])
  }

  /** A store in which the bytes of one page differ from all others. */
  ghost predicate Marks(store: Store, page: int) {
    forall a :: 0 <= a < |store| ==> store[a] == if a / FRAME_SIZE == page then 1 else 0
  }

  lemma StaleAccessMisreads(s: Machine, store: Store, number: int)
    requires MemoryHolds(s, store) && Page(number) < PAGES && StaleHit(s, Page(number)) && Marks(store, Page(number))
    ensures !AnswersWell(Access(s, store, number).1, store, number)
  {
  }

  lemma {:induction false} StaleMisreads(s: Machine, store: Store, numbers: seq<int>)
    requires TlbRing(s) && MemoryHolds(s, store)
    requires !TwoQueues.NeverStale(Abstract(s), |s.tlb|, |s.framePage|, Pages(numbers))
    requires Marks(store, FirstStale(Abstract(s), |s.tlb|, |s.framePage|, Pages(numbers)))
    ensures !ReadsStore(Trace(s, store, numbers).1, store, numbers)
    decreases numbers
  {
    var page, rest := Page(numbers[0]), numbers[1..];
    var (s', line) := Access(s, store, numbers[0]);
    ReadsStoreFirst(line, Trace(s', store, rest).1, store, numbers);
    if PAGES <= page {
      assert Pages(numbers) == Pages(rest);
      StaleMisreads(s', store, rest);
    } else {
      assert Pages(numbers)[0] == page && Pages(numbers)[1..] == Pages(rest);
      TranslateSteps(s, store, page);
      if StaleHit(s, page) {
        StaleAccessMisreads(s, store, numbers[0]);
      } else {
        TranslateKeepsMemory(s, store, page);
        StaleMisreads(s', store, rest);
      }
    }
  }

  function MarkedStore(page: int): (store: Store)
    ensures Marks(store, page)
  {
    seq(PAGES * FRAME_SIZE, (a: nat) => if a / FRAME_SIZE == page then 1 else 0)
  }

  lemma StartQueues(tlbSize: nat, frames: nat, store: Store)
    requires 0 < tlbSize && 0 < frames
    ensures var s := Start(tlbSize, frames);
            TlbRing(s) && MemoryHolds(s, store) && Abstract(s) == TwoQueues.EMPTY_QUEUES
  {
  }

  lemma StartReadsStore(tlbSize: nat, frames: nat, store: Store, numbers: seq<int>)
    requires 0 < tlbSize && 0 < frames
    ensures TwoQueues.NeverStale(TwoQueues.EMPTY_QUEUES, tlbSize, frames, Pages(numbers)) ==>
              ReadsStore(Trace(Start(tlbSize, frames), store, numbers).1, store, numbers)
  {
    if TwoQueues.NeverStale(TwoQueues.EMPTY_QUEUES, tlbSize, frames, Pages(numbers)) {
      StartQueues(tlbSize, frames, store);
      NeverStaleReadsStore(Start(tlbSize, frames), store, numbers);
    }
  }

  /** For one trace: the program is right whatever the backing store exactly when no page is ever asked for
      while the TLB still has it and memory does not. */
  lemma RightExactlyWhenNeverStale(tlbSize: nat, frames: nat, numbers: seq<int>)
    requires 0 < tlbSize && 0 < frames
    ensures TwoQueues.NeverStale(TwoQueues.EMPTY_QUEUES, tlbSize, frames, Pages(numbers))
       <==> forall store: Store :: ReadsStore(Trace(Start(tlbSize, frames), store, numbers).1, store, numbers)
  {
    var s := Start(tlbSize, frames);
    if TwoQueues.NeverStale(TwoQueues.EMPTY_QUEUES, tlbSize, frames, Pages(numbers)) {
      forall store: Store
        ensures ReadsStore(Trace(s, store, numbers).1, store, numbers)
      {
        StartReadsStore(tlbSize, frames, store, numbers);
      }
    } else {
      var store := MarkedStore(FirstStale(TwoQueues.EMPTY_QUEUES, tlbSize, frames, Pages(numbers)));
      StartQueues(tlbSize, frames, store);
      StaleMisreads(s, store, numbers);
    }
  }

  function Addresses(pages: seq<int>): seq<int> {
    if pages == [] then [] else [pages[0] * FRAME_SIZE] + Addresses(pages[1..])
  }

  lemma PageOfAddress(page: nat)
    requires page < PAGES
    ensures Page(page * FRAME_SIZE) == page
  {
    assert Logical(page * FRAME_SIZE) == page * FRAME_SIZE;
  }

  lemma {:induction false} PagesOfAddresses(pages: seq<int>)
    requires TwoQueues.InRange(pages)
    ensures Pages(Addresses(pages)) == pages
  {
    if pages != [] {
      var addresses := Addresses(pages);
      PagesOfAddresses(pages[1..]);
      assert addresses[0] == pages[0] * FRAME_SIZE && addresses[1..] == Addresses(pages[1..]);
      PageOfAddress(pages[0]);
    }
  }

  /** For all traces: right exactly for a one-entry TLB, a TLB as large as memory, or a frame for every page;
      16 entries and 128 frames are none of these. */
  lemma RightExactlyForGoodSizes(tlbSize: nat, frames: nat)
    requires 0 < tlbSize && 0 < frames
    ensures TwoQueues.GoodSizes(tlbSize, frames)
       <==> forall numbers: seq<int>, store: Store ::
              ReadsStore(Trace(Start(tlbSize, frames), store, numbers).1, store, numbers)
  {
    if TwoQueues.GoodSizes(tlbSize, frames) {
      forall numbers: seq<int>, store: Store
        ensures ReadsStore(Trace(Start(tlbSize, frames), store, numbers).1, store, numbers)
      {
        TwoQueues.GoodSizesNeverStale(TwoQueues.EMPTY_QUEUES, tlbSize, frames, Pages(numbers));
        RightExactlyWhenNeverStale(tlbSize, frames, numbers);
      }
    } else {
      var numbers := Addresses(TwoQueues.BadTrace(tlbSize, frames));
      TwoQueues.BadTraceIsStale(tlbSize, frames);
      PagesOfAddresses(TwoQueues.BadTrace(tlbSize, frames));
      RightExactlyWhenNeverStale(tlbSize, frames, numbers);
    }
  }

  /** The sizes of the source: after one access to each of the pages 0 to 127, then to 0 and 128, page 0 is still in
      the TLB but no longer in memory, and is misread. */
  lemma SixteenEntriesMisread() returns (store: Store, numbers: seq<int>)
    ensures numbers == Addresses(TwoQueues.Range(0, 128) + ([0] + ([128] + [0])))
    ensures !ReadsStore(Trace(Start(16, 128), store, numbers).1, store, numbers)
  {
    var pages := TwoQueues.BadTrace(16, 128);
    numbers := Addresses(pages);
    TwoQueues.BadTraceIsStale(16, 128);
    PagesOfAddresses(pages);
    store := MarkedStore(FirstStale(TwoQueues.EMPTY_QUEUES, 16, 128, pages));
    StartQueues(16, 128, store);
    StaleMisreads(Start(16, 128), store, numbers);
  }
}
