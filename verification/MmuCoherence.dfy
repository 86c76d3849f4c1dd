/** Why Assignment_4/solution/Assignment4.c translates correctly although it repairs only one TLB entry of
    an evicted page and leaves duplicates behind: the run of a duplicate ends before its page is evicted,
    as long as the TLB has fewer than twice as many entries as there are frames. */
module MmuCoherence {
  import opened Ring
  import opened Paging
  import opened Mmu
  import Sequences

  // ---------- the invariant ----------

  ghost predicate MemoryHolds(s: Machine, store: Store)
  {
    forall f :: 0 <= f < s.nextFrame ==> s.memory[f] == PageBytes(store, s.pageOrder[f])
  }

  /** Every TLB entry in use agrees with the page table. */
  ghost predicate Coherent(s: Machine)
  {
    forall x :: 0 <= x < |s.tlb| && s.tlb[x] != EMPTY ==> s.pageTable[s.tlb[x].page] == s.tlb[x].frame
  }

  /** How many TLB insertions are left before the one that overwrites position x. */
  function Dist(s: Machine, x: int): int {
    if s.tlbIndex <= x then x - s.tlbIndex else x - s.tlbIndex + |s.tlb|
  }

  /** How many faults ago frame f was loaded. */
  function Age(s: Machine, f: int): int {
    if s.nextFrame < |s.pageOrder| then s.nextFrame - 1 - f
    else if f < s.frameIndex then s.frameIndex - 1 - f
    else s.frameIndex - 1 - f + |s.pageOrder|
  }

  /** The position that was written Age(s, f) insertions before the latest one. */
  function Slot(s: Machine, f: int): int {
    var x := s.tlbIndex - 1 - Age(s, f);
    if 0 <= x then x else x + |s.tlb|
  }

  /** Of two entries for one page, one is overwritten before the page becomes the oldest. */
  ghost predicate DuplicatesFade(s: Machine) {
    forall x, y :: 0 <= x < y < |s.tlb| && s.tlb[x] != EMPTY && s.tlb[x].page == s.tlb[y].page ==>
      && s.tlb[x] == s.tlb[y]
      && (Dist(s, x) + Age(s, s.tlb[x].frame) <= |s.pageOrder| - 2 ||
          Dist(s, y) + Age(s, s.tlb[x].frame) <= |s.pageOrder| - 2)
  }

  /** A TLB with at least as many entries as there are frames holds every resident page at the place
      where its load put it, and only at places written no later than that. */
  ghost predicate LargeTlb(s: Machine)
  {
    |s.pageOrder| <= |s.tlb| ==>
      && (forall f :: 0 <= f < s.nextFrame ==> 0 <= Slot(s, f) < |s.tlb| && s.tlb[Slot(s, f)] == Entry(s.pageOrder[f], f))
      && (forall x :: 0 <= x < |s.tlb| && s.tlb[x] != EMPTY ==> Dist(s, x) + Age(s, s.tlb[x].frame) < |s.tlb|)
  }

  ghost predicate Inv(s: Machine) {
    Coherent(s) && DuplicatesFade(s) && LargeTlb(s)
  }

  /** The sizes for which the program is right; 16 entries and 128 frames are among them. */
  predicate GoodSizes(tlbSize: nat, frames: nat) {
    tlbSize < 2 * frames || PAGES <= frames
  }

  // ---------- TLB search under coherence ----------

  lemma MissMeansAbsent(s: Machine, page: int)
    requires 0 <= page < PAGES && Search(s.tlb, page) == -1
    ensures forall x :: 0 <= x < |s.tlb| ==> s.tlb[x].page != page
  {
  }

  lemma HitIsTableFrame(s: Machine, page: int)
    requires Inv(s) && 0 <= page < PAGES && Search(s.tlb, page) != -1
    ensures Search(s.tlb, page) == s.pageTable[page]
  {
  }

  // ---------- how distances and ages move ----------

  /** One insertion brings every other position one step closer to being overwritten. */
  lemma InsertionMovesDistances(s: Machine, s': Machine)
    requires Shape(s) && |s'.tlb| == |s.tlb| && s'.tlbIndex == Next(s.tlbIndex, |s.tlb|)
    ensures forall x :: 0 <= x < |s.tlb| ==> 0 <= Dist(s, x) < |s.tlb|
    ensures forall x :: 0 <= x < |s.tlb| && x != s.tlbIndex ==> Dist(s', x) == Dist(s, x) - 1
    ensures Dist(s', s.tlbIndex) == |s.tlb| - 1
  {
  }

  /** What a page fault into frame f does to the ages of the frames in use. */
  ghost predicate LoadAges(s: Machine, s': Machine, f: nat) {
    && Shape(s) && Shape(s') && |s'.pageOrder| == |s.pageOrder|
    && s.nextFrame <= s'.nextFrame && f < s'.nextFrame
    && Age(s', f) == 0
    && (forall g :: 0 <= g < s'.nextFrame && g != f ==>
          g < s.nextFrame && 0 <= Age(s, g) < |s.pageOrder| - 1 && Age(s', g) == Age(s, g) + 1)
  }

  lemma FreeLoadAges(s: Machine, store: Store, page: int)
    requires 0 <= page < PAGES && s.pageTable[page] == -1 && s.nextFrame < |s.pageOrder|
    ensures LoadAges(s, LoadFree(s, store, page), s.nextFrame)
  {
  }

  lemma ReplaceAges(s: Machine, store: Store, page: int)
    requires 0 <= page < PAGES && s.pageTable[page] == -1 && s.nextFrame == |s.pageOrder|
    ensures LoadAges(s, Replace(s, store, page), s.frameIndex)
    ensures Age(s, s.frameIndex) == |s.pageOrder| - 1
  {
  }

  /** A slot keeps its place through a load, and the load does not write to it. */
  lemma LoadKeepsSlots(s: Machine, s': Machine, f: nat, g: nat)
    requires LoadAges(s, s', f) && |s'.tlb| == |s.tlb| && s'.tlbIndex == Next(s.tlbIndex, |s.tlb|)
    requires |s.pageOrder| <= |s.tlb|
    requires g < s'.nextFrame && g != f
    ensures Slot(s', g) == Slot(s, g) != s.tlbIndex && 0 <= Slot(s, g) < |s.tlb|
  {
  }

  // ---------- each path keeps the invariant ----------

  lemma TableHitKeeps(s: Machine, page: int)
    requires Inv(s) && 0 <= page < PAGES
    requires Search(s.tlb, page) == -1 && s.pageTable[page] != -1
    ensures Inv(TlbAdd(s, page, s.pageTable[page]))
    ensures |s.tlb| < |s.pageOrder|
  {
    MissMeansAbsent(s, page);
    var f := s.pageTable[page];
    var s' := TlbAdd(s, page, f);
    InsertionMovesDistances(s, s');
    if |s.pageOrder| <= |s.tlb| {
      var x := Slot(s, f);
      assert false;
    }
  }

  lemma LoadFreeKeeps(s: Machine, store: Store, page: int)
    requires Inv(s) && 0 <= page < PAGES
    requires Search(s.tlb, page) == -1 && s.pageTable[page] == -1 && s.nextFrame < |s.pageOrder|
    ensures Inv(LoadFree(s, store, page))
  {
    MissMeansAbsent(s, page);
    var s' := LoadFree(s, store, page);
    InsertionMovesDistances(s, s');
    FreeLoadAges(s, store, page);
    assert DuplicatesFade(s');
    LoadFreeKeepsLargeTlb(s, store, page);
  }

  lemma LoadFreeKeepsLargeTlb(s: Machine, store: Store, page: int)
    requires Inv(s) && 0 <= page < PAGES
    requires Search(s.tlb, page) == -1 && s.pageTable[page] == -1 && s.nextFrame < |s.pageOrder|
    ensures LargeTlb(LoadFree(s, store, page))
  {
    var s' := LoadFree(s, store, page);
    InsertionMovesDistances(s, s');
    FreeLoadAges(s, store, page);
    if |s.pageOrder| <= |s.tlb| {
      forall g | 0 <= g < s'.nextFrame && g != s.nextFrame
        ensures s'.tlb[Slot(s', g)] == Entry(s'.pageOrder[g], g)
      {
        LoadKeepsSlots(s, s', s.nextFrame, g);
      }
    }
  }

  /** A page about to be evicted has at most one TLB entry. */
  lemma EvictedHasOneEntry(s: Machine, x: int, y: int)
    requires Inv(s) && s.nextFrame == |s.pageOrder|
    requires 0 <= x < |s.tlb| && 0 <= y < |s.tlb|
    requires s.tlb[x].page == s.tlb[y].page == s.pageOrder[s.frameIndex]
    ensures x == y
  {
  }

  /** A fault that replaces a page: what the proofs below need to know about the new TLB. */
  lemma ReplaceTlb(s: Machine, store: Store, page: int) returns (i: nat)
    requires Inv(s) && 0 <= page < PAGES && s.nextFrame == |s.pageOrder|
    requires Search(s.tlb, page) == -1 && s.pageTable[page] == -1
    ensures i <= |s.tlb|
    ensures i < |s.tlb| ==> s.tlb[i] == Entry(s.pageOrder[s.frameIndex], s.frameIndex)
    ensures forall x :: 0 <= x < |s.tlb| ==>
              var e := Replace(s, store, page).tlb[x];
              if x == i || x == s.tlbIndex then e == Entry(page, s.frameIndex)
              else e == s.tlb[x] && e.page != page && e.page != s.pageOrder[s.frameIndex]
  {
    MissMeansAbsent(s, page);
    i := FirstMatch(s.tlb, s.pageOrder[s.frameIndex]);
    forall x | 0 <= x < |s.tlb| && x != i
      ensures s.tlb[x].page != s.pageOrder[s.frameIndex]
    {
      if s.tlb[x].page == s.pageOrder[s.frameIndex] {
        EvictedHasOneEntry(s, x, i);
      }
    }
  }

  lemma ReplaceKeepsCoherent(s: Machine, store: Store, page: int)
    requires Inv(s) && 0 <= page < PAGES && s.nextFrame == |s.pageOrder|
    requires Search(s.tlb, page) == -1 && s.pageTable[page] == -1
    ensures Coherent(Replace(s, store, page))
  {
    var i := ReplaceTlb(s, store, page);
  }

  /** The only new duplicate is the rewritten entry, and it has fewer insertions to live than there are
      faults until the new page is the oldest. */
  lemma ReplaceKeepsDuplicatesFade(s: Machine, store: Store, page: int)
    requires Inv(s) && 0 <= page < PAGES && s.nextFrame == |s.pageOrder| && |s.tlb| < 2 * |s.pageOrder|
    requires Search(s.tlb, page) == -1 && s.pageTable[page] == -1
    ensures DuplicatesFade(Replace(s, store, page))
  {
    var s' := Replace(s, store, page);
    var i := ReplaceTlb(s, store, page);
    forall x, y | 0 <= x < y < |s'.tlb| && s'.tlb[x] != EMPTY && s'.tlb[x].page == s'.tlb[y].page
      ensures s'.tlb[x] == s'.tlb[y]
      ensures var d := |s.pageOrder| - 2 - Age(s', s'.tlb[x].frame); Dist(s', x) <= d || Dist(s', y) <= d
    {
      if x != i && x != s.tlbIndex {
        OldPairFades(s, store, page, x, y);
      } else {
        NewPairFades(s, store, page, i, x, y);
      }
    }
  }

  /** A pair that was there before: one more fault, one insertion less to live. */
  lemma OldPairFades(s: Machine, store: Store, page: int, x: nat, y: nat)
    requires Inv(s) && 0 <= page < PAGES && s.nextFrame == |s.pageOrder|
    requires Search(s.tlb, page) == -1 && s.pageTable[page] == -1
    requires x < y < |s.tlb| && x != s.tlbIndex && y != s.tlbIndex && s.tlb[x] != EMPTY && s.tlb[x].page == s.tlb[y].page
    requires s.tlb[x].page != s.pageOrder[s.frameIndex]
    ensures var s' := Replace(s, store, page);
            var d := |s.pageOrder| - 2 - Age(s', s.tlb[x].frame);
            Dist(s', x) <= d || Dist(s', y) <= d
  {
    InsertionMovesDistances(s, Replace(s, store, page));
    ReplaceAges(s, store, page);
    assert s.tlb[x].frame != s.frameIndex;
  }

  /** The pair of the rewritten and the inserted entry. */
  lemma NewPairFades(s: Machine, store: Store, page: int, i: nat, x: nat, y: nat)
    requires Inv(s) && 0 <= page < PAGES && s.nextFrame == |s.pageOrder| && |s.tlb| < 2 * |s.pageOrder|
    requires Search(s.tlb, page) == -1 && s.pageTable[page] == -1
    requires i < |s.tlb| ==> s.tlb[i] == Entry(s.pageOrder[s.frameIndex], s.frameIndex)
    requires x < y < |s.tlb| && (x == i || x == s.tlbIndex) && (y == i || y == s.tlbIndex)
    ensures var s' := Replace(s, store, page);
            Dist(s', x) <= |s.pageOrder| - 2 - Age(s', s.frameIndex) || Dist(s', y) <= |s.pageOrder| - 2 - Age(s', s.frameIndex)
  {
    InsertionMovesDistances(s, Replace(s, store, page));
    ReplaceAges(s, store, page);
    RewrittenIsOldEnough(s, i);
  }

  /** The entry of the page about to be evicted is overwritten within as many insertions as there are frames. */
  lemma RewrittenIsOldEnough(s: Machine, i: nat)
    requires Inv(s) && s.nextFrame == |s.pageOrder| && |s.tlb| < 2 * |s.pageOrder|
    requires i < |s.tlb| ==> s.tlb[i] == Entry(s.pageOrder[s.frameIndex], s.frameIndex)
    ensures i < |s.tlb| ==> Dist(s, i) < |s.pageOrder|
  {
    if i < |s.tlb| {
      assert s.tlb[i] != EMPTY && Age(s, s.frameIndex) == |s.pageOrder| - 1;
    }
  }

  lemma ReplaceKeepsSlots(s: Machine, store: Store, page: int, g: nat)
    requires Inv(s) && 0 <= page < PAGES && s.nextFrame == |s.pageOrder| <= |s.tlb|
    requires Search(s.tlb, page) == -1 && s.pageTable[page] == -1
    requires g < s.nextFrame
    ensures var s' := Replace(s, store, page);
            0 <= Slot(s', g) < |s'.tlb| && s'.tlb[Slot(s', g)] == Entry(s'.pageOrder[g], g)
  {
    var s' := Replace(s, store, page);
    var i := ReplaceTlb(s, store, page);
    ReplaceAges(s, store, page);
    if g != s.frameIndex {
      LoadKeepsSlots(s, s', s.frameIndex, g);
      assert s.tlb[Slot(s, g)] == Entry(s.pageOrder[g], g);
    }
  }

  lemma ReplaceKeepsDistances(s: Machine, store: Store, page: int, x: nat)
    requires Inv(s) && 0 <= page < PAGES && s.nextFrame == |s.pageOrder| <= |s.tlb|
    requires Search(s.tlb, page) == -1 && s.pageTable[page] == -1
    requires x < |s.tlb| && Replace(s, store, page).tlb[x] != EMPTY
    ensures var s' := Replace(s, store, page); Dist(s', x) + Age(s', s'.tlb[x].frame) < |s.tlb|
  {
    var s' := Replace(s, store, page);
    var i := ReplaceTlb(s, store, page);
    InsertionMovesDistances(s, s');
    ReplaceAges(s, store, page);
    if x != i && x != s.tlbIndex {
      assert s.tlb[x] == s'.tlb[x] && s.tlb[x].frame != s.frameIndex;
    }
  }

  lemma ReplaceKeeps(s: Machine, store: Store, page: int)
    requires Inv(s) && 0 <= page < PAGES && s.nextFrame == |s.pageOrder| && |s.tlb| < 2 * |s.pageOrder|
    requires Search(s.tlb, page) == -1 && s.pageTable[page] == -1
    ensures Inv(Replace(s, store, page))
  {
    var s' := Replace(s, store, page);
    ReplaceKeepsCoherent(s, store, page);
    ReplaceKeepsDuplicatesFade(s, store, page);
    if |s.pageOrder| <= |s.tlb| {
      forall g | 0 <= g < s'.nextFrame
        ensures 0 <= Slot(s', g) < |s'.tlb| && s'.tlb[Slot(s', g)] == Entry(s'.pageOrder[g], g)
      {
        ReplaceKeepsSlots(s, store, page, g);
      }
      forall x | 0 <= x < |s.tlb| && s'.tlb[x] != EMPTY
        ensures Dist(s', x) + Age(s', s'.tlb[x].frame) < |s.tlb|
      {
        ReplaceKeepsDistances(s, store, page, x);
      }
    }
  }

  // ---------- with a frame for every page nothing is ever replaced ----------

  lemma FaultFindsFreeFrame(s: Machine, page: int)
    requires 0 <= page < PAGES && s.pageTable[page] == -1
    requires PAGES <= |s.pageOrder|
    ensures s.nextFrame < |s.pageOrder|
  {
    Sequences.DistinctBelow(s.pageOrder[..s.nextFrame] + [page], PAGES);
  }

  // ---------- whole accesses and whole traces ----------

  lemma FreePath(s: Machine, store: Store, page: int)
    requires Inv(s) && 0 <= page < PAGES
    requires Search(s.tlb, page) == -1 && s.pageTable[page] == -1 && s.nextFrame < |s.pageOrder|
    ensures Inv(Translate(s, store, page).0)
  {
    LoadFreeKeeps(s, store, page);
    assert Translate(s, store, page).0 == LoadFree(s, store, page);
  }

  lemma ReplacePath(s: Machine, store: Store, page: int)
    requires Inv(s) && 0 <= page < PAGES && |s.tlb| < 2 * |s.pageOrder|
    requires Search(s.tlb, page) == -1 && s.pageTable[page] == -1 && s.nextFrame == |s.pageOrder|
    ensures Inv(Translate(s, store, page).0)
  {
    ReplaceKeeps(s, store, page);
    assert Translate(s, store, page).0 == Replace(s, store, page);
  }

  lemma TranslateKeeps(s: Machine, store: Store, page: int)
    requires Inv(s) && 0 <= page < PAGES && GoodSizes(|s.tlb|, |s.pageOrder|)
    ensures Inv(Translate(s, store, page).0)
  {
    match PathOf(s, page)
    case TlbHit =>
    case TableHit =>
      TableHitKeeps(s, page);
      assert Translate(s, store, page).0 == TlbAdd(s, page, s.pageTable[page]);
    case FreeLoad =>
      FreePath(s, store, page);
    case Replacement =>
      if PAGES <= |s.pageOrder| {
        FaultFindsFreeFrame(s, page);
      }
      ReplacePath(s, store, page);
  }

  lemma TranslateReturnsTableFrame(s: Machine, store: Store, page: int)
    requires Inv(s) && 0 <= page < PAGES
    ensures Translate(s, store, page).1 == Translate(s, store, page).0.pageTable[page]
  {
  }

  lemma TranslateKeepsMemory(s: Machine, store: Store, page: int)
    requires MemoryHolds(s, store) && 0 <= page < PAGES
    ensures MemoryHolds(Translate(s, store, page).0, store)
  {
  }

  /** In a good state the byte returned is the byte the backing store has at the address. */
  lemma AccessIsRead(s: Machine, store: Store, number: int)
    requires Inv(s) && MemoryHolds(s, store)
    ensures var (s', out) := Access(s, store, number);
            && out.value == store[Logical(number)]
            && out.physical == s'.pageTable[Page(number)] * FRAME_SIZE + Offset(number)
  {
    TranslateReturnsTableFrame(s, store, Page(number));
    TranslateKeepsMemory(s, store, Page(number));
    var (s', frame) := Translate(s, store, Page(number));
    assert s'.pageOrder[frame] == Page(number);
  }

  /** Every value printed is the one in the backing store. */
  ghost predicate ReadsStore(outs: seq<Output>, store: Store, numbers: seq<int>) {
    |outs| == |numbers| && forall i :: 0 <= i < |outs| ==> outs[i].value == store[Logical(numbers[i])]
  }

  lemma {:induction false} TraceReadsStore(s: Machine, store: Store, numbers: seq<int>)
    requires Inv(s) && MemoryHolds(s, store) && GoodSizes(|s.tlb|, |s.pageOrder|)
    ensures var (s', outs) := Trace(s, store, numbers);
            Inv(s') && MemoryHolds(s', store) && ReadsStore(outs, store, numbers)
    decreases numbers
  {
    if numbers != [] {
      AccessIsRead(s, store, numbers[0]);
      TranslateKeeps(s, store, Page(numbers[0]));
      TranslateKeepsMemory(s, store, Page(numbers[0]));
      TraceReadsStore(Access(s, store, numbers[0]).0, store, numbers[1..]);
    }
  }

  lemma StartIsGood(tlbSize: nat, frames: nat, store: Store)
    requires 0 < tlbSize && 0 < frames
    ensures Inv(Start(tlbSize, frames)) && MemoryHolds(Start(tlbSize, frames), store)
  {
  }

  /** From the initial state, with good sizes, whatever the trace: each value printed is the store's. */
  lemma GoodSizesReadStore(tlbSize: nat, frames: nat, store: Store, numbers: seq<int>)
    requires 0 < tlbSize && 0 < frames
    ensures GoodSizes(tlbSize, frames) ==> ReadsStore(Trace(Start(tlbSize, frames), store, numbers).1, store, numbers)
  {
    if GoodSizes(tlbSize, frames) {
      StartIsGood(tlbSize, frames, store);
      TraceReadsStore(Start(tlbSize, frames), store, numbers);
    }
  }
}
