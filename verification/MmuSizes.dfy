/** For which sizes Assignment_4/solution/Assignment4.c is right on every trace: exactly when the TLB has
    fewer than twice as many entries as there are frames, or there is a frame for every page. For all other
    sizes a round trip over one page more than there are frames reads a stale TLB entry. */
module MmuSizes {
  import opened Ring
  import opened Paging
  import opened Mmu
  import opened MmuCoherence

  // ---------- the round trip ----------

  /** The page that evicts page i: the one page too many first, then page i - 1. */
  function Successor(i: nat, frames: nat): nat {
    if i == 0 then frames else i - 1
  }

  /** After loading pages 0..k-1 into free frames. */
  ghost predicate Filled(s: Machine, k: nat) {
    && k <= |s.pageOrder| && 2 * |s.pageOrder| <= |s.tlb|
    && s.nextFrame == s.tlbIndex == k && s.frameIndex == 0
    && (forall i :: 0 <= i < k ==> s.tlb[i] == Entry(i, i) && s.pageOrder[i] == i)
    && (forall x :: k <= x < |s.tlb| ==> s.tlb[x] == EMPTY)
  }

  /** The page in frame i after j evictions, and the TLB entry at x. */
  function WrapPage(i: nat, j: nat, frames: nat): nat {
    if i < j then Successor(i, frames) else i
  }

  function WrapEntry(x: nat, j: nat, frames: nat): Entry {
    if x < frames then Entry(WrapPage(x, j, frames), x)
    else if x < frames + j then Entry(Successor(x - frames, frames), x - frames)
    else EMPTY
  }

  /** The frames and the TLB after the first j evictions of the round trip. */
  ghost predicate Arranged(pageOrder: seq<int>, tlb: seq<Entry>, j: nat) {
    && j <= |pageOrder| && 2 * |pageOrder| <= |tlb|
    && (forall i :: 0 <= i < |pageOrder| ==> pageOrder[i] == WrapPage(i, j, |pageOrder|))
    && (forall x :: 0 <= x < |tlb| ==> tlb[x] == WrapEntry(x, j, |pageOrder|))
  }

  ghost predicate Wrapped(s: Machine, j: nat) {
    var frames := |s.pageOrder|;
    && Arranged(s.pageOrder, s.tlb, j)
    && s.nextFrame == frames
    && s.frameIndex == (if j < frames then j else 0)
    && s.tlbIndex == (if frames + j < |s.tlb| then frames + j else 0)
  }

  lemma FillStep(s: Machine, store: Store, k: nat) returns (s': Machine)
    requires Filled(s, k) && k < |s.pageOrder| < PAGES
    ensures s' == Translate(s, store, k).0
    ensures Filled(s', k + 1) && |s'.pageOrder| == |s.pageOrder|
  {
    assert FirstMatch(s.tlb, k) == |s.tlb|;
    assert s.pageTable[k] == -1;
    s' := LoadFree(s, store, k);
  }

  /** The page asked for next has no entry, and the page it evicts has its entry where it was loaded. */
  lemma WrapEntries(j: nat, frames: nat, x: nat)
    requires j < frames
    ensures WrapEntry(x, j, frames).page != Successor(j, frames)
    ensures x < j ==> WrapEntry(x, j, frames).page != j
    ensures WrapEntry(j, j, frames).page == j
  {
  }

  lemma WrapFault(s: Machine, store: Store, j: nat)
    requires Wrapped(s, j) && j < |s.pageOrder| < PAGES
    ensures FirstMatch(s.tlb, j) == j
    ensures PathOf(s, Successor(j, |s.pageOrder|)) == Replacement
  {
    var page, frames := Successor(j, |s.pageOrder|), |s.pageOrder|;
    forall x | 0 <= x < |s.tlb|
      ensures s.tlb[x].page != page && (x < j ==> s.tlb[x].page != j)
    {
      WrapEntries(j, frames, x);
    }
    WrapEntries(j, frames, j);
    assert FirstMatch(s.tlb, page) == |s.tlb|;
    assert forall f :: 0 <= f < frames ==> s.pageOrder[f] != page;
  }

  /** Repairing entry j and inserting frames + j leads from one arrangement to the next. */
  lemma ArrangedStep(pageOrder: seq<int>, tlb: seq<Entry>, j: nat)
    requires Arranged(pageOrder, tlb, j) && j < |pageOrder|
    ensures var page := Successor(j, |pageOrder|);
            var e := Entry(page, j);
            Arranged(pageOrder[j := page], tlb[j := e][|pageOrder| + j := e], j + 1)
  {
  }

  /** What the eviction changes. */
  lemma WrapReplace(s: Machine, store: Store, j: nat, page: nat)
    requires Wrapped(s, j) && j < |s.pageOrder| < PAGES && page == Successor(j, |s.pageOrder|)
    requires FirstMatch(s.tlb, j) == j && s.pageTable[page] == -1
    ensures var s', e := Replace(s, store, page), Entry(page, j);
            && s'.tlb == s.tlb[j := e][|s.pageOrder| + j := e] && s'.tlbIndex == Next(s.tlbIndex, |s.tlb|)
            && s'.pageOrder == s.pageOrder[j := page] && s'.frameIndex == Next(j, |s.pageOrder|)
            && s'.nextFrame == s.nextFrame
  {
  }

  lemma WrapStep(s: Machine, store: Store, j: nat, page: nat) returns (s': Machine)
    requires Wrapped(s, j) && j < |s.pageOrder| < PAGES && page == Successor(j, |s.pageOrder|)
    ensures s' == Translate(s, store, page).0
    ensures Wrapped(s', j + 1) && |s'.pageOrder| == |s.pageOrder|
  {
    WrapFault(s, store, j);
    WrapReplace(s, store, j, page);
    ArrangedStep(s.pageOrder, s.tlb, j);
    s' := Replace(s, store, page);
  }

  /** Page frames - 1 evicts page frames and takes its first TLB entry. */
  lemma LastEviction(s: Machine, store: Store, frames: nat) returns (s': Machine)
    requires Wrapped(s, frames) && |s.pageOrder| == frames < PAGES
    ensures s' == Translate(s, store, frames - 1).0
    ensures s'.tlb == s.tlb[0 := Entry(frames - 1, 0)][s.tlbIndex := Entry(frames - 1, 0)]
    ensures s'.memory[0] == PageBytes(store, frames - 1) && 0 < s'.nextFrame
  {
    assert FirstMatch(s.tlb, frames - 1) == |s.tlb|;
    assert s.pageTable[frames - 1] == -1;
    assert s.pageOrder[0] == frames && FirstMatch(s.tlb, frames) == 0;
    s' := Replace(s, store, frames - 1);
  }

  /** The last two accesses: page frames - 1 evicts page frames, whose second TLB entry stays. */
  lemma StaleHit(s: Machine, store: Store, frames: nat) returns (s': Machine)
    requires Wrapped(s, frames) && |s.pageOrder| == frames < PAGES
    ensures s' == Translate(s, store, frames - 1).0
    ensures Translate(s', store, frames) == (s', 0) && s'.memory[0] == PageBytes(store, frames - 1) && 0 < s'.nextFrame
  {
    s' := LastEviction(s, store, frames);
    assert s'.tlb[frames] == Entry(frames, 0);
    assert FirstMatch(s'.tlb, frames) == frames;
  }

  lemma PageStart(page: nat)
    requires page < PAGES
    ensures Logical(page * FRAME_SIZE) == page * FRAME_SIZE
    ensures Page(page * FRAME_SIZE) == page && Offset(page * FRAME_SIZE) == 0
  {
  }

  /** Some access of the trace returns another byte than the backing store's. */
  ghost predicate Misreads(s: Machine, store: Store, numbers: seq<int>)
    decreases numbers
  {
    && numbers != []
    && var (s', out) := Access(s, store, numbers[0]);
       out.value != store[Logical(numbers[0])] || Misreads(s', store, numbers[1..])
  }

  lemma {:induction false} MisreadsIsNotReadsStore(s: Machine, store: Store, numbers: seq<int>)
    requires Misreads(s, store, numbers)
    ensures !ReadsStore(Trace(s, store, numbers).1, store, numbers)
    decreases numbers
  {
    var (s', out) := Access(s, store, numbers[0]);
    var outs := Trace(s, store, numbers).1;
    if out.value == store[Logical(numbers[0])] {
      MisreadsIsNotReadsStore(s', store, numbers[1..]);
      assert outs[1..] == Trace(s', store, numbers[1..]).1;
      assert forall i :: 1 <= i < |outs| ==> outs[1..][i - 1] == outs[i] && numbers[1..][i - 1] == numbers[i];
    } else {
      assert outs[0] == out;
    }
  }

  /** The store tells the first byte of page frames - 1 from that of page frames. */
  ghost predicate Tells(store: Store, frames: nat) {
    0 < frames < PAGES && store[(frames - 1) * FRAME_SIZE] != store[frames * FRAME_SIZE]
  }

  /** A backing store whose page `marked` starts with a 1, all else 0. */
  function MarkedStore(marked: nat): Store
    requires marked < PAGES
  {
    seq(PAGES * FRAME_SIZE, i => if i == marked * FRAME_SIZE then 1 else 0)
  }

  /** A hit on a frame that holds another page. */
  lemma WrongFrameMisreads(s: Machine, store: Store, frames: nat) returns (numbers: seq<int>)
    requires Tells(store, frames) && 0 < s.nextFrame
    requires Translate(s, store, frames) == (s, 0) && s.memory[0] == PageBytes(store, frames - 1)
    ensures Misreads(s, store, numbers) && |numbers| == 1
  {
    numbers := [frames * FRAME_SIZE];
    PageStart(frames);
    assert Access(s, store, frames * FRAME_SIZE).1.value == PageBytes(store, frames - 1)[0];
  }

  /** A misread after one more access at the front. */
  lemma MisreadsLater(s: Machine, s': Machine, store: Store, page: nat, rest: seq<int>) returns (numbers: seq<int>)
    requires page < PAGES && s' == Translate(s, store, page).0 && Misreads(s', store, rest)
    ensures Misreads(s, store, numbers) && |numbers| == |rest| + 1
  {
    numbers := [page * FRAME_SIZE] + rest;
    PageStart(page);
    assert numbers[1..] == rest;
  }

  lemma StaleHitMisreads(s: Machine, store: Store, frames: nat) returns (s': Machine, numbers: seq<int>)
    requires Wrapped(s, frames) && |s.pageOrder| == frames && Tells(store, frames)
    ensures s' == Translate(s, store, frames - 1).0
    ensures Misreads(s', store, numbers) && |numbers| == 1
  {
    s' := StaleHit(s, store, frames);
    numbers := WrongFrameMisreads(s', store, frames);
  }

  lemma LastAccessesMisread(s: Machine, store: Store, frames: nat) returns (numbers: seq<int>)
    requires Wrapped(s, frames) && |s.pageOrder| == frames && Tells(store, frames)
    ensures Misreads(s, store, numbers) && |numbers| == 2
  {
    var s', last := StaleHitMisreads(s, store, frames);
    numbers := MisreadsLater(s, s', store, frames - 1, last);
  }

  /** From the state after j evictions: evict the pages loaded at the start that are left, evict the first
      newcomer, and ask for it again. */
  lemma {:induction false} WrapMisreads(s: Machine, store: Store, j: nat, frames: nat) returns (numbers: seq<int>)
    requires Wrapped(s, j) && |s.pageOrder| == frames && Tells(store, frames)
    ensures Misreads(s, store, numbers) && |numbers| == frames - j + 2
    decreases frames - j
  {
    if j == frames {
      numbers := LastAccessesMisread(s, store, frames);
    } else {
      var page := Successor(j, frames);
      var s' := WrapStep(s, store, j, page);
      var rest := WrapMisreads(s', store, j + 1, frames);
      numbers := MisreadsLater(s, s', store, page, rest);
    }
  }

  /** From the state with k pages loaded: fill the frames, then go round. */
  lemma {:induction false} FillMisreads(s: Machine, store: Store, k: nat, frames: nat) returns (numbers: seq<int>)
    requires Filled(s, k) && |s.pageOrder| == frames && Tells(store, frames)
    ensures Misreads(s, store, numbers) && |numbers| == 2 * frames - k + 2
    decreases frames - k
  {
    if k == frames {
      FilledIsWrapped(s, frames);
      numbers := WrapMisreads(s, store, 0, frames);
    } else {
      var s' := FillStep(s, store, k);
      var rest := FillMisreads(s', store, k + 1, frames);
      numbers := MisreadsLater(s, s', store, k, rest);
    }
  }

  lemma FilledIsWrapped(s: Machine, frames: nat)
    requires Filled(s, frames) && |s.pageOrder| == frames
    ensures Wrapped(s, 0)
  {
  }

  /** For bad sizes 2 * frames + 2 accesses are enough to read a wrong byte. */
  lemma BadSizesMisread(tlbSize: nat, frames: nat) returns (store: Store, numbers: seq<int>)
    requires 0 < frames && 0 < tlbSize && !GoodSizes(tlbSize, frames)
    ensures |numbers| == 2 * frames + 2
    ensures !ReadsStore(Trace(Start(tlbSize, frames), store, numbers).1, store, numbers)
  {
    store := MarkedStore(frames);
    numbers := FillMisreads(Start(tlbSize, frames), store, 0, frames);
    MisreadsIsNotReadsStore(Start(tlbSize, frames), store, numbers);
  }

  /** The program returns the backing store's bytes on every trace if and only if the sizes are good. */
  lemma RightExactlyForGoodSizes(tlbSize: nat, frames: nat)
    requires 0 < tlbSize && 0 < frames
    ensures GoodSizes(tlbSize, frames)
       <==> forall store: Store, numbers: seq<int> ::
              ReadsStore(Trace(Start(tlbSize, frames), store, numbers).1, store, numbers)
  {
    if GoodSizes(tlbSize, frames) {
      forall store: Store, numbers: seq<int>
        ensures ReadsStore(Trace(Start(tlbSize, frames), store, numbers).1, store, numbers)
      {
        GoodSizesReadStore(tlbSize, frames, store, numbers);
      }
    } else {
      var store, numbers := BadSizesMisread(tlbSize, frames);
    }
  }

  /** With the sizes of the source, 16 and 128, every trace reads the 65536 bytes of the backing store. */
  lemma SourceSizesAreRight(store: Store, numbers: seq<int>)
    ensures |store| == 65536 && ReadsStore(Trace(Start(16, 128), store, numbers).1, store, numbers)
  {
    GoodSizesReadStore(16, 128, store, numbers);
  }
}
