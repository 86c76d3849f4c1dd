/** Assignment_4/solution2/assignment4.c reduced to its bookkeeping: the TLB is a FIFO cache of all pages
    referenced, the frames are a FIFO cache of the pages that missed the TLB, and nothing else connects
    the two. Module Mmu2Fifo proves the reduction. A page in the first cache but not in the second is
    translated to a frame that holds another page. */
module TwoQueues {
  import opened Sequences
  import opened Fifo
  import opened Paging

  datatype Queues = Queues(tlb: seq<int>, frames: seq<int>)

  const EMPTY_QUEUES := Queues([], [])

  function Step(q: Queues, tlbSize: nat, frames: nat, page: int): Queues
    requires 0 < tlbSize && 0 < frames
  {
    Queues(Touch(q.tlb, tlbSize, page), if page in q.tlb then q.frames else Touch(q.frames, frames, page))
  }

  predicate Stale(q: Queues, page: int) {
    page in q.tlb && page !in q.frames
  }

  predicate NeverStale(q: Queues, tlbSize: nat, frames: nat, pages: seq<int>)
    requires 0 < tlbSize && 0 < frames
    decreases pages
  {
    pages == [] ||
    (!Stale(q, pages[0]) && NeverStale(Step(q, tlbSize, frames, pages[0]), tlbSize, frames, pages[1..]))
  }

  ghost predicate InRange(pages: seq<int>) {
    forall i :: 0 <= i < |pages| ==> 0 <= pages[i] < PAGES
  }

  // ---------- sizes for which no page is ever stale ----------

  predicate GoodSizes(tlbSize: nat, frames: nat) {
    tlbSize == 1 || tlbSize == frames || PAGES <= frames
  }

  /** Everything in the TLB is in memory, and stays so. */
  ghost predicate Inclusive(q: Queues, tlbSize: nat, frames: nat) {
    && (forall p :: p in q.tlb ==> p in q.frames)
    && |q.tlb| <= tlbSize
    && (tlbSize == frames ==> q.tlb == q.frames)
    && (PAGES <= frames ==> Distinct(q.frames) && InRange(q.frames))
  }

  lemma StepStaysInclusive(q: Queues, tlbSize: nat, frames: nat, page: int)
    requires 0 < tlbSize && 0 < frames && GoodSizes(tlbSize, frames)
    requires Inclusive(q, tlbSize, frames) && 0 <= page < PAGES
    ensures Inclusive(Step(q, tlbSize, frames, page), tlbSize, frames)
  {
    if PAGES <= frames && page !in q.tlb && page !in q.frames {
      DistinctBelow(q.frames + [page], PAGES);
    }
  }

  lemma {:induction false} GoodSizesNeverStale(q: Queues, tlbSize: nat, frames: nat, pages: seq<int>)
    requires 0 < tlbSize && 0 < frames && GoodSizes(tlbSize, frames)
    requires Inclusive(q, tlbSize, frames) && InRange(pages)
    ensures NeverStale(q, tlbSize, frames, pages)
    decreases pages
  {
    if pages != [] {
      StepStaysInclusive(q, tlbSize, frames, pages[0]);
      GoodSizesNeverStale(Step(q, tlbSize, frames, pages[0]), tlbSize, frames, pages[1..]);
    }
  }

  // ---------- for all other sizes some page is ----------

  function Range(from: int, to: int): (r: seq<int>)
    requires from <= to
    ensures |r| == to - from && forall i :: 0 <= i < |r| ==> r[i] == from + i
  {
    seq(to - from, i => from + i)
  }

  lemma RangeMembers(from: int, to: int, x: int)
    requires from <= to
    ensures x in Range(from, to) <==> from <= x < to
  {
    if from <= x < to {
      assert Range(from, to)[x - from] == x;
    }
  }

  lemma NeverStaleRest(q: Queues, tlbSize: nat, frames: nat, page: int, rest: seq<int>)
    requires 0 < tlbSize && 0 < frames && NeverStale(q, tlbSize, frames, [page] + rest)
    ensures !Stale(q, page) && NeverStale(Step(q, tlbSize, frames, page), tlbSize, frames, rest)
  {
  }

  /** After referencing pages 0..k-1 once each. */
  function Filled(k: nat, tlbSize: nat): Queues {
    Queues(Range(if k < tlbSize then 0 else k - tlbSize, k), Range(0, k))
  }

  lemma FillStep(k: nat, tlbSize: nat, frames: nat)
    requires 0 < tlbSize && k < frames
    ensures Step(Filled(k, tlbSize), tlbSize, frames, k) == Filled(k + 1, tlbSize)
  {
  }

  lemma RangeLast(k: nat, rest: seq<int>)
    ensures Range(0, k + 1) + rest == Range(0, k) + ([k] + rest)
  {
    assert Range(0, k + 1) == Range(0, k) + [k];
  }

  /** What is left of a never stale trace after its first k pages is never stale. */
  lemma {:induction false} FillKeepsNeverStale(k: nat, tlbSize: nat, frames: nat, rest: seq<int>)
    requires 0 < tlbSize && k <= frames && 0 < frames
    requires NeverStale(EMPTY_QUEUES, tlbSize, frames, Range(0, k) + rest)
    ensures NeverStale(Filled(k, tlbSize), tlbSize, frames, rest)
  {
    if k == 0 {
      assert Range(0, 0) + rest == rest && Filled(0, tlbSize) == EMPTY_QUEUES;
    } else {
      RangeLast(k - 1, rest);
      FillKeepsNeverStale(k - 1, tlbSize, frames, [k - 1] + rest);
      FillStep(k - 1, tlbSize, frames);
      NeverStaleRest(Filled(k - 1, tlbSize), tlbSize, frames, k - 1, rest);
    }
  }

  /** A trace that brings a stale page, for sizes that are not good. */
  function BadTrace(tlbSize: nat, frames: nat): seq<int> {
    Range(0, frames) + if frames < tlbSize then [frames] + [0] else [0] + ([frames] + [0])
  }

  lemma LargeTlbGoesStale(tlbSize: nat, frames: nat)
    requires 0 < frames < tlbSize
    ensures !NeverStale(Filled(frames, tlbSize), tlbSize, frames, [frames] + [0])
  {
    var q := Filled(frames, tlbSize);
    RangeMembers(0, frames, frames);
    var q' := Step(q, tlbSize, frames, frames);
    assert q'.tlb[0] == 0 && q'.frames == q.frames[1..] + [frames];
    assert ([frames] + [0])[1..] == [0];
  }

  /** Page 0 was referenced again after all others, so it is the last to leave the TLB but the first
      to leave memory. */
  lemma SmallTlbRefresh(tlbSize: nat, frames: nat)
    requires 1 < tlbSize < frames
    ensures var q := Filled(frames, tlbSize);
            Step(q, tlbSize, frames, 0) == Queues(q.tlb[1..] + [0], q.frames)
  {
    RangeMembers(frames - tlbSize, frames, 0);
    RangeMembers(0, frames, 0);
  }

  lemma SmallTlbGoesStale(tlbSize: nat, frames: nat)
    requires 1 < tlbSize < frames
    ensures !NeverStale(Filled(frames, tlbSize), tlbSize, frames, [0] + ([frames] + [0]))
  {
    var q := Filled(frames, tlbSize);
    SmallTlbRefresh(tlbSize, frames);
    var q1 := Queues(q.tlb[1..] + [0], q.frames);
    RangeMembers(0, frames, frames);
    var q2 := Step(q1, tlbSize, frames, frames);
    assert q2.tlb == q1.tlb[1..] + [frames] && q2.tlb[tlbSize - 2] == 0;
    assert q2.frames == q.frames[1..] + [frames];
    assert Stale(q2, 0);
    assert ([frames] + [0])[1..] == [0];
    assert !NeverStale(q1, tlbSize, frames, [frames] + [0]);
    assert ([0] + ([frames] + [0]))[1..] == [frames] + [0];
  }

  lemma BadTraceIsStale(tlbSize: nat, frames: nat)
    requires 0 < tlbSize && 0 < frames && !GoodSizes(tlbSize, frames)
    ensures InRange(BadTrace(tlbSize, frames)) && !NeverStale(EMPTY_QUEUES, tlbSize, frames, BadTrace(tlbSize, frames))
  {
    if NeverStale(EMPTY_QUEUES, tlbSize, frames, BadTrace(tlbSize, frames)) {
      if frames < tlbSize {
        FillKeepsNeverStale(frames, tlbSize, frames, [frames] + [0]);
        LargeTlbGoesStale(tlbSize, frames);
      } else {
        FillKeepsNeverStale(frames, tlbSize, frames, [0] + ([frames] + [0]));
        SmallTlbGoesStale(tlbSize, frames);
      }
      assert false;
    }
  }
}
