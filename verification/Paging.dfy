/** What the two memory managers of Assignment 4 share: page and byte sizes, the backing store,
    TLB entries and the linear TLB search. */
module Paging {

  const PAGES := 256
  const FRAME_SIZE := 256

  /** A `signed char`. */
  newtype Byte = x: int | -128 <= x < 128

  lemma SignedChars(b: Byte, x: int)
    ensures -128 <= b as int <= 127
    ensures -128 <= x <= 127 ==> (x as Byte) as int == x
  {
  }

  type Store = s: seq<Byte> | |s| == PAGES * FRAME_SIZE witness seq(PAGES * FRAME_SIZE, i => 0)

  datatype Entry = Entry(page: int, frame: int)

  const EMPTY := Entry(-1, -1)

  /** One line of output: virtual address, physical address, value. */
  datatype Output = Output(logical: nat, physical: int, value: Byte)

  datatype Counters = Counters(totalAddresses: nat, tlbHits: nat, pageFaults: nat)

  /** A run up to some point: the state reached, the counters, and what has been printed. */
  datatype Progress<+S, +O> = Progress(state: S, counters: Counters, lines: seq<O>)

  /** The main loop of either program, as a function: `advance` is its body. */
  function Continue<S, O>(advance: (Progress<S, O>, int) -> Progress<S, O>, p: Progress<S, O>, numbers: seq<int>): Progress<S, O>
    decreases numbers
  {
    if numbers == [] then p else Continue(advance, advance(p, numbers[0]), numbers[1..])
  }

  lemma ContinueFrom<S, O>(advance: (Progress<S, O>, int) -> Progress<S, O>, p: Progress<S, O>, numbers: seq<int>, i: nat)
    requires i < |numbers|
    ensures Continue(advance, p, numbers[i..]) == Continue(advance, advance(p, numbers[i]), numbers[i + 1..])
  {
    assert numbers[i..][0] == numbers[i] && numbers[i..][1..] == numbers[i + 1..];
  }

  /** The position of the first entry for the page, or |tlb|. */
  function FirstMatch(tlb: seq<Entry>, page: int): (r: nat)
    ensures r <= |tlb|
    ensures r < |tlb| ==> tlb[r].page == page
    ensures forall x :: 0 <= x < r ==> tlb[x].page != page
  {
    if tlb == [] then 0
    else if tlb[0].page == page then 0
    else
      var k := FirstMatch(tlb[1..], page);
      assert forall x :: 1 <= x < k + 1 ==> tlb[x] == tlb[1..][x - 1];
      k + 1
  }

  /** The frame a TLB search returns, -1 for a miss. */
  function Search(tlb: seq<Entry>, page: int): int {
    var i := FirstMatch(tlb, page);
    if i < |tlb| then tlb[i].frame else -1
  }

  function PageBytes(store: Store, page: int): (r: seq<Byte>)
    requires 0 <= page < PAGES
    ensures |r| == FRAME_SIZE
    ensures forall o :: 0 <= o < FRAME_SIZE ==> r[o] == store[page * FRAME_SIZE + o]
  {
    store[page * FRAME_SIZE..(page + 1) * FRAME_SIZE]
  }
}

/** The arrays both programs work on: the TLB they search and the physical memory they copy pages into. */
module PagingBuffers {
  import opened Paging

  /** The rows of physical memory. */
  ghost function Rows(memory: array2<Byte>): seq<seq<Byte>>
    reads memory
  {
    seq(memory.Length0, f requires 0 <= f < memory.Length0 reads memory =>
      seq(memory.Length1, o requires 0 <= o < memory.Length1 reads memory => memory[f, o]))
  }

  lemma RowsAt(memory: array2<Byte>, f: nat, o: nat)
    requires f < memory.Length0 && o < memory.Length1
    ensures Rows(memory)[f][o] == memory[f, o]
  {
  }

  method NewMemory(frames: nat) returns (memory: array2<Byte>)
    ensures fresh(memory) && memory.Length0 == frames && memory.Length1 == FRAME_SIZE
    ensures Rows(memory) == seq(frames, f => seq(FRAME_SIZE, o => 0))
  {
    memory := new Byte[frames, FRAME_SIZE]((f, o) => 0);
    forall f | 0 <= f < frames
      ensures Rows(memory)[f] == seq(FRAME_SIZE, o => 0)
    {
    }
  }

  method SearchTlb(tlb: array<Entry>, page: int) returns (frame: int)
    ensures frame == Search(tlb[..], page)
  {
    for i := 0 to tlb.Length
      invariant forall x :: 0 <= x < i ==> tlb[x].page != page
    {
      if tlb[i].page == page {
        assert FirstMatch(tlb[..], page) == i;
        return tlb[i].frame;
      }
    }
    return -1;
  }

  /** The 256-byte memcpy of a page into a frame. */
  method CopyPage(store: Store, page: nat, memory: array2<Byte>, frame: nat)
    requires page < PAGES && frame < memory.Length0 && memory.Length1 == FRAME_SIZE
    modifies memory
    ensures Rows(memory) == old(Rows(memory))[frame := PageBytes(store, page)]
  {
    ghost var before := Rows(memory);
    for o := 0 to FRAME_SIZE
      invariant forall f, k :: 0 <= f < memory.Length0 && 0 <= k < FRAME_SIZE ==>
                  memory[f, k] == if f == frame && k < o then store[page * FRAME_SIZE + k] else before[f][k]
    {
      memory[frame, o] := store[page * FRAME_SIZE + o];
    }
    assert Rows(memory)[frame] == PageBytes(store, page);
    assert forall f :: 0 <= f < memory.Length0 && f != frame ==> Rows(memory)[f] == before[f];
  }
}
