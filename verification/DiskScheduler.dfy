/** Assignment_5/assignment5.c, the sweeping schedulers as programs: fixed buffers for the two sides of the
    head, a loop that fills them, and sweeps that move the head and add up its way. */
module DiskScheduler {
  import opened DiskPath
  import opened DiskOrder
  import opened DiskShape
  import DiskDetermined
  import DiskSweep

  const MAX := 1000

  /** Sorts the first n places, as qsort does. */
  method SortPrefix(buffer: array<int>, n: nat)
    requires n <= buffer.Length
    modifies buffer
    ensures buffer[..n] == Sort(old(buffer[..n]))
  {
    ghost var before := buffer[..n];
    var sorted := Sort(buffer[..n]);
    for i := 0 to n
      invariant buffer[..i] == sorted[..i]
    {
      buffer[i] := sorted[i];
    }
  }

  /** buffer[n++] = track */
  method Push(buffer: array<int>, n: nat, track: int) returns (n': nat)
    requires n < buffer.Length
    modifies buffer
    ensures n' == n + 1 && buffer[..n'] == old(buffer[..n]) + [track]
  {
    buffer[n] := track;
    n' := n + 1;
  }

  /** Puts the i-th request at the end of the buffer if it is on its side. */
  method PutOnSide(side: Side, head: int, buffer: array<int>, n: nat, track: int,
                   ghost boundary: seq<int>, ghost all: seq<int>, ghost i: nat)
    returns (n': nat)
    requires i < |all| && track == all[i] && |boundary| + |Select(side, head, all)| <= buffer.Length
    requires n <= buffer.Length && buffer[..n] == boundary + Select(side, head, all[..i])
    modifies buffer
    ensures n' <= buffer.Length && buffer[..n'] == boundary + Select(side, head, all[..i + 1])
  {
    SelectNext(side, head, all, i);
    SelectPrefix(side, head, all, i + 1);
    n' := n;
    if On(side, head, track) {
      n' := Push(buffer, n, track);
    }
  }

  /** Puts each request below the head at the end of `left` and each one on `side` at the end of `right`; `all` is
      what the request array holds. */
  method Distribute(requests: array<int>, head: int, side: Side, left: array<int>, right: array<int>, l0: nat, r0: nat,
                    ghost all: seq<int>)
    returns (l: nat, r: nat)
    requires left != right && requests != left && requests != right && requests[..] == all
    requires l0 + |Select(Below, head, all)| <= left.Length && r0 + |Select(side, head, all)| <= right.Length
    modifies left, right
    ensures l <= left.Length && left[..l] == old(left[..l0]) + Select(Below, head, all)
    ensures r <= right.Length && right[..r] == old(right[..r0]) + Select(side, head, all)
  {
    ghost var left0, right0 := left[..l0], right[..r0];
    l, r := l0, r0;
    for i := 0 to requests.Length
      invariant requests[..] == all && l <= left.Length && r <= right.Length
      invariant left[..l] == left0 + Select(Below, head, all[..i])
      invariant right[..r] == right0 + Select(side, head, all[..i])
    {
      l := PutOnSide(Below, head, left, l, requests[i], left0, all, i);
      r := PutOnSide(side, head, right, r, requests[i], right0, all, i);
    }
    assert all[..requests.Length] == all;
  }

  /** Serves the first n places in ascending order. */
  method SweepUp(buffer: array<int>, n: nat, head: int, total: nat, served: seq<int>)
    returns (head': int, total': nat, served': seq<int>)
    requires n <= buffer.Length
    ensures served' == served + buffer[..n]
    ensures head' == Final(head, buffer[..n]) && total' == total + PathLength(head, buffer[..n])
  {
    head', total', served' := head, total, served;
    for i := 0 to n
      invariant served' == served + buffer[..i]
      invariant head' == Final(head, buffer[..i]) && total' == total + PathLength(head, buffer[..i])
    {
      PathExtend(head, buffer[..i], buffer[i]);
      assert buffer[..i + 1] == buffer[..i] + [buffer[i]];
      served' := served' + [buffer[i]];
      total' := total' + Distance(head', buffer[i]);
      head' := buffer[i];
    }
  }

  /** Serves the first n places in descending order. */
  method SweepDown(buffer: array<int>, n: nat, head: int, total: nat, served: seq<int>)
    returns (head': int, total': nat, served': seq<int>)
    requires n <= buffer.Length
    ensures served' == served + Reverse(buffer[..n])
    ensures head' == Final(head, Reverse(buffer[..n])) && total' == total + PathLength(head, Reverse(buffer[..n]))
  {
    head', total', served' := head, total, served;
    for i := n downto 0
      invariant served' == served + Reverse(buffer[i..n])
      invariant head' == Final(head, Reverse(buffer[i..n])) && total' == total + PathLength(head, Reverse(buffer[i..n]))
    {
      PathExtend(head, Reverse(buffer[i + 1..n]), buffer[i]);
      assert buffer[i..n] == [buffer[i]] + buffer[i + 1..n];
      assert Reverse(buffer[i..n]) == Reverse(buffer[i + 1..n]) + [buffer[i]];
      served' := served' + [buffer[i]];
      total' := total' + Distance(head', buffer[i]);
      head' := buffer[i];
    }
    assert buffer[0..n] == buffer[..n];
  }

  /** Distributes and sorts: the two sides of the head, each behind the boundary it started with. */
  method PrepareSides(requests: array<int>, head: int, side: Side, left: array<int>, right: array<int>, l0: nat, r0: nat,
                      ghost all: seq<int>)
    returns (l: nat, r: nat)
    requires left != right && requests != left && requests != right && requests[..] == all
    requires l0 + |Select(Below, head, all)| <= left.Length && r0 + |Select(side, head, all)| <= right.Length
    modifies left, right
    ensures requests[..] == all
    ensures l <= left.Length && left[..l] == SortedSide(old(left[..l0]), Below, head, all)
    ensures r <= right.Length && right[..r] == SortedSide(old(right[..r0]), side, head, all)
  {
    l, r := Distribute(requests, head, side, left, right, l0, r0, all);
    SortPrefix(left, l);
    SortPrefix(right, r);
  }

  // ---------- the two sweeps of each scheduler ----------

  method DownThenUp(left: array<int>, l: nat, right: array<int>, r: nat, head: int) returns (served: seq<int>, total: nat)
    requires l <= left.Length && r <= right.Length
    ensures served == Reverse(left[..l]) + right[..r] && total == PathLength(head, served)
  {
    PathAppend(head, Reverse(left[..l]), right[..r]);
    var at;
    at, total, served := SweepDown(left, l, head, 0, []);
    at, total, served := SweepUp(right, r, at, total, served);
  }

  method UpThenDown(left: array<int>, l: nat, right: array<int>, r: nat, head: int) returns (served: seq<int>, total: nat)
    requires l <= left.Length && r <= right.Length
    ensures served == right[..r] + Reverse(left[..l]) && total == PathLength(head, served)
  {
    PathAppend(head, right[..r], Reverse(left[..l]));
    var at;
    at, total, served := SweepUp(right, r, head, 0, []);
    at, total, served := SweepDown(left, l, at, total, served);
  }

  /** A jump to the first track to come costs what serving it would; serving it afterwards costs nothing. */
  lemma JumpFirst(head: int, tracks: seq<int>)
    requires tracks != []
    ensures Distance(head, tracks[0]) + PathLength(tracks[0], tracks) == PathLength(head, tracks)
    ensures Final(tracks[0], tracks) == Final(head, tracks)
  {
  }

  method UpThenUp(left: array<int>, l: nat, right: array<int>, r: nat, head: int) returns (served: seq<int>, total: nat)
    requires l <= left.Length && r <= right.Length
    ensures served == right[..r] + left[..l] && total == PathLength(head, served)
  {
    PathAppend(head, right[..r], left[..l]);
    var at;
    at, total, served := SweepUp(right, r, head, 0, []);
    if l > 0 {
      JumpFirst(at, left[..l]);
      total := total + Distance(at, left[0]);
      at := left[0];
      at, total, served := SweepUp(left, l, at, total, served);
    }
  }

  method DownThenDown(left: array<int>, l: nat, right: array<int>, r: nat, head: int) returns (served: seq<int>, total: nat)
    requires l <= left.Length && r <= right.Length
    ensures served == Reverse(left[..l]) + Reverse(right[..r]) && total == PathLength(head, served)
  {
    PathAppend(head, Reverse(left[..l]), Reverse(right[..r]));
    var at;
    at, total, served := SweepDown(left, l, head, 0, []);
    if r > 0 {
      ReverseFirst(right[..r]);
      JumpFirst(at, Reverse(right[..r]));
      total := total + Distance(at, right[r - 1]);
      at := right[r - 1];
      at, total, served := SweepDown(right, r, at, total, served);
    }
  }

  /** Up to the end of the disk, a jump back to track 0, and up again. */
  method UpAround(left: array<int>, l: nat, right: array<int>, r: nat, head: int, diskSize: int)
    returns (served: seq<int>, total: nat)
    requires l <= left.Length && r <= right.Length
    ensures served == right[..r] + left[..l]
    ensures total == PathLength(head, right[..r]) + Distance(diskSize - 1, 0) + PathLength(0, left[..l])
  {
    var at;
    at, total, served := SweepUp(right, r, head, 0, []);
    total := total + Distance(diskSize - 1, 0);
    at := 0;
    at, total, served := SweepUp(left, l, at, total, served);
  }

  /** Down to track 0, a jump to the end of the disk, and down again. */
  method DownAround(left: array<int>, l: nat, right: array<int>, r: nat, head: int, diskSize: int)
    returns (served: seq<int>, total: nat)
    requires l <= left.Length && r <= right.Length
    ensures served == Reverse(left[..l]) + Reverse(right[..r])
    ensures total == PathLength(head, Reverse(left[..l])) + Distance(diskSize - 1, 0) + PathLength(diskSize - 1, Reverse(right[..r]))
  {
    var at;
    at, total, served := SweepDown(left, l, head, 0, []);
    total := total + Distance(diskSize - 1, 0);
    at := diskSize - 1;
    at, total, served := SweepDown(right, r, at, total, served);
  }

  lemma {:induction false} ReverseFirst(s: seq<int>)
    requires s != []
    ensures Reverse(s) != [] && Reverse(s)[0] == s[|s| - 1]
  {
    if |s| > 1 {
      ReverseFirst(s[1..]);
    }
  }

  /** Left first, or right first for any other direction. */
  method BothWays(direction: Direction, left: array<int>, l: nat, right: array<int>, r: nat, head: int)
    returns (served: seq<int>, total: nat)
    requires l <= left.Length && r <= right.Length
    ensures served == if direction == Left then Reverse(left[..l]) + right[..r] else right[..r] + Reverse(left[..l])
    ensures total == PathLength(head, served)
  {
    if direction == Left {
      served, total := DownThenUp(left, l, right, r, head);
    } else {
      served, total := UpThenDown(left, l, right, r, head);
    }
  }

  // ---------- the schedulers ----------
  // The buffers for the two sides have room for MAX tracks each; so has the one for the tracks served, which
  // C-SCAN does not use.

  method Look(requests: array<int>, head: int, direction: Direction) returns (served: seq<int>, total: nat)
    requires requests.Length <= 1000
    ensures served == LookOrder(head, requests[..], direction) && total == PathLength(head, served)
    ensures multiset(served) == multiset(requests[..]) && LookShape(served, head, direction)
  {
    ghost var all := requests[..];
    var left, right := new int[MAX], new int[MAX];
    assert left[..0] == [] && right[..0] == [];
    var l, r := PrepareSides(requests, head, From, left, right, 0, 0, all);
    served, total := BothWays(direction, left, l, right, r, head);
    DiskDetermined.LookOutcome(head, requests[..], direction);
  }

  /** The boundary goes into the empty buffer of the side the head moves to first. */
  method PushBoundary(first: bool, buffer: array<int>, track: int) returns (n: nat)
    requires 0 < buffer.Length
    modifies buffer
    ensures n <= buffer.Length && buffer[..n] == if first then [track] else []
  {
    n := 0;
    if first {
      n := Push(buffer, n, track);
    }
  }

  /** The two runs of Scan and the way between them. */
  method ScanSweeps(requests: array<int>, head: int, direction: Direction, diskSize: int) returns (served: seq<int>, total: nat)
    requires if direction == Other then requests.Length <= 1000 else requests.Length < 1000
    ensures served == ScanOrder(head, requests[..], direction, diskSize) && total == PathLength(head, served)
  {
    ghost var all := requests[..];
    var left, right := new int[MAX], new int[MAX];
    var l := PushBoundary(direction == Left, left, 0);
    var r := PushBoundary(direction == Right, right, diskSize - 1);
    l, r := PrepareSides(requests, head, From, left, right, l, r, all);
    served, total := BothWays(direction, left, l, right, r, head);
  }

  method Scan(requests: array<int>, head: int, direction: Direction, diskSize: int) returns (served: seq<int>, total: nat)
    requires if direction == Other then requests.Length <= 1000 else requests.Length < 1000
    ensures served == ScanOrder(head, requests[..], direction, diskSize) && total == PathLength(head, served)
    ensures multiset(served) == multiset(requests[..]) + ScanBoundary(direction, diskSize)
    ensures ScanShape(served, head, direction, diskSize)
  {
    served, total := ScanSweeps(requests, head, direction, diskSize);
    DiskDetermined.ScanOutcome(head, requests[..], direction, diskSize);
  }

  method CLook(requests: array<int>, head: int, direction: Direction) returns (served: seq<int>, total: nat)
    requires |Select(Below, head, requests[..])| <= 1000 && |Select(Above, head, requests[..])| <= 1000
    requires direction != Other ==> |Select(Below, head, requests[..])| + |Select(Above, head, requests[..])| <= 1000
    ensures served == CLookOrder(head, requests[..], direction) && total == PathLength(head, served)
    ensures direction != Other ==> multiset(served) == multiset(requests[..])[head := 0]
    ensures CLookShape(served, head, direction)
  {
    ghost var all := requests[..];
    var left, right := new int[MAX], new int[MAX];
    assert left[..0] == [] && right[..0] == [];
    var l, r := PrepareSides(requests, head, Above, left, right, 0, 0, all);
    if direction == Right {
      served, total := UpThenUp(left, l, right, r, head);
    } else if direction == Left {
      served, total := DownThenDown(left, l, right, r, head);
    } else {
      served, total := [], 0;
    }
    DiskDetermined.CLookOutcome(head, requests[..], direction);
  }

  /** The two runs of CScan and the way between them. */
  method CScanSweeps(requests: array<int>, head: int, diskSize: int, direction: Direction) returns (served: seq<int>, total: nat)
    requires |Select(Below, head, requests[..])| < 1000 && |Select(Above, head, requests[..])| < 1000
    ensures served == CScanOrder(head, requests[..], direction, diskSize)
    ensures total == DiskSweep.CScanTotal(head, requests[..], direction, diskSize)
  {
    ghost var all := requests[..];
    var left, right := new int[MAX], new int[MAX];
    left[0], right[0] := 0, diskSize - 1;
    assert left[..1] == [0] && right[..1] == [diskSize - 1];
    var l, r := PrepareSides(requests, head, Above, left, right, 1, 1, all);
    if direction == Right {
      served, total := UpAround(left, l, right, r, head, diskSize);
    } else if direction == Left {
      served, total := DownAround(left, l, right, r, head, diskSize);
    } else {
      served, total := [], 0;
    }
  }

  method CScan(requests: array<int>, head: int, diskSize: int, direction: Direction) returns (served: seq<int>, total: nat)
    requires |Select(Below, head, requests[..])| < 1000 && |Select(Above, head, requests[..])| < 1000
    ensures served == CScanOrder(head, requests[..], direction, diskSize)
    ensures total == DiskSweep.CScanTotal(head, requests[..], direction, diskSize)
    ensures direction != Other ==> multiset(served) == multiset(requests[..])[head := 0] + multiset{0, diskSize - 1}
    ensures CScanShape(served, head, direction, diskSize)
  {
    served, total := CScanSweeps(requests, head, diskSize, direction);
    DiskDetermined.CScanOutcome(head, requests[..], direction, diskSize);
  }
}
