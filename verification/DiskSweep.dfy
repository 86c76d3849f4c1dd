/** Assignment_5/assignment5.c, SCAN, C-SCAN, LOOK and C-LOOK: closed forms of the totals they print, which
    of them is never worse, and LOOK's better direction against every possible order. */
module DiskSweep {
  import opened DiskPath
  import opened DiskOrder

  // ---------- a sweep over sorted tracks telescopes ----------

  lemma {:induction false} SweepUpLength(head: int, s: seq<int>)
    requires Sorted(s) && s != []
    ensures PathLength(head, s) == Distance(head, s[0]) + (s[|s| - 1] - s[0])
    decreases s
  {
    if |s| > 1 {
      SweepUpLength(s[0], s[1..]);
    }
  }

  lemma {:induction false} SweepDownLength(head: int, s: seq<int>)
    requires Sorted(s) && s != []
    ensures PathLength(head, Reverse(s)) == Distance(head, s[|s| - 1]) + (s[|s| - 1] - s[0])
    ensures Final(head, Reverse(s)) == s[0]
    decreases s
  {
    var init, last := s[..|s| - 1], s[|s| - 1];
    assert s == init + [last];
    ReverseAppend(init, last);
    assert ([last] + Reverse(init))[1..] == Reverse(init);
    if init != [] {
      SweepDownLength(last, init);
    }
  }

  /** Down through the tracks on the left, then up through those on the right. */
  lemma DownThenUp(head: int, left: seq<int>, right: seq<int>)
    requires Sorted(left) && Sorted(right)
    requires (left != [] ==> left[|left| - 1] <= head) && (right != [] ==> head <= right[0])
    ensures var low := if left != [] then left[0] else head;
            PathLength(head, Reverse(left) + right) == (head - low) + if right != [] then right[|right| - 1] - low else 0
  {
    PathAppend(head, Reverse(left), right);
    if left != [] {
      SweepDownLength(head, left);
    }
    if right != [] {
      SweepUpLength(Final(head, Reverse(left)), right);
    }
  }

  /** Up through the tracks on the right, then down through those on the left. */
  lemma UpThenDown(head: int, left: seq<int>, right: seq<int>)
    requires Sorted(left) && Sorted(right)
    requires (left != [] ==> left[|left| - 1] <= head) && (right != [] ==> head <= right[0])
    ensures var high := if right != [] then right[|right| - 1] else head;
            PathLength(head, right + Reverse(left)) == (high - head) + if left != [] then high - left[0] else 0
  {
    PathAppend(head, right, Reverse(left));
    if left != [] {
      SweepDownLength(Final(head, right), left);
    }
    if right != [] {
      SweepUpLength(head, right);
    }
  }

  /** Up through the right, a jump to the lowest on the left, and up again. */
  lemma UpThenUp(head: int, left: seq<int>, right: seq<int>)
    requires Sorted(left) && Sorted(right)
    requires (left != [] ==> left[|left| - 1] <= head) && (right != [] ==> head <= right[0])
    ensures var high := if right != [] then right[|right| - 1] else head;
            PathLength(head, right + left) == (high - head) +
              if left != [] then (high - left[0]) + (left[|left| - 1] - left[0]) else 0
  {
    PathAppend(head, right, left);
    if left != [] {
      SweepUpLength(Final(head, right), left);
    }
    if right != [] {
      SweepUpLength(head, right);
    }
  }

  /** Down through the left, a jump to the highest on the right, and down again. */
  lemma DownThenDown(head: int, left: seq<int>, right: seq<int>)
    requires Sorted(left) && Sorted(right)
    requires (left != [] ==> left[|left| - 1] <= head) && (right != [] ==> head <= right[0])
    ensures var low := if left != [] then left[0] else head;
            PathLength(head, Reverse(left) + Reverse(right)) == (head - low) +
              if right != [] then (right[|right| - 1] - low) + (right[|right| - 1] - right[0]) else 0
  {
    PathAppend(head, Reverse(left), Reverse(right));
    if left != [] {
      SweepDownLength(head, left);
    }
    if right != [] {
      SweepDownLength(Final(head, Reverse(left)), right);
    }
  }

  // ---------- extremes of the two sides ----------

  /** The highest request below the head, or `floor`; the lowest above it, or `ceiling`. */
  function HighestBelow(head: int, requests: seq<int>, floor: int): (r: int)
    ensures floor <= r && forall i :: 0 <= i < |requests| && requests[i] < head ==> requests[i] <= r
    ensures r == floor || (r in requests && r < head)
  {
    if requests == [] then floor
    else
      var rest := HighestBelow(head, requests[1..], floor);
      assert forall i :: 1 <= i < |requests| ==> requests[i] == requests[1..][i - 1];
      if requests[0] < head && rest < requests[0] then requests[0] else rest
  }

  function LowestAbove(head: int, requests: seq<int>, ceiling: int): (r: int)
    ensures r <= ceiling && forall i :: 0 <= i < |requests| && head < requests[i] ==> r <= requests[i]
    ensures r == ceiling || (r in requests && head < r)
  {
    if requests == [] then ceiling
    else
      var rest := LowestAbove(head, requests[1..], ceiling);
      assert forall i :: 1 <= i < |requests| ==> requests[i] == requests[1..][i - 1];
      if head < requests[0] && requests[0] < rest then requests[0] else rest
  }

  ghost predicate SomeFrom(head: int, requests: seq<int>) {
    exists r :: r in requests && head <= r
  }

  lemma Ends(t: seq<int>, lo: int, hi: int)
    requires Sorted(t) && lo in t && hi in t && forall y :: y in t ==> lo <= y <= hi
    ensures t != [] && t[0] == lo && t[|t| - 1] == hi
  {
    var i :| 0 <= i < |t| && t[i] == lo;
    var j :| 0 <= j < |t| && t[j] == hi;
    assert t[0] in t && t[|t| - 1] in t;
  }

  /** The ends of a sorted side, given its least and greatest tracks. */
  lemma SideEnds(boundary: seq<int>, side: Side, head: int, requests: seq<int>, lo: int, hi: int)
    requires lo in boundary || (lo in requests && On(side, head, lo))
    requires hi in boundary || (hi in requests && On(side, head, hi))
    requires forall y :: y in boundary || (y in requests && On(side, head, y)) ==> lo <= y <= hi
    ensures var t := SortedSide(boundary, side, head, requests); t != [] && t[0] == lo && t[|t| - 1] == hi
  {
    var t := SortedSide(boundary, side, head, requests);
    SideMember(boundary, side, head, requests, lo);
    SideMember(boundary, side, head, requests, hi);
    forall y | y in t
      ensures lo <= y <= hi
    {
      SideMember(boundary, side, head, requests, y);
    }
    Ends(t, lo, hi);
  }

  lemma SideEmpty(side: Side, head: int, requests: seq<int>)
    requires forall y :: y in requests ==> !On(side, head, y)
    ensures SortedSide([], side, head, requests) == []
  {
    var t := SortedSide([], side, head, requests);
    if t != [] {
      SideMember([], side, head, requests, t[0]);
      assert false;
    }
  }

  /** The sorted requests below the head run from Low to HighestBelow. */
  lemma BelowEnds(head: int, requests: seq<int>)
    ensures var left, low := SortedSide([], Below, head, requests), Low(head, requests);
            if low == head then left == []
            else left != [] && left[0] == low && left[|left| - 1] == HighestBelow(head, requests, low) < head
  {
    var low := Low(head, requests);
    if low == head {
      SideEmpty(Below, head, requests);
    } else {
      SideEnds([], Below, head, requests, low, HighestBelow(head, requests, low));
    }
  }

  lemma FromEnds(head: int, requests: seq<int>)
    ensures var right, high := SortedSide([], From, head, requests), High(head, requests);
            if SomeFrom(head, requests) then right != [] && head <= right[0] && right[|right| - 1] == high
            else right == [] && high == head
  {
    var high := High(head, requests);
    if SomeFrom(head, requests) {
      var least := LowestAbove(head - 1, requests, high);
      SideEnds([], From, head, requests, least, high);
    } else {
      SideEmpty(From, head, requests);
    }
  }

  lemma AboveEnds(head: int, requests: seq<int>)
    ensures var right, high := SortedSide([], Above, head, requests), High(head, requests);
            if high == head then right == []
            else right != [] && head < right[0] == LowestAbove(head, requests, high) && right[|right| - 1] == high
  {
    var high := High(head, requests);
    if high == head {
      SideEmpty(Above, head, requests);
    } else {
      SideEnds([], Above, head, requests, LowestAbove(head, requests, high), high);
    }
  }

  lemma AboveTop(head: int, requests: seq<int>)
    ensures var right, high := SortedSide([], Above, head, requests), High(head, requests);
            if high == head then right == [] else right != [] && head <= right[0] && right[|right| - 1] == high
  {
    AboveEnds(head, requests);
  }

  lemma BelowBottom(head: int, requests: seq<int>)
    ensures var left, low := SortedSide([], Below, head, requests), Low(head, requests);
            if low == head then left == [] else left != [] && left[0] == low && left[|left| - 1] <= head
  {
    BelowEnds(head, requests);
  }

  // ---------- LOOK ----------

  lemma LookLeftLength(head: int, requests: seq<int>)
    ensures var low, high := Low(head, requests), High(head, requests);
            PathLength(head, LookOrder(head, requests, Left)) ==
            (head - low) + if SomeFrom(head, requests) then high - low else 0
  {
    BelowBottom(head, requests);
    FromEnds(head, requests);
    DownThenUp(head, SortedSide([], Below, head, requests), SortedSide([], From, head, requests));
  }

  /** Any direction but LEFT. */
  lemma LookRightLength(head: int, requests: seq<int>, direction: Direction)
    requires direction != Left
    ensures var low, high := Low(head, requests), High(head, requests);
            PathLength(head, LookOrder(head, requests, direction)) ==
            (high - head) + if low < head then high - low else 0
  {
    BelowBottom(head, requests);
    FromEnds(head, requests);
    UpThenDown(head, SortedSide([], Below, head, requests), SortedSide([], From, head, requests));
  }

  lemma LookClosedForm(head: int, requests: seq<int>, direction: Direction)
    ensures var low, high := Low(head, requests), High(head, requests);
            PathLength(head, LookOrder(head, requests, direction)) ==
            if direction == Left then (head - low) + (if SomeFrom(head, requests) then high - low else 0)
            else (high - head) + (if low < head then high - low else 0)
  {
    if direction == Left {
      LookLeftLength(head, requests);
    } else {
      LookRightLength(head, requests, direction);
    }
  }

  /** The better of LOOK's two directions is exactly the length no order of service can go below. */
  lemma LookIsOptimal(head: int, requests: seq<int>)
    ensures var l := PathLength(head, LookOrder(head, requests, Left));
            var r := PathLength(head, LookOrder(head, requests, Right));
            (if l <= r then l else r) == Optimal(head, requests)
  {
    LookClosedForm(head, requests, Left);
    LookClosedForm(head, requests, Right);
    if !SomeFrom(head, requests) {
      FromEnds(head, requests);
    } else if Low(head, requests) == head {
      FromEnds(head, requests);
    }
  }

  /** So no order of service, in particular neither FCFS nor SSTF nor a sweep, beats LOOK. */
  lemma NothingBeatsLook(head: int, requests: seq<int>, served: seq<int>)
    requires Covers(served, requests)
    ensures var l := PathLength(head, LookOrder(head, requests, Left));
            var r := PathLength(head, LookOrder(head, requests, Right));
            (if l <= r then l else r) <= PathLength(head, served)
  {
    LookIsOptimal(head, requests);
    NoPathBeatsOptimal(head, requests, served);
  }

  // ---------- SCAN ----------

  ghost predicate OnDisk(head: int, requests: seq<int>, diskSize: int) {
    0 <= head < diskSize && forall r :: r in requests ==> 0 <= r < diskSize
  }

  /** With track 0 added, the left side runs from 0 to the highest request below the head. */
  lemma LeftWithZero(head: int, requests: seq<int>)
    requires 0 <= head && forall r :: r in requests ==> 0 <= r
    ensures var left := SortedSide([0], Below, head, requests);
            left != [] && left[0] == 0 && left[|left| - 1] == HighestBelow(head, requests, 0) <= head
  {
    SideEnds([0], Below, head, requests, 0, HighestBelow(head, requests, 0));
  }

  /** With the last track added, the right side ends there. */
  lemma FromWithEnd(head: int, requests: seq<int>, diskSize: int)
    requires OnDisk(head, requests, diskSize)
    ensures var right := SortedSide([diskSize - 1], From, head, requests);
            right != [] && head <= right[0] && right[|right| - 1] == diskSize - 1
  {
    SideEnds([diskSize - 1], From, head, requests, LowestAbove(head - 1, requests, diskSize - 1), diskSize - 1);
  }

  lemma AboveWithEnd(head: int, requests: seq<int>, diskSize: int)
    requires OnDisk(head, requests, diskSize)
    ensures var right := SortedSide([diskSize - 1], Above, head, requests);
            right != [] && head <= right[0] == LowestAbove(head, requests, diskSize - 1)
            && right[|right| - 1] == diskSize - 1
  {
    SideEnds([diskSize - 1], Above, head, requests, LowestAbove(head, requests, diskSize - 1), diskSize - 1);
  }

  lemma ScanLeftLength(head: int, requests: seq<int>, diskSize: int)
    requires OnDisk(head, requests, diskSize)
    ensures PathLength(head, ScanOrder(head, requests, Left, diskSize))
         == head + if SomeFrom(head, requests) then High(head, requests) else 0
  {
    LeftWithZero(head, requests);
    FromEnds(head, requests);
    DownThenUp(head, SortedSide([0], Below, head, requests), SortedSide([], From, head, requests));
  }

  lemma ScanRightLength(head: int, requests: seq<int>, diskSize: int)
    requires OnDisk(head, requests, diskSize)
    ensures PathLength(head, ScanOrder(head, requests, Right, diskSize))
         == (diskSize - 1 - head) + if Low(head, requests) < head then diskSize - 1 - Low(head, requests) else 0
  {
    BelowEnds(head, requests);
    FromWithEnd(head, requests, diskSize);
    UpThenDown(head, SortedSide([], Below, head, requests), SortedSide([diskSize - 1], From, head, requests));
  }

  lemma ScanClosedForm(head: int, requests: seq<int>, direction: Direction, diskSize: int)
    requires OnDisk(head, requests, diskSize) && direction != Other
    ensures PathLength(head, ScanOrder(head, requests, direction, diskSize)) ==
            if direction == Left then head + (if SomeFrom(head, requests) then High(head, requests) else 0)
            else (diskSize - 1 - head) + (if Low(head, requests) < head then diskSize - 1 - Low(head, requests) else 0)
  {
    if direction == Left {
      ScanLeftLength(head, requests, diskSize);
    } else {
      ScanRightLength(head, requests, diskSize);
    }
  }

  /** LOOK never moves the head further than SCAN in the same direction. */
  lemma LookBeatsScan(head: int, requests: seq<int>, direction: Direction, diskSize: int)
    requires OnDisk(head, requests, diskSize) && direction != Other
    ensures PathLength(head, LookOrder(head, requests, direction))
         <= PathLength(head, ScanOrder(head, requests, direction, diskSize))
  {
    LookClosedForm(head, requests, direction);
    ScanClosedForm(head, requests, direction, diskSize);
  }

  // ---------- C-LOOK ----------

  lemma CLookLeftLength(head: int, requests: seq<int>)
    ensures var low, high := Low(head, requests), High(head, requests);
            PathLength(head, CLookOrder(head, requests, Left)) ==
            (head - low) + if head < high then (high - low) + (high - LowestAbove(head, requests, high)) else 0
  {
    BelowBottom(head, requests);
    AboveEnds(head, requests);
    DownThenDown(head, SortedSide([], Below, head, requests), SortedSide([], Above, head, requests));
  }

  lemma CLookRightLength(head: int, requests: seq<int>)
    ensures var low, high := Low(head, requests), High(head, requests);
            PathLength(head, CLookOrder(head, requests, Right)) ==
            (high - head) + if low < head then (high - low) + (HighestBelow(head, requests, low) - low) else 0
  {
    BelowEnds(head, requests);
    AboveTop(head, requests);
    UpThenUp(head, SortedSide([], Below, head, requests), SortedSide([], Above, head, requests));
  }

  lemma CLookClosedForm(head: int, requests: seq<int>, direction: Direction)
    ensures var low, high := Low(head, requests), High(head, requests);
            PathLength(head, CLookOrder(head, requests, direction)) == match direction {
              case Left => (head - low) +
                (if head < high then (high - low) + (high - LowestAbove(head, requests, high)) else 0)
              case Right => (high - head) +
                (if low < head then (high - low) + (HighestBelow(head, requests, low) - low) else 0)
              case Other => 0
            }
  {
    CLookLeftLength(head, requests);
    CLookRightLength(head, requests);
  }

  // ---------- C-SCAN ----------

  /** What C-SCAN adds up: two sweeps and the jump across the whole disk between them. */
  function CScanTotal(head: int, requests: seq<int>, direction: Direction, diskSize: int): nat {
    var left := SortedSide([0], Below, head, requests);
    var right := SortedSide([diskSize - 1], Above, head, requests);
    match direction
    case Left => PathLength(head, Reverse(left)) + Distance(diskSize - 1, 0) + PathLength(diskSize - 1, Reverse(right))
    case Right => PathLength(head, right) + Distance(diskSize - 1, 0) + PathLength(0, left)
    case Other => 0
  }

  lemma CScanClosedForm(head: int, requests: seq<int>, direction: Direction, diskSize: int)
    requires OnDisk(head, requests, diskSize) && direction != Other
    ensures CScanTotal(head, requests, direction, diskSize) == (diskSize - 1) +
            if direction == Left then head + (diskSize - 1 - LowestAbove(head, requests, diskSize - 1))
            else (diskSize - 1 - head) + HighestBelow(head, requests, 0)
  {
    LeftWithZero(head, requests);
    AboveWithEnd(head, requests, diskSize);
    var left := SortedSide([0], Below, head, requests);
    var right := SortedSide([diskSize - 1], Above, head, requests);
    if direction == Left {
      SweepDownLength(head, left);
      SweepDownLength(diskSize - 1, right);
    } else {
      SweepUpLength(head, right);
      SweepUpLength(0, left);
    }
  }

  /** On the disk that is the way along the tracks served: the jump leads from one boundary to the other. */
  lemma CScanTotalIsPath(head: int, requests: seq<int>, direction: Direction, diskSize: int)
    requires OnDisk(head, requests, diskSize)
    ensures CScanTotal(head, requests, direction, diskSize)
         == PathLength(head, CScanOrder(head, requests, direction, diskSize))
  {
    if direction != Other {
      CScanClosedForm(head, requests, direction, diskSize);
      LeftWithZero(head, requests);
      AboveWithEnd(head, requests, diskSize);
      var left, right := SortedSide([0], Below, head, requests), SortedSide([diskSize - 1], Above, head, requests);
      DownThenDown(head, left, right);
      UpThenUp(head, left, right);
    }
  }

  /** C-LOOK never moves the head further than C-SCAN in the same direction. */
  lemma CLookBeatsCScan(head: int, requests: seq<int>, direction: Direction, diskSize: int)
    requires OnDisk(head, requests, diskSize) && direction != Other
    ensures PathLength(head, CLookOrder(head, requests, direction)) <= CScanTotal(head, requests, direction, diskSize)
  {
    CLookClosedForm(head, requests, direction);
    CScanClosedForm(head, requests, direction, diskSize);
  }
}
