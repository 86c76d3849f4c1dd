/** The shapes of module DiskShape and the tracks to be served determine the order of service: no other sequence of these
    tracks has the shape. */
module DiskDetermined {
  import opened DiskOrder
  import opened DiskShape

  // ---------- sorted sequences are determined by their tracks ----------

  lemma {:induction false} SortedUnique(a: seq<int>, b: seq<int>)
    requires Sorted(a) && Sorted(b) && multiset(a) == multiset(b)
    ensures a == b
    decreases a
  {
    assert |a| == |multiset(a)| == |multiset(b)| == |b|;
    if a != [] {
      SameLeast(a, b);
      SameLeast(b, a);
      CountFirst(a);
      CountFirst(b);
      assert multiset(a[1..]) == multiset(a) - multiset{a[0]};
      SortedUnique(a[1..], b[1..]);
      assert a == [a[0]] + a[1..] && b == [b[0]] + b[1..];
    }
  }

  lemma SameLeast(a: seq<int>, b: seq<int>)
    requires Sorted(b) && a != [] && b != [] && multiset(a) == multiset(b)
    ensures b[0] <= a[0]
  {
    assert a[0] in multiset(b);
  }

  lemma {:induction false} ReverseTwice(s: seq<int>)
    ensures Reverse(Reverse(s)) == s
  {
    if s != [] {
      ReverseTwice(s[1..]);
      ReverseAppend(Reverse(s[1..]), s[0]);
    }
  }

  lemma ReverseAscends(s: seq<int>)
    requires Descending(s)
    ensures Sorted(Reverse(s))
  {
    forall i, j | 0 <= i < j < |s|
      ensures Reverse(s)[i] <= Reverse(s)[j]
    {
      ReverseAt(s, i);
      ReverseAt(s, j);
    }
  }

  lemma AscendingPart(part: seq<int>, boundary: seq<int>, side: Side, head: int, requests: seq<int>)
    requires Sorted(part) && multiset(part) == multiset(boundary) + multiset(Select(side, head, requests))
    ensures part == SortedSide(boundary, side, head, requests)
  {
    SortedSidePermutes(boundary, side, head, requests);
    SortedUnique(part, SortedSide(boundary, side, head, requests));
  }

  lemma DescendingPart(part: seq<int>, boundary: seq<int>, side: Side, head: int, requests: seq<int>)
    requires Descending(part) && multiset(part) == multiset(boundary) + multiset(Select(side, head, requests))
    ensures part == Reverse(SortedSide(boundary, side, head, requests))
  {
    ReverseAscends(part);
    ReversePermutes(part);
    AscendingPart(Reverse(part), boundary, side, head, requests);
    ReverseTwice(part);
  }

  // ---------- the two sides are determined by the head ----------

  ghost predicate AllOn(s: seq<int>, side: Side, head: int) {
    forall i :: 0 <= i < |s| ==> On(side, head, s[i])
  }

  lemma CountOn(s: seq<int>, side: Side, head: int, y: int)
    requires AllOn(s, side, head) && !On(side, head, y)
    ensures multiset(s)[y] == 0
  {
    assert y !in s;
  }

  /** Of the tracks of two sides together, each side has its own. */
  lemma SidesApart(x: seq<int>, y: seq<int>, other: Side, head: int, requests: seq<int>)
    requires other != Below && AllOn(x, Below, head) && AllOn(y, other, head)
    requires multiset(x) + multiset(y) == multiset(Select(Below, head, requests)) + multiset(Select(other, head, requests))
    ensures multiset(x) == multiset(Select(Below, head, requests))
    ensures multiset(y) == multiset(Select(other, head, requests))
  {
    var mx, my := multiset(x), multiset(y);
    var sx, sy := multiset(Select(Below, head, requests)), multiset(Select(other, head, requests));
    forall t
      ensures mx[t] == sx[t] && my[t] == sy[t]
    {
      assert mx[t] + my[t] == (mx + my)[t] == sx[t] + sy[t];
      SelectCount(Below, head, requests, t);
      SelectCount(other, head, requests, t);
      if !On(Below, head, t) {
        CountOn(x, Below, head, t);
      }
      if !On(other, head, t) {
        CountOn(y, other, head, t);
      }
    }
  }

  lemma CountWithout(s: seq<int>, b: nat)
    requires b < |s|
    ensures multiset(s) == multiset{s[b]} + multiset(Without(s, b))
  {
    assert s == s[..b] + [s[b]] + s[b + 1..];
  }

  lemma CountHalves(served: seq<int>, k: nat)
    requires k <= |served|
    ensures multiset(served) == multiset(served[..k]) + multiset(served[k..]) && served == served[..k] + served[k..]
  {
    assert served == served[..k] + served[k..];
  }

  // ---------- LOOK and C-LOOK ----------

  /** LOOK's order is the only one of its shape that serves each request once. */
  lemma LookIsDetermined(served: seq<int>, head: int, requests: seq<int>, direction: Direction)
    requires LookShape(served, head, direction) && multiset(served) == multiset(requests)
    ensures served == LookOrder(head, requests, direction)
  {
    var k: nat :| LookShapeAt(served, head, direction, k);
    var a, b := served[..k], served[k..];
    CountHalves(served, k);
    BelowAndFromAreAll(head, requests);
    if direction == Left {
      SidesApart(a, b, From, head, requests);
      DescendingPart(a, [], Below, head, requests);
      AscendingPart(b, [], From, head, requests);
    } else {
      SidesApart(b, a, From, head, requests);
      AscendingPart(a, [], From, head, requests);
      DescendingPart(b, [], Below, head, requests);
    }
  }

  /** C-LOOK's order is the only one of its shape that serves each request off the start track once. */
  lemma CLookIsDetermined(served: seq<int>, head: int, requests: seq<int>, direction: Direction)
    requires CLookShape(served, head, direction)
    requires direction != Other ==> multiset(served) == multiset(requests)[head := 0]
    ensures served == CLookOrder(head, requests, direction)
  {
    var k: nat :| CLookShapeAt(served, head, direction, k);
    var a, b := served[..k], served[k..];
    CountHalves(served, k);
    BelowAndAboveAreOthers(head, requests);
    match direction
    case Left =>
      SidesApart(a, b, Above, head, requests);
      DescendingPart(a, [], Below, head, requests);
      DescendingPart(b, [], Above, head, requests);
    case Right =>
      SidesApart(b, a, Above, head, requests);
      AscendingPart(a, [], Above, head, requests);
      AscendingPart(b, [], Below, head, requests);
    case Other =>
  }

  // ---------- SCAN and C-SCAN ----------

  lemma Cancel(x: int, a: multiset<int>, b: multiset<int>, c: multiset<int>)
    requires (multiset{x} + a) + b == c + multiset{x}
    ensures a + b == c
  {
    assert (multiset{x} + a) + b - multiset{x} == a + b;
    assert c + multiset{x} - multiset{x} == c;
  }

  lemma ScanLeftDetermined(served: seq<int>, head: int, requests: seq<int>, diskSize: int)
    requires ScanShape(served, head, Left, diskSize) && multiset(served) == multiset(requests) + multiset{0}
    ensures served == ScanOrder(head, requests, Left, diskSize)
  {
    var k: nat, at: nat :| ScanShapeAt(served, head, Left, diskSize, k, at);
    var a, b := served[..k], served[k..];
    CountHalves(served, k);
    CountWithout(a, at);
    BelowAndFromAreAll(head, requests);
    Cancel(0, multiset(Without(a, at)), multiset(b), multiset(requests));
    SidesApart(Without(a, at), b, From, head, requests);
    DescendingPart(a, [0], Below, head, requests);
    AscendingPart(b, [], From, head, requests);
  }

  lemma ScanRightDetermined(served: seq<int>, head: int, requests: seq<int>, diskSize: int)
    requires ScanShape(served, head, Right, diskSize) && multiset(served) == multiset(requests) + multiset{diskSize - 1}
    ensures served == ScanOrder(head, requests, Right, diskSize)
  {
    var k: nat, at: nat :| ScanShapeAt(served, head, Right, diskSize, k, at);
    var a, b := served[..k], served[k..];
    CountHalves(served, k);
    CountWithout(a, at);
    BelowAndFromAreAll(head, requests);
    Cancel(diskSize - 1, multiset(Without(a, at)), multiset(b), multiset(requests));
    SidesApart(b, Without(a, at), From, head, requests);
    AscendingPart(a, [diskSize - 1], From, head, requests);
    DescendingPart(b, [], Below, head, requests);
  }

  /** SCAN's order is the only one of its shape that serves each request and the boundary once. */
  lemma ScanIsDetermined(served: seq<int>, head: int, requests: seq<int>, direction: Direction, diskSize: int)
    requires ScanShape(served, head, direction, diskSize)
    requires multiset(served) == multiset(requests) + ScanBoundary(direction, diskSize)
    ensures served == ScanOrder(head, requests, direction, diskSize)
  {
    match direction
    case Left => ScanLeftDetermined(served, head, requests, diskSize);
    case Right => ScanRightDetermined(served, head, requests, diskSize);
    case Other =>
      var k: nat, b: nat :| ScanShapeAt(served, head, Other, diskSize, k, b);
      assert LookShapeAt(served, head, Other, k);
      LookIsDetermined(served, head, requests, Other);
  }

  lemma CancelTwo(x: int, y: int, a: multiset<int>, b: multiset<int>, c: multiset<int>)
    requires (multiset{x} + a) + (multiset{y} + b) == c + multiset{x, y}
    ensures a + b == c
  {
    assert (multiset{x} + a) + (multiset{y} + b) - multiset{x, y} == a + b;
    assert c + multiset{x, y} - multiset{x, y} == c;
  }

  lemma Swapped(x: int, y: int)
    ensures multiset{x, y} == multiset{y, x}
  {
  }

  /** The two runs of C-SCAN without their boundaries. */
  lemma RunsWithout(served: seq<int>, k: nat, at: nat, bt: nat)
    requires k <= |served| && at < k && bt < |served| - k
    ensures multiset(served) == (multiset{served[at]} + multiset(Without(served[..k], at)))
                              + (multiset{served[k + bt]} + multiset(Without(served[k..], bt)))
  {
    CountHalves(served, k);
    CountWithout(served[..k], at);
    CountWithout(served[k..], bt);
  }

  lemma CScanLeftDetermined(served: seq<int>, head: int, requests: seq<int>, diskSize: int)
    requires CScanShape(served, head, Left, diskSize)
    requires multiset(served) == multiset(requests)[head := 0] + multiset{0, diskSize - 1}
    ensures served == CScanOrder(head, requests, Left, diskSize)
  {
    var k: nat, at: nat, bt: nat :| CScanShapeAt(served, head, Left, diskSize, k, at, bt);
    var a, b := served[..k], served[k..];
    CountHalves(served, k);
    CountWithout(a, at);
    CountWithout(b, bt);
    RunsWithout(served, k, at, bt);
    BelowAndAboveAreOthers(head, requests);
    CancelTwo(0, diskSize - 1, multiset(Without(a, at)), multiset(Without(b, bt)), multiset(requests)[head := 0]);
    SidesApart(Without(a, at), Without(b, bt), Above, head, requests);
    DescendingPart(a, [0], Below, head, requests);
    DescendingPart(b, [diskSize - 1], Above, head, requests);
  }

  lemma CScanRightDetermined(served: seq<int>, head: int, requests: seq<int>, diskSize: int)
    requires CScanShape(served, head, Right, diskSize)
    requires multiset(served) == multiset(requests)[head := 0] + multiset{0, diskSize - 1}
    ensures served == CScanOrder(head, requests, Right, diskSize)
  {
    var k: nat, at: nat, bt: nat :| CScanShapeAt(served, head, Right, diskSize, k, at, bt);
    var a, b := served[..k], served[k..];
    CountHalves(served, k);
    CountWithout(a, at);
    CountWithout(b, bt);
    RunsWithout(served, k, at, bt);
    BelowAndAboveAreOthers(head, requests);
    Swapped(0, diskSize - 1);
    CancelTwo(diskSize - 1, 0, multiset(Without(a, at)), multiset(Without(b, bt)), multiset(requests)[head := 0]);
    SidesApart(Without(b, bt), Without(a, at), Above, head, requests);
    AscendingPart(a, [diskSize - 1], Above, head, requests);
    AscendingPart(b, [0], Below, head, requests);
  }

  /** C-SCAN's order is the only one of its shape that serves each request off the start track and both boundaries. */
  lemma CScanIsDetermined(served: seq<int>, head: int, requests: seq<int>, direction: Direction, diskSize: int)
    requires CScanShape(served, head, direction, diskSize)
    requires direction != Other ==> multiset(served) == multiset(requests)[head := 0] + multiset{0, diskSize - 1}
    ensures served == CScanOrder(head, requests, direction, diskSize)
  {
    match direction
    case Left => CScanLeftDetermined(served, head, requests, diskSize);
    case Right => CScanRightDetermined(served, head, requests, diskSize);
    case Other =>
  }

  // ---------- what the programs rely on ----------

  lemma LookOutcome(head: int, requests: seq<int>, direction: Direction)
    ensures var served := LookOrder(head, requests, direction);
            multiset(served) == multiset(requests) && LookShape(served, head, direction)
  {
    LookServesAll(head, requests, direction);
    LookHasShape(head, requests, direction);
  }

  lemma ScanOutcome(head: int, requests: seq<int>, direction: Direction, diskSize: int)
    ensures var served := ScanOrder(head, requests, direction, diskSize);
            && multiset(served) == multiset(requests) + ScanBoundary(direction, diskSize)
            && ScanShape(served, head, direction, diskSize)
  {
    ScanServesAll(head, requests, direction, diskSize);
    ScanHasShape(head, requests, direction, diskSize);
  }

  lemma CLookOutcome(head: int, requests: seq<int>, direction: Direction)
    ensures var served := CLookOrder(head, requests, direction);
            && (direction != Other ==> multiset(served) == multiset(requests)[head := 0])
            && CLookShape(served, head, direction)
  {
    if direction != Other {
      CLookServesOthers(head, requests, direction);
    }
    CLookHasShape(head, requests, direction);
  }

  lemma CScanOutcome(head: int, requests: seq<int>, direction: Direction, diskSize: int)
    ensures var served := CScanOrder(head, requests, direction, diskSize);
            && (direction != Other ==> multiset(served) == multiset(requests)[head := 0] + multiset{0, diskSize - 1})
            && CScanShape(served, head, direction, diskSize)
  {
    if direction != Other {
      CScanServesOthers(head, requests, direction, diskSize);
    }
    CScanHasShape(head, requests, direction, diskSize);
  }
}
