/** The sweeps of Assignment_5/assignment5.c as a reader of their output sees them: one or two runs of tracks, each in
    ascending or descending order, on one side of the head. Together with the tracks served this leaves no choice. */
module DiskShape {
  import opened DiskOrder

  ghost predicate Descending(s: seq<int>) {
    forall i, j :: 0 <= i < j < |s| ==> s[i] >= s[j]
  }

  ghost predicate AllBelow(s: seq<int>, head: int) {
    forall i :: 0 <= i < |s| ==> s[i] < head
  }

  ghost predicate AllFrom(s: seq<int>, head: int) {
    forall i :: 0 <= i < |s| ==> head <= s[i]
  }

  ghost predicate AllAbove(s: seq<int>, head: int) {
    forall i :: 0 <= i < |s| ==> head < s[i]
  }

  /** The run without the track at place b. */
  function Without(s: seq<int>, b: nat): seq<int>
    requires b < |s|
  {
    s[..b] + s[b + 1..]
  }

  // ---------- the shapes ----------

  /** LOOK: down through the tracks below the head and then up through the others, or the other way round. */
  ghost predicate LookShapeAt(served: seq<int>, head: int, direction: Direction, k: nat) {
    && k <= |served|
    && if direction == Left then
         Descending(served[..k]) && AllBelow(served[..k], head) && Sorted(served[k..]) && AllFrom(served[k..], head)
       else
         Sorted(served[..k]) && AllFrom(served[..k], head) && Descending(served[k..]) && AllBelow(served[k..], head)
  }

  ghost predicate LookShape(served: seq<int>, head: int, direction: Direction) {
    exists k: nat :: LookShapeAt(served, head, direction, k)
  }

  /** SCAN: the same, but the first run also contains the boundary of its side, at place b. */
  ghost predicate ScanShapeAt(served: seq<int>, head: int, direction: Direction, diskSize: int, k: nat, b: nat) {
    && k <= |served|
    && match direction
       case Left =>
         && b < k && served[b] == 0 && Descending(served[..k]) && AllBelow(Without(served[..k], b), head)
         && Sorted(served[k..]) && AllFrom(served[k..], head)
       case Right =>
         && b < k && served[b] == diskSize - 1 && Sorted(served[..k]) && AllFrom(Without(served[..k], b), head)
         && Descending(served[k..]) && AllBelow(served[k..], head)
       case Other =>
         LookShapeAt(served, head, direction, k)
  }

  ghost predicate ScanShape(served: seq<int>, head: int, direction: Direction, diskSize: int) {
    exists k: nat, b: nat :: ScanShapeAt(served, head, direction, diskSize, k, b)
  }

  /** C-LOOK: two runs in the same direction, first on the side it moves to; nothing for an unknown direction. */
  ghost predicate CLookShapeAt(served: seq<int>, head: int, direction: Direction, k: nat) {
    && k <= |served|
    && match direction
       case Left =>
         Descending(served[..k]) && AllBelow(served[..k], head) && Descending(served[k..]) && AllAbove(served[k..], head)
       case Right =>
         Sorted(served[..k]) && AllAbove(served[..k], head) && Sorted(served[k..]) && AllBelow(served[k..], head)
       case Other =>
         served == []
  }

  ghost predicate CLookShape(served: seq<int>, head: int, direction: Direction) {
    exists k: nat :: CLookShapeAt(served, head, direction, k)
  }

  /** C-SCAN: the same, each run with the boundary of its side, at places b and c. */
  ghost predicate CScanShapeAt(served: seq<int>, head: int, direction: Direction, diskSize: int, k: nat, b: nat, c: nat) {
    && k <= |served|
    && match direction
       case Left =>
         && b < k && served[b] == 0 && Descending(served[..k]) && AllBelow(Without(served[..k], b), head)
         && c < |served| - k && served[k + c] == diskSize - 1 && Descending(served[k..]) && AllAbove(Without(served[k..], c), head)
       case Right =>
         && b < k && served[b] == diskSize - 1 && Sorted(served[..k]) && AllAbove(Without(served[..k], b), head)
         && c < |served| - k && served[k + c] == 0 && Sorted(served[k..]) && AllBelow(Without(served[k..], c), head)
       case Other =>
         served == []
  }

  ghost predicate CScanShape(served: seq<int>, head: int, direction: Direction, diskSize: int) {
    exists k: nat, b: nat, c: nat :: CScanShapeAt(served, head, direction, diskSize, k, b, c)
  }

  // ---------- the parts have them ----------

  lemma {:induction false} ReverseAt(s: seq<int>, i: nat)
    requires i < |s|
    ensures Reverse(s)[i] == s[|s| - 1 - i]
  {
    if i < |s| - 1 {
      ReverseAt(s[1..], i);
    }
  }

  lemma ReverseDescends(s: seq<int>)
    requires Sorted(s)
    ensures Descending(Reverse(s))
  {
    forall i, j | 0 <= i < j < |s|
      ensures Reverse(s)[i] >= Reverse(s)[j]
    {
      ReverseAt(s, i);
      ReverseAt(s, j);
    }
  }

  /** A side without boundary: all its tracks are on it. */
  lemma SideIsOn(side: Side, head: int, requests: seq<int>, i: nat)
    requires i < |SortedSide([], side, head, requests)|
    ensures On(side, head, SortedSide([], side, head, requests)[i])
  {
    SideMember([], side, head, requests, SortedSide([], side, head, requests)[i]);
  }

  lemma ReversedSideIsOn(side: Side, head: int, requests: seq<int>, i: nat)
    requires i < |SortedSide([], side, head, requests)|
    ensures On(side, head, Reverse(SortedSide([], side, head, requests))[i])
  {
    ReverseAt(SortedSide([], side, head, requests), i);
    SideIsOn(side, head, requests, |SortedSide([], side, head, requests)| - 1 - i);
  }

  lemma BelowSide(head: int, requests: seq<int>)
    ensures var s := SortedSide([], Below, head, requests);
            AllBelow(s, head) && AllBelow(Reverse(s), head) && Descending(Reverse(s))
  {
    var s := SortedSide([], Below, head, requests);
    ReverseDescends(s);
    forall i | 0 <= i < |s|
      ensures s[i] < head && Reverse(s)[i] < head
    {
      SideIsOn(Below, head, requests, i);
      ReversedSideIsOn(Below, head, requests, i);
    }
  }

  lemma FromSide(head: int, requests: seq<int>)
    ensures AllFrom(SortedSide([], From, head, requests), head)
  {
    forall i | 0 <= i < |SortedSide([], From, head, requests)|
      ensures head <= SortedSide([], From, head, requests)[i]
    {
      SideIsOn(From, head, requests, i);
    }
  }

  lemma AboveSide(head: int, requests: seq<int>)
    ensures var s := SortedSide([], Above, head, requests);
            AllAbove(s, head) && AllAbove(Reverse(s), head) && Descending(Reverse(s))
  {
    var s := SortedSide([], Above, head, requests);
    ReverseDescends(s);
    forall i | 0 <= i < |s|
      ensures head < s[i] && head < Reverse(s)[i]
    {
      SideIsOn(Above, head, requests, i);
      ReversedSideIsOn(Above, head, requests, i);
    }
  }

  lemma Halves(a: seq<int>, b: seq<int>)
    ensures (a + b)[..|a|] == a && (a + b)[|a|..] == b
  {
  }

  // ---------- LOOK and C-LOOK ----------

  lemma LookHasShape(head: int, requests: seq<int>, direction: Direction)
    ensures LookShape(LookOrder(head, requests, direction), head, direction)
  {
    var left, right := SortedSide([], Below, head, requests), SortedSide([], From, head, requests);
    BelowSide(head, requests);
    FromSide(head, requests);
    Halves(Reverse(left), right);
    Halves(right, Reverse(left));
    assert LookShapeAt(LookOrder(head, requests, direction), head, direction, if direction == Left then |left| else |right|);
  }

  lemma CLookHasShape(head: int, requests: seq<int>, direction: Direction)
    ensures CLookShape(CLookOrder(head, requests, direction), head, direction)
  {
    var left, right := SortedSide([], Below, head, requests), SortedSide([], Above, head, requests);
    BelowSide(head, requests);
    AboveSide(head, requests);
    Halves(Reverse(left), Reverse(right));
    Halves(right, left);
    assert CLookShapeAt(CLookOrder(head, requests, direction), head, direction,
                        match direction case Left => |left| case Right => |right| case Other => 0);
  }

  // ---------- a boundary among sorted tracks ----------

  /** Inserting a track puts it somewhere and leaves the others as they are. */
  lemma {:induction false} InsertPlace(x: int, s: seq<int>) returns (b: nat)
    requires Sorted(s)
    ensures b < |Insert(x, s)| && Insert(x, s)[b] == x && Without(Insert(x, s), b) == s
  {
    if s == [] || x <= s[0] {
      b := 0;
      assert Insert(x, s)[1..] == s;
    } else {
      var c := InsertPlace(x, s[1..]);
      b := c + 1;
      assert Without(Insert(x, s), b) == [s[0]] + Without(Insert(x, s[1..]), c);
    }
  }

  lemma ReverseWithout(s: seq<int>, b: nat) returns (r: nat)
    requires b < |s|
    ensures r < |Reverse(s)| && Reverse(s)[r] == s[b] && Without(Reverse(s), r) == Reverse(Without(s, b))
  {
    r := |s| - 1 - b;
    ReverseAt(s, r);
    forall i | 0 <= i < |s| - 1
      ensures Without(Reverse(s), r)[i] == Reverse(Without(s, b))[i]
    {
      ReverseAt(s, if i < r then i else i + 1);
      ReverseAt(Without(s, b), i);
    }
  }

  /** A side with a boundary is the side without it, and the boundary somewhere among it. */
  lemma BoundaryPlace(boundary: int, side: Side, head: int, requests: seq<int>) returns (b: nat)
    ensures var s := SortedSide([boundary], side, head, requests);
            b < |s| && s[b] == boundary && Without(s, b) == SortedSide([], side, head, requests)
  {
    assert ([boundary] + Select(side, head, requests))[1..] == Select(side, head, requests);
    assert [] + Select(side, head, requests) == Select(side, head, requests);
    b := InsertPlace(boundary, Sort(Select(side, head, requests)));
  }

  /** And so read backwards. */
  lemma ReversedBoundaryPlace(boundary: int, side: Side, head: int, requests: seq<int>) returns (b: nat)
    ensures var s := Reverse(SortedSide([boundary], side, head, requests));
            b < |s| && s[b] == boundary && Without(s, b) == Reverse(SortedSide([], side, head, requests))
  {
    var c := BoundaryPlace(boundary, side, head, requests);
    b := ReverseWithout(SortedSide([boundary], side, head, requests), c);
  }

  // ---------- SCAN and C-SCAN ----------

  lemma ScanLeftShape(head: int, requests: seq<int>, diskSize: int)
    ensures ScanShape(ScanOrder(head, requests, Left, diskSize), head, Left, diskSize)
  {
    var left, right := Reverse(SortedSide([0], Below, head, requests)), SortedSide([], From, head, requests);
    var b := ReversedBoundaryPlace(0, Below, head, requests);
    BelowSide(head, requests);
    FromSide(head, requests);
    ReverseDescends(SortedSide([0], Below, head, requests));
    Halves(left, right);
    assert ScanShapeAt(left + right, head, Left, diskSize, |left|, b);
  }

  lemma ScanRightShape(head: int, requests: seq<int>, diskSize: int)
    ensures ScanShape(ScanOrder(head, requests, Right, diskSize), head, Right, diskSize)
  {
    var left, right := Reverse(SortedSide([], Below, head, requests)), SortedSide([diskSize - 1], From, head, requests);
    var b := BoundaryPlace(diskSize - 1, From, head, requests);
    BelowSide(head, requests);
    FromSide(head, requests);
    Halves(right, left);
    assert ScanShapeAt(right + left, head, Right, diskSize, |right|, b);
  }

  lemma ScanHasShape(head: int, requests: seq<int>, direction: Direction, diskSize: int)
    ensures ScanShape(ScanOrder(head, requests, direction, diskSize), head, direction, diskSize)
  {
    match direction
    case Left => ScanLeftShape(head, requests, diskSize);
    case Right => ScanRightShape(head, requests, diskSize);
    case Other =>
      LookHasShape(head, requests, Other);
      var served := ScanOrder(head, requests, Other, diskSize);
      assert served == LookOrder(head, requests, Other);
      var k: nat :| LookShapeAt(served, head, Other, k);
      assert ScanShapeAt(served, head, Other, diskSize, k, 0);
  }

  lemma CScanLeftShape(head: int, requests: seq<int>, diskSize: int)
    ensures CScanShape(CScanOrder(head, requests, Left, diskSize), head, Left, diskSize)
  {
    var below, above := SortedSide([0], Below, head, requests), SortedSide([diskSize - 1], Above, head, requests);
    var left, right := Reverse(below), Reverse(above);
    var b := ReversedBoundaryPlace(0, Below, head, requests);
    var c := ReversedBoundaryPlace(diskSize - 1, Above, head, requests);
    BelowSide(head, requests);
    AboveSide(head, requests);
    ReverseDescends(below);
    ReverseDescends(above);
    Halves(left, right);
    assert (left + right)[|left| + c] == right[c];
    assert CScanShapeAt(left + right, head, Left, diskSize, |left|, b, c);
  }

  lemma CScanRightShape(head: int, requests: seq<int>, diskSize: int)
    ensures CScanShape(CScanOrder(head, requests, Right, diskSize), head, Right, diskSize)
  {
    var left, right := SortedSide([0], Below, head, requests), SortedSide([diskSize - 1], Above, head, requests);
    var b := BoundaryPlace(diskSize - 1, Above, head, requests);
    var c := BoundaryPlace(0, Below, head, requests);
    BelowSide(head, requests);
    AboveSide(head, requests);
    Halves(right, left);
    assert (right + left)[|right| + c] == left[c];
    assert CScanShapeAt(right + left, head, Right, diskSize, |right|, b, c);
  }

  lemma CScanHasShape(head: int, requests: seq<int>, direction: Direction, diskSize: int)
    ensures CScanShape(CScanOrder(head, requests, direction, diskSize), head, direction, diskSize)
  {
    match direction
    case Left => CScanLeftShape(head, requests, diskSize);
    case Right => CScanRightShape(head, requests, diskSize);
    case Other => assert CScanShapeAt([], head, Other, diskSize, 0, 0, 0);
  }
}
