/** The service orders of Assignment_5/assignment5.c's sweeping schedulers, as functions of the requests:
    which requests go left and right of the head, sorted, in which order, with which boundary tracks. */
module DiskOrder {
  import opened DiskPath

  /** The direction argument: LEFT, RIGHT or any other string. */
  datatype Direction = Left | Right | Other

  // ---------- counting ----------

  lemma CountFirst(s: seq<int>)
    requires s != []
    ensures multiset(s) == multiset{s[0]} + multiset(s[1..])
  {
    assert s == [s[0]] + s[1..];
  }

  lemma CountLast(s: seq<int>)
    requires s != []
    ensures multiset(s) == multiset(s[..|s| - 1]) + multiset{s[|s| - 1]}
  {
    assert s == s[..|s| - 1] + [s[|s| - 1]];
  }

  // ---------- sorting ----------

  ghost predicate Sorted(s: seq<int>) {
    forall i, j :: 0 <= i < j < |s| ==> s[i] <= s[j]
  }

  lemma HeadStaysLeast(x: int, s: seq<int>, t: seq<int>)
    requires Sorted(s) && s != [] && s[0] < x && forall y :: y in t ==> y == x || y in s[1..]
    ensures forall i :: 0 <= i < |t| ==> s[0] <= t[i]
  {
    forall i | 0 <= i < |t|
      ensures s[0] <= t[i]
    {
      assert t[i] in t;
    }
  }

  function Insert(x: int, s: seq<int>): (r: seq<int>)
    requires Sorted(s)
    ensures Sorted(r) && |r| == |s| + 1 && forall y :: y in r <==> y == x || y in s
  {
    if s == [] then [x]
    else if x <= s[0] then [x] + s
    else
      var t := Insert(x, s[1..]);
      HeadStaysLeast(x, s, t);
      assert s == [s[0]] + s[1..];
      [s[0]] + t
  }

  lemma {:induction false} InsertAddsOne(x: int, s: seq<int>)
    requires Sorted(s)
    ensures multiset(Insert(x, s)) == multiset(s) + multiset{x}
  {
    if s != [] && s[0] < x {
      InsertAddsOne(x, s[1..]);
      CountFirst(s);
    }
  }

  function Sort(s: seq<int>): (r: seq<int>)
    ensures Sorted(r) && |r| == |s|
  {
    if s == [] then [] else Insert(s[0], Sort(s[1..]))
  }

  lemma {:induction false} SortMember(s: seq<int>, y: int)
    ensures y in Sort(s) <==> y in s
  {
    if s != [] {
      SortMember(s[1..], y);
      assert s == [s[0]] + s[1..];
    }
  }

  lemma {:induction false} SortPermutes(s: seq<int>)
    ensures multiset(Sort(s)) == multiset(s)
  {
    if s != [] {
      SortPermutes(s[1..]);
      InsertAddsOne(s[0], Sort(s[1..]));
      CountFirst(s);
    }
  }

  function Reverse(s: seq<int>): (r: seq<int>)
    ensures |r| == |s|
  {
    if s == [] then [] else Reverse(s[1..]) + [s[0]]
  }

  lemma {:induction false} ReversePermutes(s: seq<int>)
    ensures multiset(Reverse(s)) == multiset(s)
  {
    if s != [] {
      ReversePermutes(s[1..]);
      CountFirst(s);
    }
  }

  lemma {:induction false} ReverseAppend(s: seq<int>, x: int)
    ensures Reverse(s + [x]) == [x] + Reverse(s)
  {
    if s != [] {
      assert (s + [x])[1..] == s[1..] + [x];
      ReverseAppend(s[1..], x);
    }
  }

  // ---------- the two sides of the head ----------

  datatype Side = Below | From | Above

  predicate On(side: Side, head: int, track: int) {
    match side
    case Below => track < head
    case From => head <= track
    case Above => head < track
  }

  /** The requests on one side, in the order they arrived. */
  function Select(side: Side, head: int, requests: seq<int>): (r: seq<int>)
    ensures |r| <= |requests|
  {
    if requests == [] then []
    else
      var n := |requests| - 1;
      Select(side, head, requests[..n]) + if On(side, head, requests[n]) then [requests[n]] else []
  }

  lemma {:induction false} SelectMember(side: Side, head: int, requests: seq<int>, y: int)
    ensures y in Select(side, head, requests) <==> y in requests && On(side, head, y)
  {
    if requests != [] {
      var n := |requests| - 1;
      SelectMember(side, head, requests[..n], y);
      assert requests == requests[..n] + [requests[n]];
    }
  }

  /** The tracks of one side and its boundary track, if there is one, in ascending order. */
  function SortedSide(boundary: seq<int>, side: Side, head: int, requests: seq<int>): (r: seq<int>)
    ensures Sorted(r)
  {
    Sort(boundary + Select(side, head, requests))
  }

  lemma SideMember(boundary: seq<int>, side: Side, head: int, requests: seq<int>, y: int)
    ensures y in SortedSide(boundary, side, head, requests) <==> y in boundary || (y in requests && On(side, head, y))
  {
    SortMember(boundary + Select(side, head, requests), y);
    SelectMember(side, head, requests, y);
  }

  /** One more request: it goes to the end of its side. */
  lemma SelectNext(side: Side, head: int, requests: seq<int>, i: nat)
    requires i < |requests|
    ensures Select(side, head, requests[..i + 1])
         == Select(side, head, requests[..i]) + if On(side, head, requests[i]) then [requests[i]] else []
  {
    assert requests[..i + 1][..i] == requests[..i];
  }

  lemma {:induction false} SelectPrefix(side: Side, head: int, requests: seq<int>, i: nat)
    requires i <= |requests|
    ensures |Select(side, head, requests[..i])| <= |Select(side, head, requests)|
    decreases |requests| - i
  {
    if i < |requests| {
      SelectNext(side, head, requests, i);
      SelectPrefix(side, head, requests, i + 1);
    } else {
      assert requests[..i] == requests;
    }
  }

  lemma {:induction false} SelectCount(side: Side, head: int, requests: seq<int>, y: int)
    ensures multiset(Select(side, head, requests))[y] == if On(side, head, y) then multiset(requests)[y] else 0
  {
    if requests != [] {
      SelectCount(side, head, requests[..|requests| - 1], y);
      CountLast(requests);
    }
  }

  lemma SameCounts(a: multiset<int>, b: multiset<int>, c: multiset<int>)
    requires forall y :: a[y] + b[y] == c[y]
    ensures a + b == c
  {
    forall y
      ensures (a + b)[y] == c[y]
    {
      assert a[y] + b[y] == c[y];
    }
  }

  lemma BelowAndFromAreAll(head: int, requests: seq<int>)
    ensures multiset(Select(Below, head, requests)) + multiset(Select(From, head, requests)) == multiset(requests)
  {
    var below, from := multiset(Select(Below, head, requests)), multiset(Select(From, head, requests));
    forall y
      ensures below[y] + from[y] == multiset(requests)[y]
    {
      SelectCount(Below, head, requests, y);
      SelectCount(From, head, requests, y);
    }
    SameCounts(below, from, multiset(requests));
  }

  lemma BelowAndAboveAreOthers(head: int, requests: seq<int>)
    ensures multiset(Select(Below, head, requests)) + multiset(Select(Above, head, requests)) == multiset(requests)[head := 0]
  {
    var below, above := multiset(Select(Below, head, requests)), multiset(Select(Above, head, requests));
    forall y
      ensures below[y] + above[y] == multiset(requests)[head := 0][y]
    {
      SelectCount(Below, head, requests, y);
      SelectCount(Above, head, requests, y);
    }
    SameCounts(below, above, multiset(requests)[head := 0]);
  }

  // ---------- orders of service ----------

  function LookOrder(head: int, requests: seq<int>, direction: Direction): seq<int> {
    var left, right := SortedSide([], Below, head, requests), SortedSide([], From, head, requests);
    if direction == Left then Reverse(left) + right else right + Reverse(left)
  }

  function ScanOrder(head: int, requests: seq<int>, direction: Direction, diskSize: int): seq<int> {
    var left := SortedSide(if direction == Left then [0] else [], Below, head, requests);
    var right := SortedSide(if direction == Right then [diskSize - 1] else [], From, head, requests);
    if direction == Left then Reverse(left) + right else right + Reverse(left)
  }

  function CLookOrder(head: int, requests: seq<int>, direction: Direction): seq<int> {
    var left, right := SortedSide([], Below, head, requests), SortedSide([], Above, head, requests);
    match direction
    case Left => Reverse(left) + Reverse(right)
    case Right => right + left
    case Other => []
  }

  function CScanOrder(head: int, requests: seq<int>, direction: Direction, diskSize: int): seq<int> {
    var left := SortedSide([0], Below, head, requests);
    var right := SortedSide([diskSize - 1], Above, head, requests);
    match direction
    case Left => Reverse(left) + Reverse(right)
    case Right => right + left
    case Other => []
  }

  lemma SortedSidePermutes(boundary: seq<int>, side: Side, head: int, requests: seq<int>)
    ensures var s := SortedSide(boundary, side, head, requests);
            var m := multiset(boundary) + multiset(Select(side, head, requests));
            multiset(s) == m && multiset(Reverse(s)) == m
  {
    SortPermutes(boundary + Select(side, head, requests));
    ReversePermutes(Sort(boundary + Select(side, head, requests)));
  }

  lemma RegroupSums(a: multiset<int>, b: multiset<int>, c: multiset<int>, d: multiset<int>)
    ensures (a + b) + (c + d) == (b + d) + (a + c) == (c + d) + (a + b)
  {
  }

  /** LOOK serves each request once. */
  lemma LookServesAll(head: int, requests: seq<int>, direction: Direction)
    ensures multiset(LookOrder(head, requests, direction)) == multiset(requests)
  {
    BelowAndFromAreAll(head, requests);
    SortedSidePermutes([], Below, head, requests);
    SortedSidePermutes([], From, head, requests);
  }

  /** The track SCAN visits besides the requests. */
  function ScanBoundary(direction: Direction, diskSize: int): multiset<int> {
    match direction
    case Left => multiset{0}
    case Right => multiset{diskSize - 1}
    case Other => multiset{}
  }

  /** SCAN serves each request once, and its boundary. */
  lemma ScanServesAll(head: int, requests: seq<int>, direction: Direction, diskSize: int)
    ensures multiset(ScanOrder(head, requests, direction, diskSize)) == multiset(requests) + ScanBoundary(direction, diskSize)
  {
    BelowAndFromAreAll(head, requests);
    var l, r := if direction == Left then [0] else [], if direction == Right then [diskSize - 1] else [];
    SortedSidePermutes(l, Below, head, requests);
    SortedSidePermutes(r, From, head, requests);
    RegroupSums(multiset(l), multiset(Select(Below, head, requests)), multiset(r), multiset(Select(From, head, requests)));
    assert multiset(l) + multiset(r) == ScanBoundary(direction, diskSize);
  }

  /** C-LOOK drops the requests for the track the head starts on. */
  lemma CLookServesOthers(head: int, requests: seq<int>, direction: Direction)
    requires direction != Other
    ensures multiset(CLookOrder(head, requests, direction)) == multiset(requests)[head := 0]
  {
    BelowAndAboveAreOthers(head, requests);
    SortedSidePermutes([], Below, head, requests);
    SortedSidePermutes([], Above, head, requests);
    var left, right := SortedSide([], Below, head, requests), SortedSide([], Above, head, requests);
    assert CLookOrder(head, requests, direction) == if direction == Left then Reverse(left) + Reverse(right) else right + left;
  }

  /** C-SCAN drops them too, and visits both boundaries. */
  lemma CScanServesOthers(head: int, requests: seq<int>, direction: Direction, diskSize: int)
    requires direction != Other
    ensures multiset(CScanOrder(head, requests, direction, diskSize))
         == multiset(requests)[head := 0] + multiset{0, diskSize - 1}
  {
    BelowAndAboveAreOthers(head, requests);
    SortedSidePermutes([0], Below, head, requests);
    SortedSidePermutes([diskSize - 1], Above, head, requests);
  }
}
