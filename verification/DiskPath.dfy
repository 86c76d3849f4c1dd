/** Head movement over a sequence of cylinders, and what no schedule can beat. */
module DiskPath {

  function Distance(a: int, b: int): (d: nat)
    ensures a <= b ==> d == b - a
    ensures b <= a ==> d == a - b
  {
    if a <= b then b - a else a - b
  }

  /** Total head movement when the tracks are visited in this order from `head`. */
  function PathLength(head: int, tracks: seq<int>): nat
    decreases tracks
  {
    if tracks == [] then 0 else Distance(head, tracks[0]) + PathLength(tracks[0], tracks[1..])
  }

  /** Where the head ends up. */
  function Final(head: int, tracks: seq<int>): int {
    if tracks == [] then head else tracks[|tracks| - 1]
  }

  lemma {:induction false} PathAppend(head: int, a: seq<int>, b: seq<int>)
    ensures PathLength(head, a + b) == PathLength(head, a) + PathLength(Final(head, a), b)
    decreases a
  {
    if a == [] {
      assert a + b == b;
    } else {
      assert (a + b)[0] == a[0] && (a + b)[1..] == a[1..] + b;
      PathAppend(a[0], a[1..], b);
    }
  }

  lemma PathExtend(head: int, a: seq<int>, track: int)
    ensures PathLength(head, a + [track]) == PathLength(head, a) + Distance(Final(head, a), track)
  {
    PathAppend(head, a, [track]);
    assert [track][1..] == [];
  }

  // ---------- extent of a set of requests ----------

  /** The lowest and highest track among the head and the requests. */
  function Low(head: int, requests: seq<int>): (r: int)
    ensures r <= head && forall i :: 0 <= i < |requests| ==> r <= requests[i]
    ensures r == head || r in requests
  {
    if requests == [] then head
    else
      var rest := Low(head, requests[1..]);
      assert forall i :: 1 <= i < |requests| ==> requests[i] == requests[1..][i - 1];
      if requests[0] < rest then requests[0] else rest
  }

  function High(head: int, requests: seq<int>): (r: int)
    ensures head <= r && forall i :: 0 <= i < |requests| ==> requests[i] <= r
    ensures r == head || r in requests
  {
    if requests == [] then head
    else
      var rest := High(head, requests[1..]);
      assert forall i :: 1 <= i < |requests| ==> requests[i] == requests[1..][i - 1];
      if rest < requests[0] then requests[0] else rest
  }

  function Span(head: int, requests: seq<int>): nat {
    High(head, requests) - Low(head, requests)
  }

  // ---------- lower bound on every schedule ----------

  /** A path is at least as long as its way to any track it visits ... */
  lemma {:induction false} PathReaches(head: int, tracks: seq<int>, i: nat)
    requires i < |tracks|
    ensures PathLength(head, tracks) >= Distance(head, tracks[i]) + PathLength(tracks[i], tracks[i + 1..])
    decreases tracks
  {
    if i > 0 {
      assert tracks[1..][i - 1] == tracks[i] && tracks[1..][i..] == tracks[i + 1..];
      PathReaches(tracks[0], tracks[1..], i - 1);
    }
  }

  /** ... and then on to any later one. */
  lemma PathReachesBoth(head: int, tracks: seq<int>, i: nat, j: nat)
    requires i <= j < |tracks|
    ensures PathLength(head, tracks) >= Distance(head, tracks[i]) + Distance(tracks[i], tracks[j])
  {
    PathReaches(head, tracks, i);
    if i < j {
      assert tracks[i + 1..][j - i - 1] == tracks[j];
      PathReaches(tracks[i], tracks[i + 1..], j - i - 1);
    }
  }

  /** The whole extent once, and the shorter of the two sides of the head twice. */
  function Optimal(head: int, requests: seq<int>): nat {
    var low, high := Low(head, requests), High(head, requests);
    (high - low) + if head - low <= high - head then head - low else high - head
  }

  ghost predicate Covers(tracks: seq<int>, requests: seq<int>) {
    forall r :: r in requests ==> r in tracks
  }

  /** No path that visits every request is shorter. */
  lemma NoPathBeatsOptimal(head: int, requests: seq<int>, tracks: seq<int>)
    requires Covers(tracks, requests)
    ensures Optimal(head, requests) <= PathLength(head, tracks)
    ensures Span(head, requests) <= PathLength(head, tracks)
  {
    var low, high := Low(head, requests), High(head, requests);
    if low < head && head < high {
      var i :| 0 <= i < |tracks| && tracks[i] == low;
      var j :| 0 <= j < |tracks| && tracks[j] == high;
      PathReachesBoth(head, tracks, if i <= j then i else j, if i <= j then j else i);
    } else if low < head {
      var i :| 0 <= i < |tracks| && tracks[i] == low;
      PathReaches(head, tracks, i);
    } else if head < high {
      var j :| 0 <= j < |tracks| && tracks[j] == high;
      PathReaches(head, tracks, j);
    }
  }

  lemma PermutationCovers(tracks: seq<int>, requests: seq<int>)
    requires multiset(tracks) == multiset(requests)
    ensures Covers(tracks, requests)
  {
    forall r | r in requests
      ensures r in tracks
    {
      assert r in multiset(requests);
    }
  }
}
