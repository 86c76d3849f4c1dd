/** Assignment_5/assignment5.c, FCFS and SSTF. Always going to a nearest request costs less than twice the extent of
    the requests, hence less than twice any other order; requests that zigzag with doubling steps attain the bound. */
module DiskSstf {
  import opened DiskPath
  import Sequences

  const INT_MAX := 2147483647

  /** First come, first served: the tracks printed and the head movement. */
  method Fcfs(requests: array<int>, head: int) returns (served: seq<int>, total: nat)
    ensures served == requests[..] && total == PathLength(head, served)
  {
    served, total := [], 0;
    var at := head;
    for i := 0 to requests.Length
      invariant served == requests[..i]
      invariant at == Final(head, served) && total == PathLength(head, served)
    {
      PathExtend(head, requests[..i], requests[i]);
      assert requests[..i + 1] == requests[..i] + [requests[i]];
      total := total + Distance(at, requests[i]);
      at := requests[i];
      served := served + [requests[i]];
    }
    assert requests[..requests.Length] == requests[..];
  }

  // ---------- nearest first ----------

  ghost predicate Indices(order: seq<int>, n: nat) {
    forall k :: 0 <= k < |order| ==> 0 <= order[k] < n
  }

  function Tracks(requests: seq<int>, order: seq<int>): (r: seq<int>)
    requires Indices(order, |requests|)
    ensures |r| == |order| && forall k :: 0 <= k < |r| ==> r[k] == requests[order[k]]
  {
    seq(|order|, k requires 0 <= k < |order| => requests[order[k]])
  }

  /** With `done` served, j is a nearest request left, and the first one of these in the array. */
  ghost predicate Picks(requests: seq<int>, done: seq<int>, head: int, j: int) {
    && 0 <= j < |requests| && j !in done
    && forall i :: 0 <= i < |requests| && i !in done ==>
         || Distance(head, requests[j]) < Distance(head, requests[i])
         || (Distance(head, requests[j]) == Distance(head, requests[i]) && j <= i)
  }

  /** The order in which SSTF serves the requests, given by their places in the array. */
  ghost predicate NearestFirst(head: int, requests: seq<int>, order: seq<int>)
    decreases order
  {
    && Indices(order, |requests|)
    && (order != [] ==>
          var before, j := order[..|order| - 1], order[|order| - 1];
          NearestFirst(head, requests, before) && Picks(requests, before, Final(head, Tracks(requests, before)), j))
  }

  /** One more service: the tracks, the path and the order all grow at the end. */
  lemma ServeOneMore(head: int, requests: seq<int>, before: seq<int>, j: int)
    requires Indices(before, |requests|) && 0 <= j < |requests|
    ensures Indices(before + [j], |requests|)
    ensures Tracks(requests, before + [j]) == Tracks(requests, before) + [requests[j]]
    ensures PathLength(head, Tracks(requests, before + [j]))
         == PathLength(head, Tracks(requests, before)) + Distance(Final(head, Tracks(requests, before)), requests[j])
    ensures NearestFirst(head, requests, before + [j])
       <==> NearestFirst(head, requests, before) && Picks(requests, before, Final(head, Tracks(requests, before)), j)
  {
    var order := before + [j];
    assert order[..|order| - 1] == before && order[|order| - 1] == j;
    assert Tracks(requests, order) == Tracks(requests, before) + [requests[j]];
    PathExtend(head, Tracks(requests, before), requests[j]);
  }

  /** What holds between two services: the head is at one end of the interval [lo, hi] seen so far, nothing is left
      inside it, and the movement made is its width plus `wasted`, the widths crossed again. The waste is less than
      the width, and less than the way beyond the far end to anything left there. */
  ghost predicate Swept(head: int, lo: int, hi: int, wasted: int, requests: seq<int>, done: seq<int>) {
    && lo <= hi && (head == lo || head == hi)
    && 0 <= wasted && (if lo == hi then wasted == 0 else wasted < hi - lo)
    && forall i :: 0 <= i < |requests| && i !in done ==>
         var r := requests[i];
         && (r <= lo || hi <= r)
         && (lo < hi && head == hi && r <= lo ==> wasted < lo - r)
         && (lo < hi && head == lo && hi <= r ==> wasted < r - hi)
  }

  /** One service. Crossing the interval doubles the distance to whatever is left behind. */
  lemma SweepOn(head: int, lo: int, hi: int, wasted: int, requests: seq<int>, done: seq<int>, j: int)
    returns (lo': int, hi': int, wasted': int)
    requires Swept(head, lo, hi, wasted, requests, done) && Picks(requests, done, head, j)
    ensures Swept(requests[j], lo', hi', wasted', requests, done + [j])
    ensures lo' == (if requests[j] < lo then requests[j] else lo) && hi' == (if hi < requests[j] then requests[j] else hi)
    ensures (hi' - lo') + wasted' == (hi - lo) + wasted + Distance(head, requests[j])
  {
    var track := requests[j];
    lo', hi' := if track < lo then track else lo, if hi < track then track else hi;
    wasted' := (hi - lo) + wasted + Distance(head, track) - (hi' - lo');
    forall i | 0 <= i < |requests| && i !in done + [j]
      ensures requests[i] <= lo' || hi' <= requests[i]
      ensures lo' < hi' && track == hi' && requests[i] <= lo' ==> wasted' < lo' - requests[i]
      ensures lo' < hi' && track == lo' && hi' <= requests[i] ==> wasted' < requests[i] - hi'
    {
      assert i !in done;
    }
  }

  /** The interval, the waste and the movement when the tracks of `order` have been served. */
  ghost predicate SweptBy(head: int, requests: seq<int>, order: seq<int>, lo: int, hi: int, wasted: int)
    requires Indices(order, |requests|)
  {
    && Swept(Final(head, Tracks(requests, order)), lo, hi, wasted, requests, order)
    && Low(head, requests) <= lo && hi <= High(head, requests)
    && PathLength(head, Tracks(requests, order)) == (hi - lo) + wasted
  }

  lemma SweptAtStart(head: int, requests: seq<int>)
    ensures SweptBy(head, requests, [], head, head, 0)
  {
  }

  lemma SweptStep(head: int, requests: seq<int>, before: seq<int>, j: int, lo: int, hi: int, wasted: int)
    returns (lo': int, hi': int, wasted': int)
    requires Indices(before, |requests|) && SweptBy(head, requests, before, lo, hi, wasted)
    requires Picks(requests, before, Final(head, Tracks(requests, before)), j)
    ensures Indices(before + [j], |requests|) && SweptBy(head, requests, before + [j], lo', hi', wasted')
  {
    lo', hi', wasted' := SweepOn(Final(head, Tracks(requests, before)), lo, hi, wasted, requests, before, j);
    ServeOneMore(head, requests, before, j);
  }

  /** The last service of an order. */
  lemma LastService(head: int, requests: seq<int>, order: seq<int>) returns (before: seq<int>, j: int)
    requires NearestFirst(head, requests, order) && order != []
    ensures order == before + [j] && NearestFirst(head, requests, before)
    ensures Picks(requests, before, Final(head, Tracks(requests, before)), j)
  {
    before, j := order[..|order| - 1], order[|order| - 1];
  }

  lemma {:induction false} SweptAfter(head: int, requests: seq<int>, order: seq<int>)
    returns (lo: int, hi: int, wasted: int)
    requires NearestFirst(head, requests, order)
    ensures SweptBy(head, requests, order, lo, hi, wasted)
    decreases |order|
  {
    if order == [] {
      lo, hi, wasted := head, head, 0;
      SweptAtStart(head, requests);
    } else {
      var before, j := LastService(head, requests, order);
      lo, hi, wasted := SweptAfter(head, requests, before);
      lo, hi, wasted := SweptStep(head, requests, before, j, lo, hi, wasted);
    }
  }

  /** SSTF moves the head over less than twice the extent of the requests and its start. */
  lemma NearestFirstWithinTwoSpans(head: int, requests: seq<int>, order: seq<int>)
    requires NearestFirst(head, requests, order)
    ensures var path, span := PathLength(head, Tracks(requests, order)), Span(head, requests);
            if span == 0 then path == 0 else path < 2 * span
  {
    var lo, hi, wasted := SweptAfter(head, requests, order);
  }

  /** SSTF is within a factor two of every order of service, FCFS and the best one included. */
  lemma NearestFirstWithinTwiceAny(head: int, requests: seq<int>, order: seq<int>, other: seq<int>)
    requires NearestFirst(head, requests, order)
    requires multiset(other) == multiset(requests)
    ensures var path, best := PathLength(head, Tracks(requests, order)), PathLength(head, other);
            if best == 0 then path == 0 else path < 2 * best
  {
    NearestFirstWithinTwoSpans(head, requests, order);
    PermutationCovers(other, requests);
    NoPathBeatsOptimal(head, requests, other);
  }

  // ---------- every request is served once ----------

  lemma {:induction false} NearestFirstDistinct(head: int, requests: seq<int>, order: seq<int>)
    requires NearestFirst(head, requests, order)
    ensures Sequences.Distinct(order)
    decreases |order|
  {
    if order != [] {
      var before, j := LastService(head, requests, order);
      NearestFirstDistinct(head, requests, before);
    }
  }

  /** While fewer services than requests have been made, some request is left. */
  lemma SomethingLeft(order: seq<int>, n: nat)
    requires |order| < n
    ensures exists j :: 0 <= j < n && j !in order
  {
    if forall j :: 0 <= j < n ==> j in order {
      var all := seq(n, j => j);
      Sequences.DistinctCount(all);
      assert Sequences.Elements(all) <= Sequences.Elements(order) by {
        assert forall j :: 0 <= j < n ==> all[j] == j && j in order;
      }
      Sequences.SubsetCount(Sequences.Elements(all), Sequences.Elements(order));
      Sequences.AtMostLength(order);
      assert false;
    }
  }

  lemma LargestServed(order: seq<int>, n: nat) returns (k: nat)
    requires 0 < n == |order| && Indices(order, n) && Sequences.Distinct(order)
    ensures k < n && order[k] == n - 1
  {
    if forall i :: 0 <= i < n ==> order[i] != n - 1 {
      Sequences.DistinctBelow(order, n - 1);
      assert false;
    }
    k :| 0 <= k < n && order[k] == n - 1;
  }

  /** Without the request of the largest index, the others are served in the same order. */
  lemma TracksWithoutLast(requests: seq<int>, order: seq<int>, k: nat)
    requires Indices(order, |requests|) && Sequences.Distinct(order) && k < |order| && order[k] == |requests| - 1
    ensures Indices(order[..k] + order[k + 1..], |requests| - 1) && Sequences.Distinct(order[..k] + order[k + 1..])
    ensures Tracks(requests[..|requests| - 1], order[..k] + order[k + 1..])
         == Tracks(requests, order)[..k] + Tracks(requests, order)[k + 1..]
  {
  }

  lemma {:induction false} CompleteOrderPermutes(requests: seq<int>, order: seq<int>)
    requires Indices(order, |requests|) && Sequences.Distinct(order) && |order| == |requests|
    ensures multiset(Tracks(requests, order)) == multiset(requests)
  {
    var n := |requests|;
    if n > 0 {
      var k := LargestServed(order, n);
      TracksWithoutLast(requests, order, k);
      CompleteOrderPermutes(requests[..n - 1], order[..k] + order[k + 1..]);
      assert requests[..n - 1] + requests[n..] == requests[..n - 1];
      SameButOne(Tracks(requests, order), k, requests, n - 1);
    }
  }

  lemma RemoveOne(s: seq<int>, k: nat)
    requires k < |s|
    ensures multiset(s) == multiset(s[..k] + s[k + 1..]) + multiset{s[k]}
  {
    assert s == s[..k] + [s[k]] + s[k + 1..];
  }

  lemma SameButOne(a: seq<int>, i: nat, b: seq<int>, j: nat)
    requires i < |a| && j < |b| && a[i] == b[j]
    requires multiset(a[..i] + a[i + 1..]) == multiset(b[..j] + b[j + 1..])
    ensures multiset(a) == multiset(b)
  {
    RemoveOne(a, i);
    RemoveOne(b, j);
  }

  lemma OrderOutcome(head: int, requests: seq<int>, order: seq<int>)
    requires NearestFirst(head, requests, order) && |order| == |requests|
    ensures multiset(Tracks(requests, order)) == multiset(requests)
    ensures PathLength(head, Tracks(requests, order)) <= 2 * Span(head, requests)
  {
    NearestFirstDistinct(head, requests, order);
    CompleteOrderPermutes(requests, order);
    NearestFirstWithinTwoSpans(head, requests, order);
  }

  // ---------- the program ----------

  /** The array `processed` marks exactly the requests served. */
  ghost predicate Flags(processed: seq<bool>, order: seq<int>) {
    forall j :: 0 <= j < |processed| ==> (processed[j] <==> j in order)
  }

  /** What the main loop has computed when the requests of `order` are served. */
  ghost predicate Served(head: int, requests: seq<int>, order: seq<int>, processed: seq<bool>, tracks: seq<int>, at: int, total: int) {
    && NearestFirst(head, requests, order)
    && Flags(processed, order)
    && tracks == Tracks(requests, order)
    && at == Final(head, tracks)
    && total == PathLength(head, tracks)
  }

  lemma FlagsOneMore(processed: seq<bool>, order: seq<int>, j: nat)
    requires j < |processed| && Flags(processed, order)
    ensures Flags(processed[j := true], order + [j])
  {
  }

  lemma ServedOneMore(
      head: int, requests: seq<int>, order: seq<int>, processed: seq<bool>, tracks: seq<int>, at: int, total: int, j: int)
    requires Served(head, requests, order, processed, tracks, at, total)
    requires |processed| == |requests| && Picks(requests, order, at, j)
    ensures Served(head, requests, order + [j], processed[j := true], tracks + [requests[j]],
                   requests[j], total + Distance(at, requests[j]))
  {
    ServeOneMore(head, requests, order, j);
    FlagsOneMore(processed, order, j);
  }

  /** The inner loops: distances of all pending requests, then the first minimum. */
  method PickNearest(requests: array<int>, processed: array<bool>, diff: array2<int>, head: int,
                     ghost all: seq<int>, ghost done: seq<int>)
    returns (minIndex: int, minDistance: int)
    requires processed.Length == requests.Length == diff.Length0 && diff.Length1 == 2
    requires requests[..] == all && forall i :: 0 <= i < |all| ==> Distance(head, all[i]) < INT_MAX
    requires Flags(processed[..], done)
    requires |done| < requests.Length
    modifies diff
    ensures Picks(all, done, head, minIndex) && minDistance == Distance(head, all[minIndex])
  {
    assert forall j :: 0 <= j < requests.Length ==> requests[j] == all[j];
    SomethingLeft(done, requests.Length);
    assert forall j :: 0 <= j < processed.Length ==> (processed[j] <==> j in done) by {
      assert forall j :: 0 <= j < processed.Length ==> processed[..][j] == processed[j];
    }
    for j := 0 to requests.Length
      invariant forall k :: 0 <= k < j ==>
                  if processed[k] then diff[k, 0] == INT_MAX else diff[k, 0] == Distance(head, requests[k]) && diff[k, 1] == k
    {
      if !processed[j] {
        diff[j, 0] := Distance(head, requests[j]);
        diff[j, 1] := j;
      } else {
        diff[j, 0] := INT_MAX;
      }
    }
    minIndex, minDistance := -1, INT_MAX;
    for j := 0 to requests.Length
      invariant minDistance <= INT_MAX
      invariant minIndex == -1 ==> minDistance == INT_MAX && forall k :: 0 <= k < j ==> processed[k]
      invariant minIndex != -1 ==> 0 <= minIndex < j && !processed[minIndex]
                                   && minDistance == Distance(head, requests[minIndex])
      invariant forall k :: 0 <= k < j ==> minDistance < diff[k, 0] || (minDistance == diff[k, 0] && minIndex <= k)
    {
      if diff[j, 0] < minDistance {
        minDistance := diff[j, 0];
        minIndex := diff[j, 1];
      }
    }
  }

  /** From the head or a request, no request is further away than the extent. */
  lemma WithinSpan(head: int, requests: seq<int>, at: int)
    requires at == head || at in requests
    ensures forall i :: 0 <= i < |requests| ==> Distance(at, requests[i]) <= Span(head, requests)
  {
  }

  /** Marks the request as processed and records its track. */
  method Mark(processed: array<bool>, served: array<int>, index: nat, i: nat, track: int)
    requires index < processed.Length && i < served.Length
    modifies processed, served
    ensures processed[..] == old(processed[..])[index := true]
    ensures served[..i + 1] == old(served[..i]) + [track]
  {
    processed[index] := true;
    served[i] := track;
  }

  /** One pass of the main loop; `all` is what the request array holds. */
  method ServeNext(requests: array<int>, processed: array<bool>, diff: array2<int>, served: array<int>, i: nat,
                   at: int, total: nat, ghost head: int, ghost all: seq<int>, ghost order: seq<int>)
    returns (at': int, total': nat, ghost order': seq<int>)
    requires served != requests && served.Length == processed.Length == requests.Length == diff.Length0 && diff.Length1 == 2
    requires requests[..] == all && i < |all| && |order| == i
    requires forall k :: 0 <= k < |all| ==> Distance(at, all[k]) < INT_MAX
    requires Served(head, all, order, processed[..], served[..i], at, total)
    modifies processed, diff, served
    ensures requests[..] == all && |order'| == i + 1 && at' in all
    ensures Served(head, all, order', processed[..], served[..i + 1], at', total')
  {
    var minIndex, minDistance := PickNearest(requests, processed, diff, at, all, order);
    ServedOneMore(head, all, order, processed[..], served[..i], at, total, minIndex);
    Mark(processed, served, minIndex, i, requests[minIndex]);
    total' := total + minDistance;
    at' := requests[minIndex];
    order' := order + [minIndex];
  }

  lemma NothingServed(head: int, requests: seq<int>, processed: seq<bool>)
    requires forall j :: 0 <= j < |processed| ==> !processed[j]
    ensures Served(head, requests, [], processed, [], head, 0)
  {
  }

  /** The main loop. */
  method ServeAll(requests: array<int>, head: int) returns (served: array<int>, total: nat, ghost order: seq<int>)
    requires Span(head, requests[..]) < 0x7FFF_FFFF
    ensures fresh(served) && |order| == requests.Length
    ensures NearestFirst(head, requests[..], order) && served[..] == Tracks(requests[..], order)
    ensures total == PathLength(head, served[..])
  {
    served := new int[requests.Length];
    order, total := [], 0;
    var diff := new int[requests.Length, 2];
    var processed := new bool[requests.Length](j => false);
    var at := head;
    ghost var all := requests[..];
    NothingServed(head, all, processed[..]);
    assert served[..0] == [];
    for i := 0 to requests.Length
      invariant fresh(served) && fresh(processed) && fresh(diff) && served != requests
      invariant requests[..] == all && |order| == i && (at == head || at in all)
      invariant Served(head, all, order, processed[..], served[..i], at, total)
    {
      WithinSpan(head, all, at);
      at, total, order := ServeNext(requests, processed, diff, served, i, at, total, head, all, order);
    }
    assert served[..] == served[..requests.Length];
  }

  /** SSTF: the tracks served, in order, and the total printed. */
  method Sstf(requests: array<int>, head: int) returns (served: array<int>, total: nat, ghost order: seq<int>)
    requires Span(head, requests[..]) < 0x7FFF_FFFF
    ensures fresh(served) && |order| == requests.Length
    ensures NearestFirst(head, requests[..], order) && served[..] == Tracks(requests[..], order)
    ensures total == PathLength(head, served[..])
    ensures multiset(served[..]) == multiset(requests[..])
    ensures total <= 2 * Span(head, requests[..])
  {
    if requests.Length == 0 {
      served, total, order := new int[0], 0, [];
    } else {
      served, total, order := ServeAll(requests, head);
      OrderOutcome(head, requests[..], order);
    }
  }
}
