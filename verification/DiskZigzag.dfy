/** Requests on which SSTF of Assignment_5/assignment5.c does as badly as it ever can: the head zigzags, and each
    crossing is twice as long as the last. */
module DiskZigzag {
  import opened DiskPath
  import opened DiskSstf

  /** 0, 1, -1, 3, -5, 11, ... */
  function Turn(k: nat): int {
    if k == 0 then 0 else 1 - 2 * Turn(k - 1)
  }

  function Power(k: nat): nat {
    if k == 0 then 1 else 2 * Power(k - 1)
  }

  /** The first n turning points after the start at 0. */
  function Zigzag(n: nat): (r: seq<int>)
    ensures |r| == n && forall k :: 0 <= k < n ==> r[k] == Turn(k + 1)
  {
    seq(n, k requires 0 <= k < n => Turn(k + 1))
  }

  /** The order of arrival. */
  function InOrder(n: nat): (r: seq<int>)
    ensures |r| == n && forall k :: 0 <= k < n ==> r[k] == k
  {
    seq(n, k requires 0 <= k < n => k)
  }

  lemma {:induction false} TurnIsNotStart(k: nat)
    requires 0 < k
    ensures Distance(0, Turn(k)) >= 1
  {
    assert Turn(k) == 1 - 2 * Turn(k - 1);
  }

  /** From the k-th turning point the next one is 2^k away, and every later one at least as far. */
  lemma {:induction false} NextTurnIsNearest(k: nat, j: nat)
    requires k < j
    ensures Distance(Turn(k), Turn(k + 1)) == Power(k) <= Distance(Turn(k), Turn(j))
    decreases k
  {
    if k == 0 {
      TurnIsNotStart(j);
    } else {
      NextTurnIsNearest(k - 1, j - 1);
      assert Turn(j) == 1 - 2 * Turn(j - 1);
    }
  }

  predicate Between(a: int, x: int, b: int) {
    a <= x <= b || b <= x <= a
  }

  /** All turning points so far lie between the last two. */
  lemma {:induction false} TurnsBetween(k: nat, j: nat)
    requires j <= k + 1
    ensures Between(Turn(k), Turn(j), Turn(k + 1))
    decreases k
  {
    if j > 0 && k > 0 {
      TurnsBetween(k - 1, j - 1);
    }
  }

  lemma ZigzagExtends(n: nat, k: nat)
    requires k < n
    ensures InOrder(k + 1) == InOrder(k) + [k]
    ensures Indices(InOrder(k), n) && Tracks(Zigzag(n), InOrder(k)) == Zigzag(k)
    ensures Final(0, Zigzag(k)) == Turn(k)
  {
    assert forall i :: 0 <= i < k ==> Tracks(Zigzag(n), InOrder(k))[i] == Zigzag(k)[i];
  }

  lemma InOrderMember(n: nat, i: int)
    ensures i in InOrder(n) <==> 0 <= i < n
  {
    assert 0 <= i < n ==> InOrder(n)[i] == i;
  }

  lemma ZigzagNearest(n: nat, k: nat, i: nat)
    requires k <= i < n
    ensures Distance(Turn(k), Zigzag(n)[k]) <= Distance(Turn(k), Zigzag(n)[i])
  {
    NextTurnIsNearest(k, i + 1);
  }

  lemma ZigzagPicks(n: nat, k: nat)
    requires k < n
    ensures Picks(Zigzag(n), InOrder(k), Turn(k), k)
  {
    InOrderMember(k, k);
    forall i | 0 <= i < n && i !in InOrder(k)
      ensures Distance(Turn(k), Zigzag(n)[k]) <= Distance(Turn(k), Zigzag(n)[i]) && k <= i
    {
      InOrderMember(k, i);
      ZigzagNearest(n, k, i);
    }
  }

  lemma ZigzagServesNext(n: nat, k: nat)
    requires k < n && Indices(InOrder(k), n) && NearestFirst(0, Zigzag(n), InOrder(k))
    ensures Indices(InOrder(k + 1), n) && NearestFirst(0, Zigzag(n), InOrder(k + 1))
  {
    ZigzagExtends(n, k);
    ZigzagPicks(n, k);
    ServeOneMore(0, Zigzag(n), InOrder(k), k);
  }

  /** SSTF serves the turning points as they come. */
  lemma {:induction false} ZigzagIsServedInOrder(n: nat, k: nat)
    requires k <= n
    ensures Indices(InOrder(k), n) && NearestFirst(0, Zigzag(n), InOrder(k))
    decreases k
  {
    if k > 0 {
      ZigzagIsServedInOrder(n, k - 1);
      ZigzagServesNext(n, k - 1);
    }
  }

  lemma ZigzagGrows(n: nat)
    ensures Zigzag(n + 1) == Zigzag(n) + [Turn(n + 1)] && Final(0, Zigzag(n)) == Turn(n)
  {
  }

  lemma {:induction false} ZigzagLength(n: nat)
    ensures PathLength(0, Zigzag(n)) == Power(n) - 1
  {
    if n > 0 {
      ZigzagLength(n - 1);
      ZigzagGrows(n - 1);
      PathExtend(0, Zigzag(n - 1), Turn(n));
      NextTurnIsNearest(n - 1, n);
    }
  }

  /** When all tracks lie between two of them, these two are the extremes. */
  lemma SpanBetween(head: int, requests: seq<int>, a: int, b: int)
    requires (a == head || a in requests) && (b == head || b in requests)
    requires Between(a, head, b) && forall i :: 0 <= i < |requests| ==> Between(a, requests[i], b)
    ensures Span(head, requests) == Distance(a, b)
  {
  }

  lemma ZigzagBetween(n: nat, i: nat)
    requires i < n
    ensures Between(Turn(n - 1), Zigzag(n)[i], Turn(n))
  {
    TurnsBetween(n - 1, i + 1);
  }

  /** The last two turning points are among the start and the requests. */
  lemma LastTurnsVisited(n: nat)
    requires 0 < n
    ensures Turn(n - 1) == 0 || Turn(n - 1) in Zigzag(n)
    ensures Turn(n) in Zigzag(n)
  {
    assert Zigzag(n)[n - 1] == Turn(n) && (n > 1 ==> Zigzag(n)[n - 2] == Turn(n - 1));
  }

  lemma ZigzagSpan(n: nat)
    requires 0 < n
    ensures Span(0, Zigzag(n)) == Distance(Turn(n - 1), Turn(n))
  {
    LastTurnsVisited(n);
    TurnsBetween(n - 1, 0);
    forall i | 0 <= i < n
      ensures Between(Turn(n - 1), Zigzag(n)[i], Turn(n))
    {
      ZigzagBetween(n, i);
    }
    SpanBetween(0, Zigzag(n), Turn(n - 1), Turn(n));
  }

  lemma InOrderTracks(requests: seq<int>)
    ensures Indices(InOrder(|requests|), |requests|)
    ensures Tracks(requests, InOrder(|requests|)) == requests
  {
  }

  lemma ZigzagPath(n: nat)
    requires 0 < n
    ensures Indices(InOrder(n), n)
    ensures PathLength(0, Tracks(Zigzag(n), InOrder(n))) == 2 * Power(n - 1) - 1
  {
    InOrderTracks(Zigzag(n));
    ZigzagLength(n);
  }

  lemma ZigzagExtent(n: nat)
    requires 0 < n
    ensures Span(0, Zigzag(n)) == Power(n - 1)
  {
    ZigzagSpan(n);
    NextTurnIsNearest(n - 1, n);
  }

  /** For any number of requests the bound of two spans, less one, is attained. */
  lemma TwoSpansIsSharp(n: nat) returns (requests: seq<int>, order: seq<int>)
    requires 0 < n
    ensures |requests| == |order| == n && NearestFirst(0, requests, order)
    ensures PathLength(0, Tracks(requests, order)) == 2 * Span(0, requests) - 1
    ensures Span(0, requests) == Power(n - 1)
  {
    requests, order := Zigzag(n), InOrder(n);
    ZigzagIsServedInOrder(n, n);
    ZigzagPath(n);
    ZigzagExtent(n);
  }
}
