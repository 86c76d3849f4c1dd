/** Facts about sequences: concatenation, sequences without repetition, and counting what they contain. */
module Sequences {

  lemma Regroup<T>(a: seq<T>, x: T, b: seq<T>)
    ensures a + ([x] + b) == (a + [x]) + b
  {
  }

  ghost predicate Distinct(q: seq<int>) {
    forall i, j :: 0 <= i < j < |q| ==> q[i] != q[j]
  }

  ghost function Elements(q: seq<int>): set<int> {
    set i | 0 <= i < |q| :: q[i]
  }

  lemma ElementsAppend(q: seq<int>, p: int)
    ensures Elements(q + [p]) == Elements(q) + {p}
  {
    var r := q + [p];
    assert r[|q|] == p && forall i :: 0 <= i < |q| ==> r[i] == q[i];
  }

  lemma {:induction false} DistinctCount(q: seq<int>)
    requires Distinct(q)
    ensures |Elements(q)| == |q|
  {
    if q != [] {
      var init, last := q[..|q| - 1], q[|q| - 1];
      DistinctCount(init);
      assert q == init + [last];
      ElementsAppend(init, last);
      assert last !in Elements(init);
    }
  }

  lemma {:induction false} AtMostLength(q: seq<int>)
    ensures |Elements(q)| <= |q|
  {
    if q != [] {
      var init, last := q[..|q| - 1], q[|q| - 1];
      AtMostLength(init);
      assert q == init + [last];
      ElementsAppend(init, last);
    }
  }

  /** Distinct numbers below a bound are at most that many. */
  lemma {:induction false} DistinctBelow(q: seq<int>, bound: nat)
    requires Distinct(q) && forall i :: 0 <= i < |q| ==> 0 <= q[i] < bound
    ensures |q| <= bound
  {
    if q != [] {
      assert 0 <= q[0] < bound;
      if i :| 0 <= i < |q| && q[i] == bound - 1 {
        DistinctBelow(q[..i] + q[i + 1..], bound - 1);
      } else {
        DistinctBelow(q, bound - 1);
      }
    }
  }

  lemma ElementsFirst(trace: seq<int>)
    requires trace != []
    ensures Elements(trace) == {trace[0]} + Elements(trace[1..])
  {
  }

  lemma {:induction false} SubsetCount<T>(a: set<T>, b: set<T>)
    requires a <= b
    ensures |a| <= |b|
  {
    if a != {} {
      var x :| x in a;
      SubsetCount(a - {x}, b - {x});
    }
  }

  lemma {:induction false} SubsetEqual<T>(a: set<T>, b: set<T>)
    requires a <= b && |b| <= |a|
    ensures a == b
  {
    if x :| x in b && x !in a {
      SubsetCount(a, b - {x});
      assert false;
    }
  }
}
