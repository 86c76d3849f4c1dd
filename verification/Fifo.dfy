/** First-in-first-out caching as a mathematical object: a queue of at most `cap` distinct pages.
    Both memory managers of Assignment 4 keep their frames, and one of them its TLB, in this order;
    the modules Mmu and Mmu2 prove so. Here are the properties of the policy itself. */
module Fifo {
  import opened Sequences

  /** The queue after page p is referenced, oldest page first. */
  function Touch(q: seq<int>, cap: nat, p: int): (r: seq<int>)
    requires 0 < cap
    ensures p in r
    ensures |q| <= cap ==> |r| <= cap
    ensures Distinct(q) ==> Distinct(r)
  {
    if p in q then q
    else if |q| < cap then q + [p]
    else q[1..] + [p]
  }

  /** The queue after a whole trace of references. */
  function Run(q: seq<int>, cap: nat, trace: seq<int>): seq<int>
    requires 0 < cap
    decreases trace
  {
    if trace == [] then q else Run(Touch(q, cap, trace[0]), cap, trace[1..])
  }

  /** How many references of the trace miss. */
  function Faults(q: seq<int>, cap: nat, trace: seq<int>): nat
    requires 0 < cap
    decreases trace
  {
    if trace == [] then 0
    else (if trace[0] in q then 0 else 1) + Faults(Touch(q, cap, trace[0]), cap, trace[1..])
  }

  /** The references that miss, in order: the pages loaded. */
  function Misses(q: seq<int>, cap: nat, trace: seq<int>): seq<int>
    requires 0 < cap
    decreases trace
  {
    if trace == [] then []
    else (if trace[0] in q then [] else [trace[0]]) + Misses(Touch(q, cap, trace[0]), cap, trace[1..])
  }

  lemma MissesFirst(q: seq<int>, cap: nat, trace: seq<int>)
    requires 0 < cap && trace != []
    ensures var misses, later := Misses(q, cap, trace), Misses(Touch(q, cap, trace[0]), cap, trace[1..]);
            if trace[0] in q then misses == later else misses != [] && misses[0] == trace[0] && misses[1..] == later
  {
  }

  function LastOf(s: seq<int>, n: nat): seq<int> {
    if |s| <= n then s else s[|s| - n..]
  }

  lemma TouchIsLast(q: seq<int>, cap: nat, p: int)
    requires 0 < cap && |q| <= cap && p !in q
    ensures Touch(q, cap, p) == LastOf(q + [p], cap)
  {
  }

  lemma TouchKeepsLast(q: seq<int>, cap: nat, p: int, later: seq<int>)
    requires 0 < cap && |q| <= cap && p !in q
    ensures LastOf(Touch(q, cap, p) + later, cap) == LastOf(q + ([p] + later), cap)
  {
    TouchIsLast(q, cap, p);
    LastOfLast(q + [p], later, cap);
    Regroup(q, p, later);
  }

  /** The queue is always the last `cap` pages loaded. */
  lemma {:induction false} QueueIsLastLoaded(q: seq<int>, cap: nat, trace: seq<int>)
    requires 0 < cap && |q| <= cap
    ensures Run(q, cap, trace) == LastOf(q + Misses(q, cap, trace), cap)
    decreases trace
  {
    if trace == [] {
      assert q + [] == q;
    } else {
      var p, later := trace[0], Misses(Touch(q, cap, trace[0]), cap, trace[1..]);
      QueueIsLastLoaded(Touch(q, cap, p), cap, trace[1..]);
      if p in q {
        assert Misses(q, cap, trace) == [] + later == later;
      } else {
        assert Misses(q, cap, trace) == [p] + later;
        TouchKeepsLast(q, cap, p, later);
      }
    }
  }

  /** One page is loaded for each fault. */
  lemma {:induction false} OneLoadPerFault(q: seq<int>, cap: nat, trace: seq<int>)
    requires 0 < cap
    ensures |Misses(q, cap, trace)| == Faults(q, cap, trace)
    decreases trace
  {
    if trace != [] {
      OneLoadPerFault(Touch(q, cap, trace[0]), cap, trace[1..]);
    }
  }

  lemma LastOfLast(a: seq<int>, b: seq<int>, n: nat)
    ensures LastOf(LastOf(a, n) + b, n) == LastOf(a + b, n)
  {
    assert |a| <= n || LastOf(a, n) + b == (a + b)[|a| - n..];
  }

  // ---------- lower bound: every distinct page faults at least once ----------

  lemma TouchBringsOnlyPage(q: seq<int>, cap: nat, p: int)
    requires 0 < cap
    ensures Elements(Touch(q, cap, p)) <= Elements(q) + {p}
  {
  }

  lemma {:induction false} DistinctPagesFault(q: seq<int>, cap: nat, trace: seq<int>)
    requires 0 < cap
    ensures |Elements(trace) - Elements(q)| <= Faults(q, cap, trace)
    decreases trace
  {
    if trace != [] {
      var p, rest := trace[0], trace[1..];
      var q' := Touch(q, cap, p);
      ElementsFirst(trace);
      TouchBringsOnlyPage(q, cap, p);
      DistinctPagesFault(q', cap, rest);
      var newPage := if p in q then {} else {p};
      var after := Elements(rest) - Elements(q');
      assert p in q ==> p in Elements(q);
      SubsetCount(Elements(trace) - Elements(q), after + newPage);
    }
  }

  /** While the pages in use fit, a miss adds its page and drops none. */
  lemma FittingMiss(q: seq<int>, cap: nat, p: int, rest: set<int>)
    requires 0 < cap && Distinct(q) && p !in q
    requires |Elements(q) + ({p} + rest)| <= cap
    ensures Elements(Touch(q, cap, p)) == Elements(q) + {p}
  {
    DistinctCount(q);
    assert p !in Elements(q);
    SubsetCount(Elements(q) + {p}, Elements(q) + ({p} + rest));
    ElementsAppend(q, p);
  }

  /** When the pages in use fit into the cache, nothing faults twice. */
  lemma {:induction false} FittingTraceFaultsOnce(q: seq<int>, cap: nat, trace: seq<int>)
    requires 0 < cap && Distinct(q)
    requires |Elements(q) + Elements(trace)| <= cap
    ensures Faults(q, cap, trace) == |Elements(trace) - Elements(q)|
    decreases trace
  {
    if trace != [] {
      var p, rest := trace[0], trace[1..];
      var q' := Touch(q, cap, p);
      ElementsFirst(trace);
      if p in q {
        assert p in Elements(q);
        assert Elements(trace) - Elements(q) == Elements(rest) - Elements(q);
        assert Elements(q) + Elements(trace) == Elements(q) + Elements(rest);
      } else {
        FittingMiss(q, cap, p, Elements(rest));
        assert p !in Elements(q);
        assert Elements(q') + Elements(rest) == Elements(q) + Elements(trace);
        assert Elements(trace) - Elements(q) == (Elements(rest) - Elements(q')) + {p};
      }
      FittingTraceFaultsOnce(q', cap, rest);
    }
  }

  // ---------- upper bound: FIFO against any other schedule ----------

  /** One reference under demand paging: only the page referenced may come in, anything may be dropped. */
  ghost predicate Serves(before: set<int>, page: int, after: set<int>, cap: nat) {
    page in after && after <= before + {page} && |after| <= cap
  }

  /** A demand-paging schedule for the trace: contents[i] is what the rival keeps resident just before
      reference i. */
  ghost predicate Schedule(contents: seq<set<int>>, cap: nat, trace: seq<int>)
    decreases trace
  {
    && |contents| == |trace| + 1
    && (trace != [] ==>
          Serves(contents[0], trace[0], contents[1], cap) && Schedule(contents[1..], cap, trace[1..]))
  }

  ghost function RivalFaults(contents: seq<set<int>>, trace: seq<int>): nat
    requires |contents| == |trace| + 1
  {
    if trace == [] then 0
    else (if trace[0] in contents[0] then 0 else 1) + RivalFaults(contents[1..], trace[1..])
  }

  /** Inside a phase of cap faults that began with the rival holding a subset of `held`: the last
      `done + 1` pages FIFO loaded are all in `held`, unless the rival has already paid for this phase. */
  ghost predicate InPhase(q: seq<int>, cap: nat, done: nat, paid: bool, held: set<int>, rival: set<int>) {
    && Distinct(q) && |q| <= cap
    && done < |q|
    && (!paid ==> |held| <= cap && rival <= held && forall i :: |q| - done - 1 <= i < |q| ==> q[i] in held)
  }

  /** What the rest of the trace may still cost FIFO beyond cap times what it costs the rival. */
  function Slack(cap: nat, done: nat, paid: bool): int {
    cap - 1 - done + if paid then cap else 0
  }

  /** When a phase is complete and unpaid, FIFO's queue is all of `held`, so its next fault is the rival's too. */
  lemma FullPhaseHoldsAll(q: seq<int>, cap: nat, held: set<int>, rival: set<int>)
    requires 0 < cap && InPhase(q, cap, cap - 1, false, held, rival)
    ensures held == Elements(q)
  {
    DistinctCount(q);
    assert Elements(q) <= held;
    SubsetEqual(Elements(q), held);
  }

  /** One reference moves the phase on: the cost to FIFO is covered by the slack and by what the rival pays. */
  lemma PhaseStep(q: seq<int>, cap: nat, p: int, done: nat, paid: bool, held: set<int>, rival: set<int>, rival': set<int>)
    returns (done': nat, paid': bool, held': set<int>)
    requires 0 < cap && Serves(rival, p, rival', cap)
    requires InPhase(q, cap, done, paid, held, rival)
    ensures InPhase(Touch(q, cap, p), cap, done', paid', held', rival')
    ensures (if p in q then 0 else 1) + Slack(cap, done', paid')
         <= (if p in rival then 0 else cap) + Slack(cap, done, paid)
  {
    var q', missed := Touch(q, cap, p), p !in rival;
    if p in q {
      done', paid', held' := done, paid || missed, held;
    } else if done < cap - 1 {
      done', paid', held' := done + 1, paid || missed, held;
      assert forall i :: 0 <= i < |q'| - 1 ==> q'[i] == q[i + (|q| - |q'| + 1)];
      assert q'[|q'| - 1] == p;
    } else {
      done', paid', held' := 0, paid && missed, rival';
      if !paid && !missed {
        FullPhaseHoldsAll(q, cap, held, rival);
        assert false;
      }
    }
  }

  lemma {:induction false} PhaseBound(
      q: seq<int>, cap: nat, trace: seq<int>, contents: seq<set<int>>, done: nat, paid: bool, held: set<int>)
    requires 0 < cap && Schedule(contents, cap, trace)
    requires InPhase(q, cap, done, paid, held, contents[0])
    ensures Faults(q, cap, trace) <= cap * RivalFaults(contents, trace) + Slack(cap, done, paid)
    decreases trace
  {
    if trace != [] {
      var p := trace[0];
      var done', paid', held' := PhaseStep(q, cap, p, done, paid, held, contents[0], contents[1]);
      PhaseBound(Touch(q, cap, p), cap, trace[1..], contents[1..], done', paid', held');
      Distribute(cap, RivalFaults(contents[1..], trace[1..]));
    }
  }

  lemma Distribute(c: nat, n: nat)
    ensures c * (1 + n) == c + c * n
  {
  }

  /** FIFO with cap frames never faults more than cap times as often as any demand-paging schedule
      with cap frames that, like FIFO, starts empty. */
  lemma {:induction false} Competitive(cap: nat, trace: seq<int>, contents: seq<set<int>>)
    requires 0 < cap && Schedule(contents, cap, trace) && contents[0] == {}
    ensures Faults([], cap, trace) <= cap * RivalFaults(contents, trace)
  {
    if trace != [] {
      var p, rest, contents' := trace[0], trace[1..], contents[1..];
      PhaseBound(Touch([], cap, p), cap, rest, contents', 0, false, contents[1]);
      Distribute(cap, RivalFaults(contents', rest));
    }
  }
}
