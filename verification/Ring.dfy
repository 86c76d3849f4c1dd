/** A fixed array used as a ring: frames, TLB entries, waiting-room chairs and history lines are all
    written at an index that moves round. */
module Ring {

  /** The successor of index i in a ring of n places. */
  function Next(i: nat, n: nat): (r: nat)
    requires i < n
    ensures r == if i + 1 < n then i + 1 else 0
  {
    (i + 1) % n
  }

  /** What the ring holds, oldest first, when the next write goes to `index`. */
  function Contents<T>(ring: seq<T>, index: nat, full: bool): (r: seq<T>)
    requires index <= |ring|
    ensures |r| == if full then |ring| else index
  {
    if full then ring[index..] + ring[..index] else ring[..index]
  }

  /** Writing while there is room appends. */
  lemma WriteAppends<T>(ring: seq<T>, index: nat, x: T)
    requires index < |ring|
    ensures Contents(ring[index := x], Next(index, |ring|), index + 1 == |ring|) == Contents(ring, index, false) + [x]
  {
  }

  /** Writing into a full ring drops the oldest and appends. */
  lemma WriteReplaces<T>(ring: seq<T>, index: nat, x: T)
    requires index < |ring|
    ensures Contents(ring[index := x], Next(index, |ring|), true) == Contents(ring, index, true)[1..] + [x]
  {
  }
}
