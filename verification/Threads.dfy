/** The ring of threads (kernel/thread.c:66-81) and the round-robin step over it
    (kernel/schedule.c:50-73). */
module Threads {
  import opened Sets

  class Thread {
    var pid: nat
    var next: Thread?
    var prev: Thread?

    constructor (pid: nat)
      ensures this.pid == pid && next == null && prev == null
    {
      this.pid, next, prev := pid, null, null;
    }
  }

  function Succ(n: nat, k: nat): (j: nat)
    requires k < n
    ensures j < n
  {
    if k + 1 == n then 0 else k + 1
  }

  function Pred(n: nat, k: nat): (j: nat)
    requires k < n
    ensures j < n && Succ(n, j) == k
  {
    if k == 0 then n - 1 else k - 1
  }

  ghost predicate NeighboursAt(ring: seq<Thread>, k: nat)
    requires k < |ring|
    reads ring
  {
    ring[k].next == ring[Succ(|ring|, k)] && ring[k].prev == ring[Pred(|ring|, k)]
  }

  /** The threads form one circle in this order. */
  ghost predicate Ring(ring: seq<Thread>)
    reads ring
  {
    NoDup(ring) && forall k {:trigger NeighboursAt(ring, k)} :: 0 <= k < |ring| ==> NeighboursAt(ring, k)
  }

  /** Process identifiers are 32-bit and count threads from 0. */
  function Pid(k: nat): (r: nat)
    ensures r < 0x1_0000_0000
  {
    k % 0x1_0000_0000
  }

  lemma PidNext(k: nat)
    ensures (Pid(k) + 1) % 0x1_0000_0000 == Pid(k + 1)
  {
  }

  ghost predicate PidAt(ring: seq<Thread>, k: nat)
    requires k < |ring|
    reads ring
  {
    ring[k].pid == Pid(k)
  }

  /** The splice of thread_create: th goes between the last thread and the first. */
  method Splice(first: Thread, th: Thread, ghost ring: seq<Thread>)
    requires ring != [] && Ring(ring) && first == ring[0] && th !in ring
    modifies th`next, th`prev, ring
    ensures Ring(ring + [th]) && th.pid == old(th.pid) && forall t :: t in ring ==> t.pid == old(t.pid)
  {
    assert NeighboursAt(ring, 0);
    var last := first.prev;
    th.next := first;
    th.prev := last;
    last.next := th;
    first.prev := th;
    forall k | 0 <= k < |ring + [th]| ensures NeighboursAt(ring + [th], k) {
      assert k < |ring| ==> old(NeighboursAt(ring, k));
    }
  }

  class Scheduler {
    var threadTable: Thread?
    var currentThread: Thread?
    var pid: nat
    ghost var ring: seq<Thread>

    ghost predicate Valid()
      reads this, ring
    {
      && Ring(ring)
      && threadTable == (if ring == [] then null else ring[0])
      && (currentThread != null ==> currentThread in ring)
      && pid == Pid(|ring|)
      && forall k {:trigger PidAt(ring, k)} :: 0 <= k < |ring| ==> PidAt(ring, k)
    }

    constructor ()
      ensures Valid() && ring == [] && currentThread == null
    {
      threadTable, currentThread, pid, ring := null, null, 0, [];
    }

    /** thread_create: the new thread goes to the end of the ring, before the oldest one, and
        becomes the current one. */
    method ThreadCreate() returns (th: Thread)
      requires Valid()
      modifies this, ring
      ensures Valid() && fresh(th) && ring == old(ring) + [th] && currentThread == th
      ensures th.pid == old(pid)
    {
      th := new Thread(pid);
      PidNext(|ring|);
      pid := (pid + 1) % 0x1_0000_0000;
      if threadTable == null {
        threadTable := th;
        th.next := th;
        th.prev := th;
        assert NeighboursAt([th], 0);
      } else {
        Splice(threadTable, th, ring);
      }
      ring := ring + [th];
      currentThread := th;
      forall k | 0 <= k < |ring| ensures PidAt(ring, k) {
        assert k < |ring| - 1 ==> old(PidAt(ring, k));
      }
    }

    /** thread_int */
    method ThreadInit()
      requires Valid()
      modifies `currentThread
      ensures Valid() && currentThread == threadTable
    {
      currentThread := threadTable;
    }

    /** schedule */
    method Schedule()
      requires Valid()
      modifies `currentThread
      ensures Valid()
      ensures currentThread == if old(currentThread) == null then null else old(currentThread).next
      ensures forall k :: 0 <= k < |ring| && ring[k] == old(currentThread) ==> currentThread == ring[Succ(|ring|, k)]
    {
      var prev := currentThread;
      if prev == null {
        return;
      }
      ghost var p :| 0 <= p < |ring| && ring[p] == prev;
      assert NeighboursAt(ring, p);
      currentThread := prev.next;
      forall k | 0 <= k < |ring| && ring[k] == prev ensures currentThread == ring[Succ(|ring|, k)] {
        assert NeighboursAt(ring, k);
      }
    }
  }

  /** next and prev undo each other. */
  lemma Inverse(ring: seq<Thread>, t: Thread)
    requires Ring(ring) && t in ring
    ensures t.next != null && t.prev != null && t.next in ring && t.prev in ring
    ensures t.next.prev == t && t.prev.next == t
  {
    var k :| 0 <= k < |ring| && ring[k] == t;
    assert NeighboursAt(ring, k);
    assert NeighboursAt(ring, Succ(|ring|, k));
    assert NeighboursAt(ring, Pred(|ring|, k));
  }

  /** The threads current during the next n schedule steps, in turn. */
  ghost function Turns(ring: seq<Thread>, t: Thread, n: nat): (r: seq<Thread>)
    requires Ring(ring) && t in ring
    reads ring
    ensures |r| == n && forall x :: x in r ==> x in ring
    decreases n
  {
    if n == 0 then [] else (Inverse(ring, t); [t.next] + Turns(ring, t.next, n - 1))
  }

  /** The ring from just after place p round to place p. */
  function From<T>(ring: seq<T>, p: nat): (r: seq<T>)
    requires p < |ring|
    ensures |r| == |ring| && r[|r| - 1] == ring[p]
    ensures r[0] == ring[Succ(|ring|, p)]
  {
    ring[p + 1..] + ring[..p + 1]
  }

  lemma FromNext<T>(ring: seq<T>, p: nat, n: nat)
    requires p < |ring| && 0 < n <= |ring|
    ensures From(ring, p)[..n] == [From(ring, p)[0]] + From(ring, Succ(|ring|, p))[..n - 1]
  {
  }

  /** The turns from place p go round the ring from there. */
  lemma {:induction false} TurnsFollowRing(ring: seq<Thread>, p: nat, n: nat)
    requires Ring(ring) && p < |ring| && n <= |ring|
    ensures Turns(ring, ring[p], n) == From(ring, p)[..n]
    decreases n
  {
    if n > 0 {
      assert NeighboursAt(ring, p);
      TurnsFollowRing(ring, Succ(|ring|, p), n - 1);
      FromNext(ring, p, n);
    }
  }

  lemma FromPermutes(ring: seq<Thread>, p: nat)
    requires p < |ring| && NoDup(ring)
    ensures multiset(From(ring, p)) == multiset(ring) && NoDup(From(ring, p))
  {
    assert ring == ring[..p + 1] + ring[p + 1..];
  }

  /** Any |ring| consecutive schedule steps run every thread exactly once and end on the thread
      that was current. */
  lemma RoundRobin(ring: seq<Thread>, t: Thread)
    requires Ring(ring) && t in ring
    ensures var turns := Turns(ring, t, |ring|);
      multiset(turns) == multiset(ring) && NoDup(turns) && turns[|ring| - 1] == t
  {
    var p :| 0 <= p < |ring| && ring[p] == t;
    TurnsFollowRing(ring, p, |ring|);
    FromPermutes(ring, p);
    assert From(ring, p)[..|ring|] == From(ring, p);
  }

  /** A new thread takes the turn of whoever was to come next: after it the oldest thread
      runs. */
  lemma NewThreadRestarts(ring: seq<Thread>, th: Thread)
    requires ring != [] && Ring(ring) && th == ring[|ring| - 1]
    ensures Turns(ring, th, |ring|) == ring
  {
    TurnsFollowRing(ring, |ring| - 1, |ring|);
    assert From(ring, |ring| - 1)[..|ring|] == ring;
  }
}
