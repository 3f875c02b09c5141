/** The run queue and the blocker queues of one CPU. All of them are intrusive doubly linked lists through
    the same `prev`/`next` pair of a thread, so a thread can be linked in one of them at a time. */
module Scheduler {
  import opened RoundRobin

  datatype RunState = Running | Runnable | InterruptibleSleep | UninterruptibleSleep | Zombie | Stopped

  predicate Asleep(s: RunState) {
    s == InterruptibleSleep || s == UninterruptibleSleep
  }

  class Thread {
    var prev: Thread?
    var next: Thread?
    var inQueue: bool
    var state: RunState
    var blocker: Queue?
    var realtime: bool
    /** The list the thread is linked in, if any. */
    ghost var home: Queue?
  }

  /** The threads of a list without one of them. */
  ghost function Without(q: seq<Thread>, t: Thread): seq<Thread> {
    if q == [] then [] else if q[0] == t then q[1..] else [q[0]] + Without(q[1..], t)
  }

  lemma {:induction false} WithoutAt(q: seq<Thread>, i: nat)
    requires i < |q| && forall j {:trigger q[j]} :: 0 <= j < i ==> q[j] != q[i]
    ensures Without(q, q[i]) == q[..i] + q[i + 1..]
  {
    if i > 0 {
      WithoutAt(q[1..], i - 1);
      assert q[..i] == [q[0]] + q[1..][..i - 1];
    }
  }

  function Some(t: Thread?): set<Thread> {
    if t == null then {} else {t}
  }

  /** A head and a tail pointer, as in `struct blocker` and `struct sched_wq`. */
  class Queue {
    var head: Thread?
    var tail: Thread?
    /** The linked threads, first to last. */
    ghost var q: seq<Thread>

    constructor ()
      ensures Linked() && q == []
    {
      head, tail, q := null, null, [];
    }

    ghost predicate LinkedAt(i: nat)
      requires i < |q|
      reads this, q`prev, q`next, q`home
    {
      && q[i].home == this
      && q[i].prev == (if i == 0 then null else q[i - 1])
      && q[i].next == (if i == |q| - 1 then null else q[i + 1])
    }

    ghost predicate Linked()
      reads this, q`prev, q`next, q`home
    {
      && (forall i, j :: 0 <= i < j < |q| ==> q[i] != q[j])
      && head == (if q == [] then null else q[0])
      && tail == (if q == [] then null else q[|q| - 1])
      && forall i: nat {:trigger LinkedAt(i)} :: i < |q| ==> LinkedAt(i)
    }

    /** `thread_intrusive_add`. The test on the links recognises a thread that has a neighbour in some list. A thread
        that is alone in this list passes it and becomes its own predecessor. */
    method Add(t: Thread) returns (ok: bool)
      requires Linked()
      modifies this`head, this`tail, this`q, t`prev, t`next, t`home, Some(tail)`next
      ensures ok <==> old(t.prev) == null && old(t.next) == null
      ensures !ok ==> unchanged(this, t, Some(old(tail)))
      ensures ok && old(q) != [t] ==> Linked() && q == old(q) + [t] && t.home == this && old(t !in q)
      ensures ok && old(q) == [t] ==> !Linked() && q == old(q) && t.prev == t
    {
      if t.prev != null || t.next != null {
        return false;
      }
      forall i: nat | i < |q| && q != [t] ensures q[i] != t { assert LinkedAt(i); }
      if head == null {
        head := t;
        t.prev := null;
      } else {
        assert LinkedAt(|q| - 1);
        tail.next := t;
        t.prev := tail;
      }
      t.next := null;
      tail := t;
      ok := true;
      if q == [t] {
        assert !LinkedAt(0);
      } else {
        t.home := this;
        q := q + [t];
        forall i: nat | i < |q| ensures LinkedAt(i) {
          assert i < |old(q)| ==> old(LinkedAt(i));
        }
      }
    }

    /** `thread_intrusive_remove` of a thread that is in the list. */
    method Remove(t: Thread, ghost k: nat)
      requires Linked() && k < |q| && q[k] == t
      modifies this`head, this`tail, this`q, t`prev, t`next, t`home, Some(t.prev)`next, Some(t.next)`prev
      ensures Linked() && q == old(q)[..k] + old(q)[k + 1..]
      ensures t.home == null && t.prev == null && t.next == null
    {
      assert LinkedAt(k);
      assert k > 0 ==> LinkedAt(k - 1);
      assert k + 1 < |q| ==> LinkedAt(k + 1);
      var prev, next := t.prev, t.next;
      assert prev == null <==> head == t;
      assert next == null <==> tail == t;
      if prev != null {
        prev.next := next;
      }
      if next != null {
        next.prev := prev;
      }
      if head == t {
        head := next;
        if head != null { head.prev := null; }
      }
      if tail == t {
        tail := prev;
        if tail != null { tail.next := null; }
      }
      t.next := null;
      t.prev := null;
      t.home := null;
      q := q[..k] + q[k + 1..];
      Spliced(k);
    }

    /** The neighbours of the thread at position `k` have been joined. */
    twostate lemma Spliced(k: nat)
      requires old(Linked()) && k < |old(q)| && q == old(q)[..k] + old(q)[k + 1..]
      requires head == (if q == [] then null else q[0]) && tail == (if q == [] then null else q[|q| - 1])
      requires forall i {:trigger old(q)[i]} :: 0 <= i < |old(q)| && i != k ==>
                 var u := old(q)[i];
                 && u.home == old(u.home)
                 && u.prev == (if i == k + 1 then old(q[k].prev) else old(u.prev))
                 && u.next == (if i + 1 == k then old(q[k].next) else old(u.next))
      ensures Linked()
    {
      assert old(LinkedAt(k));
      forall i: nat | i < |q| ensures LinkedAt(i) {
        assert old(LinkedAt(if i < k then i else i + 1));
      }
    }
  }

  class Cpu {
    const run: Queue
    /** `size` of the run queue. */
    var size: nat
    var current: Thread?
    ghost const blockers: set<Queue>
    ghost const threads: set<Thread>

    constructor (ghost blockers: set<Queue>, ghost threads: set<Thread>)
      requires forall b :: b in blockers ==> b.Linked() && b.q == []
      requires forall t :: t in threads ==> t.prev == t.next == null && t.blocker == t.home == null && !t.inQueue
      ensures Valid() && fresh(run) && run.q == [] && current == null
      ensures this.blockers == blockers && this.threads == threads
    {
      run := new Queue();
      size, current := 0, null;
      this.blockers, this.threads := blockers, threads;
    }

    ghost function Queues(): set<Queue> {
      blockers + {run}
    }

    ghost predicate Homed(t: Thread)
      reads t`prev, t`next, t`home, Queues()`q
    {
      if t.home == null then t.prev == null && t.next == null else t.home in Queues() && t in t.home.q
    }

    ghost predicate Chain(b: Queue)
      reads b, threads`prev, threads`next, threads`home
    {
      (forall t :: t in b.q ==> t in threads) && b.Linked()
    }

    /** Every queue is a well-formed list, and no thread is linked outside its home. */
    ghost predicate Chains()
      reads Queues(), threads`prev, threads`next, threads`home
    {
      && run !in blockers
      && (forall b {:trigger Chain(b)} :: b in Queues() ==> Chain(b))
      && (forall t {:trigger Homed(t)} :: t in threads ==> Homed(t))
    }

    ghost predicate Marked(t: Thread)
      reads t
    {
      && (t.inQueue <==> t.home == run)
      && t.blocker == (if t.home in blockers then t.home else null)
      && (t.home in blockers ==> Asleep(t.state))
    }

    ghost predicate Valid()
      reads this, Queues(), threads
    {
      && Chains()
      && size == |run.q|
      && (forall t {:trigger Marked(t)} :: t in threads ==> Marked(t))
      && (current != null ==> current in threads)
    }

    /** A change to one queue and to the links of its own threads leaves the other queues alone. */
    twostate lemma Relinked(b: Queue)
      requires old(Chains()) && b in Queues() && Chain(b)
      requires forall c :: c in Queues() && c != b ==> c.q == old(c.q) && c.head == old(c.head) && c.tail == old(c.tail)
      requires forall u :: u in threads && old(u.home) != null && old(u.home) != b ==>
                 u.prev == old(u.prev) && u.next == old(u.next) && u.home == old(u.home)
      requires forall u :: u in threads && old(u.home) in {null, b} ==>
                 if u.home == null then u.prev == null && u.next == null else u.home == b && u in b.q
      ensures Chains()
    {
      forall c | c in Queues() && c != b ensures Chain(c) {
        assert old(Chain(c));
        forall i: nat | i < |c.q| ensures c.LinkedAt(i) { assert old(c.LinkedAt(i)); }
      }
      forall u | u in threads ensures Homed(u) { assert old(Homed(u)); }
    }

    lemma PlaceOf(b: Queue, t: Thread) returns (k: nat)
      requires Chains() && b in Queues() && t in threads && t.home == b
      ensures k < |b.q| && b.q[k] == t && b.Linked()
      ensures Some(t.prev) + Some(t.next) <= threads
      ensures forall u :: u in Some(t.prev) + Some(t.next) ==> u.home == b
    {
      assert Chain(b) && Homed(t);
      k :| k < |b.q| && b.q[k] == t;
      assert b.LinkedAt(k);
      assert k > 0 ==> b.LinkedAt(k - 1);
      assert k + 1 < |b.q| ==> b.LinkedAt(k + 1);
    }

    method Unlink(b: Queue, t: Thread)
      requires Chains() && b in Queues() && t in threads && t.home == b
      modifies b`head, b`tail, b`q, threads`prev, threads`next, threads`home
      ensures Chains() && t.home == null && b.q == Without(old(b.q), t)
      ensures forall u :: u in threads && u != t ==> u.home == old(u.home)
    {
      ghost var k := PlaceOf(b, t);
      WithoutAt(b.q, k);
      ghost var was := b.q;
      b.Remove(t, k);
      assert old(Chain(b)) && forall u {:trigger Homed(u)} :: u in threads ==> old(Homed(u));
      hide Chains, Queue.Linked, Without;
      forall u | u in threads && old(u.home) in {null, b}
        ensures if u.home == null then u.prev == null && u.next == null else u.home == b && u in b.q
      {
        assert old(Homed(u));
      }
      assert forall u :: u in b.q ==> u in was;
      Relinked(b);
    }

    /** A thread at the end of one queue and at the front of another cannot be: it has one home. */
    lemma OneHome(b: Queue, c: Queue, t: Thread)
      requires Chains() && b in Queues() && c in Queues() && b.tail == t && c.head == t
      ensures b == c
    {
      assert Chain(b) && Chain(c);
      assert b.LinkedAt(|b.q| - 1) && c.LinkedAt(0);
    }

    /** A linked thread without neighbours is alone in its queue. */
    lemma Alone(t: Thread)
      requires Chains() && t in threads && t.home != null
      ensures t.home in Queues() && t in t.home.q
      ensures t.prev == null && t.next == null <==> t.home.q == [t]
    {
      assert Homed(t) && Chain(t.home);
      var k: nat :| k < |t.home.q| && t.home.q[k] == t;
      assert t.home.LinkedAt(k);
    }

    method Link(b: Queue, t: Thread) returns (ok: bool)
      requires Chains() && b in Queues() && t in threads && b.q != [t]
      modifies b`head, b`tail, b`q, threads`prev, threads`next, threads`home
      ensures ok <==> old(t.home) == null || old(t.home.q) == [t]
      ensures !ok ==> Chains() && b.q == old(b.q) && t.home == old(t.home)
      ensures ok ==> b.q == old(b.q) + [t] && t.home == b
      ensures ok ==> (Chains() <==> old(t.home) == null)
      ensures forall u :: u in threads && u != t ==> u.home == old(u.home)
    {
      assert Chain(b) && Homed(t);
      if t.home != null { Alone(t); }
      assert b.tail != null ==> b.LinkedAt(|b.q| - 1);
      ok := b.Add(t);
      assert old(Chain(b)) && forall u {:trigger Homed(u)} :: u in threads ==> old(Homed(u));
      if ok && old(t.home) == null {
        hide Chains, Queue.Linked;
        forall u | u in threads && old(u.home) in {null, b}
          ensures if u.home == null then u.prev == null && u.next == null else u.home == b && u in b.q
        {
          assert old(Homed(u));
        }
        Relinked(b);
      } else if ok {
        assert old(Chain(t.home));
        if Chains() { OneHome(b, old(t.home), t); }
      }
    }

    /** `wq_add_thread`. A thread waiting in another queue is turned away if it has a neighbour there, and is
        linked a second time if it has none. */
    method WqAdd(t: Thread)
      requires Chains() && t in threads && size == |run.q| && (t.inQueue <==> t.home == run)
      modifies this`size, t`inQueue, run`head, run`tail, run`q, threads`prev, threads`next, threads`home
      ensures run.q == if old(t.home) == null || (old(t.home) != run && old(t.home.q) == [t]) then old(run.q) + [t] else old(run.q)
      ensures Chains() <==> old(t.home) == null || old(t.home) == run || old(t.home.q) != [t]
      ensures size == |run.q| && (t.inQueue <==> t.home == run)
      ensures t.home == if old(t.home) == null || old(t.home.q) == [t] then run else old(t.home)
      ensures forall u :: u in threads && u != t ==> u.home == old(u.home)
    {
      assert Homed(t);
      if t.inQueue {
        return;
      }
      assert run.q == [t] ==> Chain(run) && run.LinkedAt(0);
      var ok := Link(run, t);
      if ok {
        size := size + 1;
        t.inQueue := true;
      }
    }

    /** `wq_remove_thread`. */
    method WqRemove(t: Thread)
      requires Chains() && t in threads && size == |run.q| && (t.inQueue <==> t.home == run)
      modifies this`size, t`inQueue, run`head, run`tail, run`q, threads`prev, threads`next, threads`home
      ensures Chains() && size == |run.q| && !t.inQueue
      ensures run.q == if old(t.home) == run then Without(old(run.q), t) else old(run.q)
      ensures t.home == if old(t.home) == run then null else old(t.home)
      ensures forall u :: u in threads && u != t ==> u.home == old(u.home)
    {
      assert Homed(t);
      if !t.inQueue {
        return;
      }
      if size == 0 {
        return;
      }
      Unlink(run, t);
      WithoutCount(old(run.q), t);
      size := size - 1;
      t.inQueue := false;
    }

    /** What the invariant says of a thread: it is in at most one queue, the flag and the blocker field say in
        which, and whoever waits for a blocker is asleep. */
    lemma OneQueue(t: Thread, b: Queue)
      requires Valid() && t in threads && b in blockers
      ensures t in run.q <==> t.inQueue
      ensures t in b.q <==> t.blocker == b
      ensures t in b.q ==> t !in run.q && Asleep(t.state) && forall c :: c in blockers && t in c.q ==> c == b
      ensures size == |run.q|
    {
      assert Homed(t) && Marked(t);
      forall c | c in Queues() && t in c.q ensures t.home == c {
        assert Chain(c);
        var i: nat :| i < |c.q| && c.q[i] == t;
        assert c.LinkedAt(i);
      }
    }

    // ----- scheduler operations

    /** `scheduler_add_thread`. Keeps the invariant exactly for a thread that is not the only one waiting in
        some blocker: its empty links look like those of an unlinked thread. */
    method AddThread(t: Thread)
      requires Valid() && t in threads
      modifies this`size, t`inQueue, run`head, run`tail, run`q, threads`prev, threads`next, threads`home
      ensures Valid() <==> old(t.blocker) == null || old(t.prev) != null || old(t.next) != null
      ensures run.q == if old(t.inQueue) || old(t.prev) != null || old(t.next) != null then old(run.q) else old(run.q) + [t]
      ensures forall u :: u in threads && u != t ==> u.home == old(u.home)
    {
      assert Marked(t) && Homed(t);
      if t.home != null { Alone(t); }
      WqAdd(t);
      forall u | u in threads && u != t ensures Marked(u) { assert old(Marked(u)); }
    }

    /** `scheduler_remove_thread`. */
    method RemoveThread(t: Thread)
      requires Valid() && t in threads
      modifies this`size, t`inQueue, run`head, run`tail, run`q, threads`prev, threads`next, threads`home
      ensures Valid() && run.q == if old(t.inQueue) then Without(old(run.q), t) else old(run.q)
      ensures t.home == if old(t.inQueue) then null else old(t.home)
      ensures forall u :: u in threads && u != t ==> u.home == old(u.home)
    {
      assert Marked(t);
      WqRemove(t);
      forall u | u in threads ensures Marked(u) { assert old(Marked(u)); }
    }

    /** `scheduler_sleep_on`, up to the switch to another thread: the running thread leaves the run queue
        and joins the end of the blocker's queue. */
    method SleepOn(b: Queue)
      requires Valid() && b in blockers && current != null && current.blocker == null
      modifies this`size, run, b, current, threads`prev, threads`next, threads`home
      ensures Valid() && b.q == old(b.q) + [current] && current.home == b && current.state == InterruptibleSleep
      ensures current.next == null
      ensures run.q == if old(current.inQueue) then Without(old(run.q), current) else old(run.q)
      ensures forall u :: u in threads && u != current ==> u.home == old(u.home)
    {
      assert Marked(current) && Homed(current);
      current.blocker := b;
      current.state := InterruptibleSleep;
      WqRemove(current);
      assert b.q == [current] ==> Chain(b) && b.LinkedAt(0);
      var ok := Link(b, current);
      assert Chain(b) && b.LinkedAt(|b.q| - 1);
      hide Chains, Chain, Queue.LinkedAt, Homed, Without;
      forall u | u in threads ensures Marked(u) { assert old(Marked(u)); }
    }

    /** `scheduler_sleep`, up to the switch: out of the run queue, into none. */
    method Sleep()
      requires Valid() && current != null && current.blocker == null
      modifies this`size, run, current, threads`prev, threads`next, threads`home
      ensures Valid() && current.home == null && current.state == InterruptibleSleep
      ensures run.q == if old(current.inQueue) then Without(old(run.q), current) else old(run.q)
      ensures forall u :: u in threads && u != current ==> u.home == old(u.home)
    {
      assert Marked(current) && Homed(current);
      current.state := InterruptibleSleep;
      WqRemove(current);
      forall u | u in threads ensures Marked(u) { assert old(Marked(u)); }
    }

    /** A waiting thread leaves the queue of its blocker. */
    method Leave(b: Queue, t: Thread)
      requires Valid() && b in blockers && t in threads && t.home == b
      modifies b, t`blocker, threads`prev, threads`next, threads`home
      ensures Valid() && t.home == null && t.blocker == null && b.q == Without(old(b.q), t)
      ensures forall u :: u in threads && u != t ==> u.home == old(u.home)
    {
      Unlink(b, t);
      t.blocker := null;
      forall u | u in threads ensures Marked(u) { assert old(Marked(u)); }
    }

    /** A thread that waits nowhere becomes runnable, at the end of the run queue unless it is in it. */
    method Resume(t: Thread)
      requires Valid() && t in threads && t.blocker == null
      modifies this`size, t`inQueue, t`state, run, threads`prev, threads`next, threads`home
      ensures Valid() && t.state == Runnable && t.home == run
      ensures run.q == if old(t.inQueue) then old(run.q) else old(run.q) + [t]
      ensures forall u :: u in threads && u != t ==> u.home == old(u.home)
    {
      assert Marked(t) && Homed(t);
      WqAdd(t);
      t.state := Runnable;
      forall u | u in threads ensures Marked(u) { assert old(Marked(u)); }
    }

    /** `scheduler_wakeup`. */
    method Wakeup(t: Thread)
      requires Valid() && t in threads
      modifies this`size, t, run, blockers, threads`prev, threads`next, threads`home
      ensures Valid()
      ensures !old(Asleep(t.state)) ==> run.q == old(run.q) && t.home == old(t.home) && t.state == old(t.state)
      ensures old(Asleep(t.state)) ==> t.home == run && t.state == Runnable
      ensures old(Asleep(t.state)) ==> run.q == if old(t.inQueue) then old(run.q) else old(run.q) + [t]
      ensures forall b :: b in blockers ==> b.q == if old(Asleep(t.state)) && b == old(t.blocker) then Without(old(b.q), t) else old(b.q)
      ensures forall u :: u in threads && u != t ==> u.home == old(u.home)
    {
      if Asleep(t.state) {
        assert Marked(t);
        if t.blocker != null {
          Leave(t.blocker, t);
        }
        Resume(t);
      }
    }

    /** What waking the first `k` threads of a queue `w` does. */
    twostate predicate Woken(b: Queue, w: seq<Thread>, k: nat)
      requires k <= |w| && b in Queues()
      reads Queues(), threads
    {
      && b.q == w[k..]
      && run.q == old(run.q) + w[..k]
      && (forall t :: t in w[..k] ==> t in threads && t.state == Runnable)
      && (forall u :: u in threads && u !in w[..k] ==> u.home == old(u.home) && u.state == old(u.state))
    }

    /** The body of the loop of `scheduler_wakeup_intrusive` while there are threads left to wake. */
    method WakeFirst(b: Queue, t: Thread)
      requires Valid() && b in blockers && b.q != [] && t == b.q[0]
      modifies this`size, run, b, threads
      ensures Valid() && b.q == old(b.q)[1..] && run.q == old(run.q) + [t]
      ensures t.state == Runnable
      ensures forall u :: u in threads && u != t ==> u.home == old(u.home) && u.state == old(u.state)
    {
      assert Chain(b) && b.LinkedAt(0) && Marked(t);
      Leave(b, t);
      if Asleep(t.state) {
        Resume(t);
      }
    }

    /** `scheduler_wake`: moves exactly the first `max` waiting threads, or all if there are fewer, in order, to
        the end of the run queue. */
    method Wake(b: Queue, max: nat) returns (unblocked: nat)
      requires Valid() && b in blockers
      modifies this`size, run, b, threads
      ensures Valid()
      ensures unblocked == if max < |old(b.q)| then max else |old(b.q)|
      ensures Woken(b, old(b.q), unblocked)
    {
      ghost var w := b.q;
      ghost var i := 0;
      unblocked := 0;
      var thread := b.head;
      var next := thread;
      assert Chain(b);
      while thread != null
        invariant Valid() && i <= |w|
        invariant unblocked == if max < i then max else i
        invariant Woken(b, w, unblocked)
        invariant next == thread == if i < |w| then w[i] else null
        decreases |w| - i
      {
        assert Chain(b) && b.LinkedAt(i - unblocked);
        next := next.next;
        if unblocked < max {
          WakeFirst(b, thread);
          unblocked := unblocked + 1;
        }
        thread := next;
        i := i + 1;
      }
    }

    // ----- choosing the next thread

    /** Where the scan after the running thread begins: behind it, or at the front if it has just left the queue. */
    ghost predicate ScanStart(start: nat)
      reads this, current, run`q
    {
      && start <= |run.q|
      && (current != null ==>
            if current.inQueue then start > 0 && run.q[start - 1] == current else start == 0 && current.next == null)
    }

    lemma ScanStartExists() returns (start: nat)
      requires Valid() && (current != null ==> current.inQueue || current.next == null)
      ensures ScanStart(start)
    {
      start := 0;
      if current != null && current.inQueue {
        assert Marked(current) && Homed(current);
        var k: nat :| k < |run.q| && run.q[k] == current;
        start := k + 1;
      }
    }

    /** The next thread of the run queue, the first one after the last. */
    function After(t: Thread): Thread?
      reads t, run
    {
      if t.next == null then run.head else t.next
    }

    /** One step of a scan. */
    lemma ScanStep(t: Thread, start: nat, c: nat)
      requires Valid() && start <= |run.q| && c < |run.q|
      requires c > 0 ==> t == run.q[Seat(|run.q|, start, c - 1)]
      requires c == 0 && start > 0 ==> t == run.q[start - 1]
      requires c == 0 && start == 0 ==> t.next == null
      ensures After(t) == run.q[Seat(|run.q|, start, c)]
    {
      assert Chain(run);
      assert c + start > 0 ==> run.LinkedAt(if c > 0 then Seat(|run.q|, start, c - 1) else start - 1);
    }

    /** `scheduler_next_realtime_thread`. The scan always begins after the head of the queue. */
    method NextRealtime() returns (t: Thread?)
      requires Valid()
      ensures Valid()
      ensures var p := FirstRealtime(run.q); t == if p < 0 then null else run.q[p]
    {
      ghost var q, flags := run.q, RealtimeFlags(run.q);
      QueueEnds();
      assert size == |q|;
      hide Valid, NextTurn, Turns, Seat, RealtimeFlags;
      if run.head == null {
        return null;
      }
      var thread := run.head;
      var checked := 0;
      while checked != size
        invariant Valid() && run.q == q && size == |q| && flags == RealtimeFlags(q) && checked <= |q|
        invariant checked > 0 ==> thread == q[Seat(|q|, 1, checked - 1)]
        invariant checked == 0 ==> thread == q[0]
        invariant Skipped(flags, 1, checked)
      {
        ScanStep(thread, 1, checked);
        thread := After(thread);
        if Realtime(thread) {
          FirstTurn(flags, 1, checked);
          return thread;
        }
        checked := checked + 1;
      }
      NoTurn(flags, 1);
      return null;
    }

    /** `scheduler_get_next_runnable_thread`: a runnable realtime thread if there is one, otherwise the first
        runnable thread after the running one, in queue order and around, and the idle thread if there is none. */
    method NextRunnable(idle: Thread, ghost start: nat) returns (t: Thread)
      requires Valid() && ScanStart(start)
      ensures Valid()
      ensures run.q == [] ==> t == idle
      ensures var p := FirstRealtime(run.q); p >= 0 ==> t == run.q[p]
      ensures run.q != [] && FirstRealtime(run.q) < 0 && current == null ==> t == run.q[0]
      ensures run.q != [] && FirstRealtime(run.q) < 0 && current != null ==>
                var p := FirstRunnable(run.q, start); t == if p < 0 then idle else run.q[p]
    {
      QueueEnds();
      hide Valid, FirstRealtime, FirstRunnable;
      if size == 0 {
        return idle;
      }
      var thread: Thread? := NextRealtime();
      if thread != null {
        return thread;
      }
      if current == null {
        return run.head;
      }
      t := ScanAfter(current, idle, start);
    }

    lemma QueueEnds()
      requires Valid()
      ensures run.head == if run.q == [] then null else run.q[0]
      ensures size == |run.q|
    {
      assert Chain(run);
    }

    method ScanAfter(from: Thread, idle: Thread, ghost start: nat) returns (t: Thread)
      requires Valid() && run.q != [] && start <= |run.q|
      requires if start == 0 then from.next == null else run.q[start - 1] == from
      ensures Valid()
      ensures var p := FirstRunnable(run.q, start); t == if p < 0 then idle else run.q[p]
    {
      ghost var q, flags := run.q, RunnableFlags(run.q);
      QueueEnds();
      hide Valid, NextTurn, Turns, Seat, RunnableFlags;
      var thread := from;
      var checked := 0;
      while checked != size
        invariant Valid() && run.q == q && size == |q| && flags == RunnableFlags(q) && checked <= |q|
        invariant checked > 0 ==> thread == q[Seat(|q|, start, checked - 1)]
        invariant checked == 0 ==> thread == from && (start == 0 ==> from.next == null)
        invariant Skipped(flags, start, checked)
      {
        ScanStep(thread, start, checked);
        thread := After(thread);
        if thread.state == Runnable {
          FirstTurn(flags, start, checked);
          return thread;
        }
        checked := checked + 1;
      }
      NoTurn(flags, start);
      return idle;
    }

    // ----- switching

    /** Nobody but the running thread is marked as running, and no realtime thread is ready. */
    ghost predicate Steady()
      reads this, run, run.q
    {
      forall t :: t in run.q ==> (t.state == Running ==> t == current) && !(Ready(t) && t.realtime)
    }

    /** A thread that is awake may be marked as running or runnable. */
    method Mark(t: Thread, s: RunState)
      requires Valid() && t in threads && !Asleep(t.state) && !Asleep(s)
      modifies t`state
      ensures Valid() && t.state == s
    {
      assert Marked(t);
      assert forall c {:trigger Chain(c)} :: c in Queues() ==> Chain(c);
      assert forall u {:trigger Homed(u)} :: u in threads ==> Homed(u);
      t.state := s;
      forall u | u in threads ensures Marked(u) { assert old(Marked(u)); }
    }

    method SetCurrent(t: Thread)
      requires Valid() && t in threads
      modifies this`current
      ensures Valid() && current == t
    {
      current := t;
    }

    lemma CurrentKnown()
      requires Valid()
      ensures current != null ==> current in threads
    {
    }

    /** The pick is awake. */
    lemma AwakeOnly(t: Thread, idle: Thread, start: nat)
      requires start <= |run.q| && !Asleep(idle.state)
      requires t == if run.q == [] || FirstRunnable(run.q, start) < 0 then idle else run.q[FirstRunnable(run.q, start)]
      ensures !Asleep(t.state)
    {
    }

    lemma QueuedKnown()
      requires Valid()
      ensures forall t :: t in run.q ==> t in threads
    {
      assert Chain(run);
    }

    /** The running thread becomes runnable unless it has blocked. */
    method Yield()
      requires Valid() && Steady() && current != null
      modifies current`state
      ensures Valid() && RunnableFlags(run.q) == old(ReadyFlags(run.q)) && FirstRealtime(run.q) < 0
      ensures forall t :: t in run.q ==> t.state != Running && !(t.state == Runnable && t.realtime)
      ensures Asleep(current.state) <==> old(Asleep(current.state))
    {
      hide Valid, NextTurn, Turns;
      CurrentKnown();
      if current.state == Running {
        Mark(current, Runnable);
      }
    }

    /** The thread picked runs. */
    method Dispatch(idle: Thread, ghost start: nat) returns (t: Thread)
      requires Valid() && ScanStart(start) && current != null && idle in threads && !Asleep(idle.state)
      requires FirstRealtime(run.q) < 0
      modifies this`current, threads`state
      ensures Valid() && current == t && t.state == Running
      ensures forall u :: u in threads && u != t ==> u.state == old(u.state)
      ensures t == if run.q == [] || old(FirstRunnable(run.q, start)) < 0 then idle else run.q[old(FirstRunnable(run.q, start))]
    {
      hide Valid, NextTurn, Turns, FirstRealtime;
      QueuedKnown();
      t := NextRunnable(idle, start);
      AwakeOnly(t, idle, start);
      Mark(t, Running);
      SetCurrent(t);
    }

    lemma PickIs(ready: seq<bool>, start: nat)
      requires RunnableFlags(run.q) == ready && start <= |run.q|
      ensures FirstRunnable(run.q, start) == NextTurn(ready, start)
      ensures forall i :: 0 <= i < |run.q| ==> (run.q[i].state == Runnable <==> ready[i])
    {
    }

    /** The switch in `scheduler_handler`. Without realtime threads the pick is the next ready thread after the running
        one, itself last. */
    method Switch(idle: Thread, ghost start: nat) returns (t: Thread)
      requires Valid() && ScanStart(start) && Steady() && current != null && idle in threads && idle !in run.q && !Asleep(idle.state)
      modifies this`current, threads`state
      ensures Valid() && current == t && t.state == Running && Steady() && ReadyFlags(run.q) == old(ReadyFlags(run.q))
      ensures var p := NextTurn(old(ReadyFlags(run.q)), start); t == if p < 0 then idle else run.q[p]
      ensures !Asleep(idle.state)
    {
      hide Valid, NextTurn, Turns, FirstRealtime, FirstRunnable, RunnableFlags;
      CurrentKnown();
      QueuedKnown();
      ghost var q, ready := run.q, ReadyFlags(run.q);
      Yield();
      PickIs(ready, start);
      t := Dispatch(idle, start);
      assert forall i :: 0 <= i < |q| ==> Ready(q[i]) == ready[i];
    }

    lemma Queued(k: nat)
      requires Valid() && k < |run.q|
      ensures run.q[k].inQueue
    {
      assert Chain(run) && run.LinkedAt(k);
      assert Marked(run.q[k]);
    }

    lemma Distinct()
      requires Valid()
      ensures forall i, j :: 0 <= i < j < |run.q| ==> run.q[i] != run.q[j]
    {
      assert Chain(run);
    }

    /** As many switches as there are ready threads, while the queue stays as it is and no realtime thread is ready: each
        ready thread runs exactly once. */
    method Round(idle: Thread, k: nat, ghost start: nat) returns (picked: seq<Thread>)
      requires Valid() && ScanStart(start) && Steady() && current != null && idle in threads && idle !in run.q && !Asleep(idle.state)
      requires k == |Turns(ReadyFlags(run.q), start)|
      modifies this`current, threads`state
      ensures Valid() && |picked| == k
      ensures forall i: nat :: i < |run.q| ==> multiset(picked)[run.q[i]] == if old(Ready(run.q[i])) then 1 else 0
    {
      hide Valid, NextTurn, Turns, Marked;
      ghost var q, ready := run.q, ReadyFlags(run.q);
      ghost var at: nat := start;
      ghost var turns := Turns(ready, start);
      picked := [];
      while |picked| < k
        invariant |picked| <= k && at <= |q|
        invariant Valid() && ScanStart(at) && Steady() && current != null && !Asleep(idle.state)
        invariant ReadyFlags(q) == ready && Turns(ready, at) == turns[|picked|..] + turns[..|picked|]
        invariant forall i :: 0 <= i < |picked| ==> turns[i] < |q| && picked[i] == q[turns[i]]
      {
        TurnTaken(ready, at);
        FirstIs(ready, at);
        var t := Switch(idle, at);
        Queued(turns[|picked|]);
        at := turns[|picked|] + 1;
        picked := picked + [t];
      }
      Distinct();
      forall i: nat | i < |q| ensures multiset(picked)[q[i]] == if ready[i] then 1 else 0 {
        TurnsOnce(ready, start, i);
        assert turns[..|turns|] == turns;
        SeatCount(q, turns, picked, i);
      }
    }
  }

  lemma FirstIs(ready: seq<bool>, at: nat)
    requires at <= |ready| && Turns(ready, at) != []
    ensures NextTurn(ready, at) == Turns(ready, at)[0]
  {
  }

  /** A seat turns up as often as the thread in it. */
  lemma {:induction false} SeatCount(q: seq<Thread>, turns: seq<nat>, picked: seq<Thread>, x: nat)
    requires x < |q| && |picked| == |turns| && forall i, j :: 0 <= i < j < |q| ==> q[i] != q[j]
    requires forall i :: 0 <= i < |turns| ==> turns[i] < |q| && picked[i] == q[turns[i]]
    ensures multiset(picked)[q[x]] == multiset(turns)[x]
  {
    if turns != [] {
      SeatCount(q, turns[1..], picked[1..], x);
      assert turns == [turns[0]] + turns[1..] && picked == [picked[0]] + picked[1..];
    }
  }

  predicate Ready(t: Thread)
    reads t
  {
    t.state == Runnable || t.state == Running
  }

  ghost function ReadyFlags(q: seq<Thread>): (r: seq<bool>)
    reads q
    ensures |r| == |q| && forall i :: 0 <= i < |q| ==> r[i] == Ready(q[i])
  {
    seq(|q|, i requires 0 <= i < |q| reads q => Ready(q[i]))
  }

  predicate Realtime(t: Thread)
    reads t
  {
    t.state == Runnable && t.realtime
  }

  ghost function RealtimeFlags(q: seq<Thread>): (r: seq<bool>)
    reads q
    ensures |r| == |q| && forall i :: 0 <= i < |q| ==> r[i] == Realtime(q[i])
  {
    seq(|q|, i requires 0 <= i < |q| reads q => Realtime(q[i]))
  }

  ghost function RunnableFlags(q: seq<Thread>): (r: seq<bool>)
    reads q
    ensures |r| == |q| && forall i :: 0 <= i < |q| ==> r[i] == (q[i].state == Runnable)
  {
    seq(|q|, i requires 0 <= i < |q| reads q => q[i].state == Runnable)
  }

  /** Where a scan for a realtime thread stops: it begins after the head. */
  ghost function FirstRealtime(q: seq<Thread>): (p: int)
    reads q
    ensures -1 <= p < |q|
    ensures p == -1 <==> forall i :: 0 <= i < |q| ==> !Realtime(q[i])
    ensures p >= 0 ==> IsFirst(RealtimeFlags(q), 1, p)
  {
    if q == [] then -1 else NextTurn(RealtimeFlags(q), 1)
  }

  /** Where a scan for a runnable thread stops that begins at a position of the queue. */
  ghost function FirstRunnable(q: seq<Thread>, start: nat): (p: int)
    requires start <= |q|
    reads q
    ensures -1 <= p < |q|
    ensures p == -1 <==> forall i :: 0 <= i < |q| ==> q[i].state != Runnable
    ensures p >= 0 ==> IsFirst(RunnableFlags(q), start, p)
  {
    NextTurn(RunnableFlags(q), start)
  }

  lemma {:induction false} WithoutCount(q: seq<Thread>, t: Thread)
    requires t in q
    ensures |Without(q, t)| == |q| - 1
  {
    if q[0] != t { WithoutCount(q[1..], t); }
  }

  /** A thread that is the only one to wait for a blocker, and is then added to the run queue, is in both. */
  method SoleWaiterTwice() returns (cpu: Cpu, b: Queue, t: Thread)
    ensures !cpu.Valid() && t in cpu.run.q && t in b.q && cpu.run != b
  {
    b := new Queue();
    t := new Thread;
    t.prev, t.next, t.blocker, t.home, t.inQueue := null, null, null, null, false;
    cpu := new Cpu({b}, {t});
    cpu.current := t;
    cpu.SleepOn(b);
    assert b.q == [t];
    cpu.OneQueue(t, b);
    cpu.Alone(t);
    cpu.AddThread(t);
  }
}
