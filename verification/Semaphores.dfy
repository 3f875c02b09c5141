/** The counting semaphore with hand-off wake-ups, as a state machine over any number of threads.

    `semaphore_acquire` and `semaphore_release` are cut into their atomic steps: the atomic counter
    update, the change of the waiting list under the spinlock, and the wake-up. Any interleaving of
    such steps by any threads is a run. */
module Semaphores {

  /** Threads are numbered from 1; 0 is the null pointer. */
  type Tid = nat
  const NULL: Tid := 0

  /** Where every thread stands with respect to one semaphore. */
  datatype State = State(
    max: nat,
    current: int,
    holding: set<Tid>,       // returned from acquire
    pending: set<Tid>,       // counted as one too many, not yet in the list
    queue: seq<Tid>,         // asleep in the list, oldest first
    handed: set<Tid>,        // taken off the list, not yet awake
    owing: set<Tid>,         // in release: must wake somebody, has not found whom
    waking: map<Tid, Tid>)   // in release: about to wake the given thread

  datatype Step = Increment(t: Tid) | Enqueue(t: Tid) | Decrement(t: Tid) | Dequeue(t: Tid) | Wake(t: Tid)

  function One(b: bool): nat {
    if b then 1 else 0
  }

  /** In how many places a thread is. */
  function Places(s: State, t: Tid): nat {
    One(t in s.holding) + One(t in s.pending) + One(t in s.queue) + One(t in s.handed) + One(t in s.owing) + One(t in s.waking)
  }

  /** A step a thread can take next. Only holders release; a thread that owes a wake-up waits, spinning,
      until the list is not empty. */
  predicate Enabled(s: State, step: Step) {
    match step
    case Increment(t) => t != NULL && Places(s, t) == 0
    case Enqueue(t) => t in s.pending
    case Decrement(t) => t in s.holding
    case Dequeue(t) => t in s.owing && s.queue != []
    case Wake(t) => t in s.waking
  }

  function Apply(s: State, step: Step): State
    requires Enabled(s, step)
  {
    match step
    case Increment(t) =>
      var s1 := s.(current := s.current + 1);
      if s1.current > s.max then s1.(pending := s.pending + {t}) else s1.(holding := s.holding + {t})
    case Enqueue(t) =>
      s.(pending := s.pending - {t}, queue := s.queue + [t])
    case Decrement(t) =>
      var s1 := s.(current := s.current - 1, holding := s.holding - {t});
      if s1.current >= s.max then s1.(owing := s.owing + {t}) else s1
    case Dequeue(t) =>
      var first := s.queue[0];
      s.(owing := s.owing - {t}, waking := s.waking[t := first], queue := s.queue[1..],
         handed := s.handed + {first})
    case Wake(t) =>
      s.(waking := s.waking - {t}, handed := s.handed - {s.waking[t]}, holding := s.holding + {s.waking[t]})
  }

  function Min(a: int, b: int): int {
    if a < b then a else b
  }

  ghost predicate Distinct(q: seq<Tid>) {
    forall i, j :: 0 <= i < j < |q| ==> q[i] != q[j]
  }

  /** No thread is in two places at once. */
  ghost predicate Separate(s: State) {
    && (forall t {:trigger Places(s, t)} :: Places(s, t) <= if t == NULL then 0 else 1)
    && Distinct(s.queue)
  }

  /** The threads handed a permit are exactly those some releaser is about to wake, one each. */
  ghost predicate HandOff(waking: map<Tid, Tid>, handed: set<Tid>) {
    && (forall t :: t in waking ==> waking[t] in handed)
    && (forall t, u :: t in waking && u in waking && waking[t] == waking[u] ==> t == u)
    && |handed| == |waking|
  }

  function Owed(s: State): nat {
    |s.owing| + |s.waking|
  }

  function Waiting(s: State): nat {
    |s.pending| + |s.queue| + |s.handed|
  }

  /** The counter is the number of holders and waiters, and holders together with wake-ups owed fill the
      semaphore as far as there are takers. */
  ghost predicate Balanced(s: State) {
    && s.current == |s.holding| + Waiting(s)
    && |s.holding| + Owed(s) == Min(s.current, s.max)
  }

  ghost predicate Inv(s: State) {
    Separate(s) && HandOff(s.waking, s.handed) && Balanced(s)
  }

  function Initial(max: nat): State {
    State(max, 0, {}, {}, [], {}, {}, map[])
  }

  lemma InitialInv(max: nat)
    ensures Inv(Initial(max))
  {
  }

  // ----- every step keeps the invariant

  /** Where one thread is after a step, given where it and the threads of the step were. */
  lemma PlacesAfter(s: State, step: Step, t: Tid)
    requires Enabled(s, step) && Places(s, t) <= 1 && (t == NULL ==> Places(s, t) == 0)
    requires step.Dequeue? ==> s.queue[0] !in s.queue[1..]
    requires step.Wake? ==> s.waking[step.t] in s.handed
    ensures Places(Apply(s, step), t) <= if t == NULL then 0 else 1
  {
    if step.Dequeue? { assert s.queue == [s.queue[0]] + s.queue[1..]; }
  }

  lemma StepSeparate(s: State, step: Step)
    requires Inv(s) && Enabled(s, step)
    ensures Separate(Apply(s, step))
  {
    hide Balanced, Distinct, Places, Apply;
    StepDistinct(s, step);
    forall t ensures Places(Apply(s, step), t) <= if t == NULL then 0 else 1 {
      assert Places(s, t) <= if t == NULL then 0 else 1;
      PlacesAfter(s, step, t);
    }
  }

  lemma StepDistinct(s: State, step: Step)
    requires Inv(s) && Enabled(s, step)
    ensures Distinct(Apply(s, step).queue)
    ensures step.Dequeue? ==> s.queue[0] !in s.queue[1..]
  {
    assert Places(s, step.t) <= 1;
  }

  lemma Added(s: set<Tid>, x: Tid)
    requires x !in s
    ensures |s + {x}| == |s| + 1
  {
  }

  lemma Removed(s: set<Tid>, x: Tid)
    requires x in s
    ensures |s - {x}| == |s| - 1
  {
  }

  lemma EntryAdded(m: map<Tid, Tid>, t: Tid, w: Tid)
    requires t !in m
    ensures |m[t := w]| == |m| + 1
  {
    assert m[t := w].Keys == m.Keys + {t};
    Added(m.Keys, t);
  }

  lemma EntryRemoved(m: map<Tid, Tid>, t: Tid)
    requires t in m
    ensures |m - {t}| == |m| - 1
  {
    assert (m - {t}).Keys == m.Keys - {t};
    Removed(m.Keys, t);
  }

  /** What the places of the threads of a step say about it. */
  lemma StepPlaces(s: State, step: Step)
    requires Inv(s) && Enabled(s, step)
    ensures step.Increment? ==> step.t !in s.holding && step.t !in s.pending
    ensures step.Decrement? ==> step.t !in s.owing
    ensures step.Dequeue? ==> step.t !in s.waking && s.queue[0] !in s.handed
    ensures step.Wake? ==> s.waking[step.t] !in s.holding && s.waking[step.t] in s.handed
  {
    assert Places(s, step.t) <= 1;
    if step.Dequeue? { assert Places(s, s.queue[0]) <= 1; }
    if step.Wake? { assert Places(s, s.waking[step.t]) <= 1; }
  }

  lemma HandOffAdded(waking: map<Tid, Tid>, handed: set<Tid>, t: Tid, w: Tid)
    requires HandOff(waking, handed) && t !in waking && w !in handed
    ensures HandOff(waking[t := w], handed + {w})
  {
    EntryAdded(waking, t, w);
    Added(handed, w);
  }

  lemma HandOffRemoved(waking: map<Tid, Tid>, handed: set<Tid>, t: Tid)
    requires HandOff(waking, handed) && t in waking
    ensures HandOff(waking - {t}, handed - {waking[t]})
  {
    EntryRemoved(waking, t);
    Removed(handed, waking[t]);
  }

  lemma StepHandOff(s: State, step: Step)
    requires Inv(s) && Enabled(s, step)
    ensures HandOff(Apply(s, step).waking, Apply(s, step).handed)
  {
    StepPlaces(s, step);
    hide Separate, Balanced, HandOff;
    if step.Dequeue? {
      HandOffAdded(s.waking, s.handed, step.t, s.queue[0]);
    } else if step.Wake? {
      HandOffRemoved(s.waking, s.handed, step.t);
    }
  }

  lemma EnterBalanced(s: State, t: Tid)
    requires Inv(s) && Enabled(s, Increment(t))
    ensures Balanced(Apply(s, Increment(t)))
  {
    StepPlaces(s, Increment(t));
    hide Separate, HandOff, Places;
    Added(s.holding, t);
    Added(s.pending, t);
  }

  lemma LeaveBalanced(s: State, t: Tid)
    requires Inv(s) && Enabled(s, Decrement(t))
    ensures Balanced(Apply(s, Decrement(t)))
  {
    StepPlaces(s, Decrement(t));
    hide Separate, HandOff, Places;
    Removed(s.holding, t);
    Added(s.owing, t);
  }

  lemma DequeueBalanced(s: State, t: Tid)
    requires Inv(s) && Enabled(s, Dequeue(t))
    ensures Balanced(Apply(s, Dequeue(t)))
  {
    StepPlaces(s, Dequeue(t));
    hide Separate, HandOff, Places;
    Removed(s.owing, t);
    EntryAdded(s.waking, t, s.queue[0]);
    Added(s.handed, s.queue[0]);
  }

  lemma WakeBalanced(s: State, t: Tid)
    requires Inv(s) && Enabled(s, Wake(t))
    ensures Balanced(Apply(s, Wake(t)))
  {
    StepPlaces(s, Wake(t));
    hide Separate, HandOff, Places;
    EntryRemoved(s.waking, t);
    Removed(s.handed, s.waking[t]);
    Added(s.holding, s.waking[t]);
  }

  lemma StepBalanced(s: State, step: Step)
    requires Inv(s) && Enabled(s, step)
    ensures Balanced(Apply(s, step))
  {
    hide Separate, HandOff, Places;
    match step
    case Increment(t) => EnterBalanced(s, t);
    case Enqueue(t) => Removed(s.pending, t);
    case Decrement(t) => LeaveBalanced(s, t);
    case Dequeue(t) => DequeueBalanced(s, t);
    case Wake(t) => WakeBalanced(s, t);
  }

  lemma StepInv(s: State, step: Step)
    requires Inv(s) && Enabled(s, step)
    ensures Inv(Apply(s, step))
  {
    StepSeparate(s, step);
    StepHandOff(s, step);
    StepBalanced(s, step);
  }

  // ----- runs

  /** A run: each step is one that some thread can take. */
  predicate IsRun(s: State, steps: seq<Step>)
    decreases |steps|
  {
    steps == [] || (Enabled(s, steps[0]) && IsRun(Apply(s, steps[0]), steps[1..]))
  }

  function After(s: State, steps: seq<Step>): State
    requires IsRun(s, steps)
    decreases |steps|
  {
    if steps == [] then s else After(Apply(s, steps[0]), steps[1..])
  }

  lemma {:induction false} RunInv(s: State, steps: seq<Step>)
    requires Inv(s) && IsRun(s, steps)
    ensures Inv(After(s, steps)) && After(s, steps).max == s.max
    decreases |steps|
  {
    if steps != [] {
      StepInv(s, steps[0]);
      RunInv(Apply(s, steps[0]), steps[1..]);
    }
  }

  lemma {:induction false} RunAndStep(s: State, steps: seq<Step>, step: Step)
    ensures IsRun(s, steps + [step]) <==> IsRun(s, steps) && Enabled(After(s, steps), step)
    ensures IsRun(s, steps + [step]) ==> After(s, steps + [step]) == Apply(After(s, steps), step)
    decreases |steps|
  {
    hide Enabled, Apply;
    var all := steps + [step];
    if steps == [] {
      assert all[1..] == [];
    } else {
      assert all[0] == steps[0] && all[1..] == steps[1..] + [step];
      if Enabled(s, steps[0]) { RunAndStep(Apply(s, steps[0]), steps[1..], step); }
    }
  }

  // ----- the run told by its steps alone

  /** Who entered the list, in the order of the steps. */
  function Enqueuers(steps: seq<Step>): seq<Tid> {
    if steps == [] then [] else
    var n := |steps| - 1;
    Enqueuers(steps[..n]) + if steps[n].Enqueue? then [steps[n].t] else []
  }

  /** Who took somebody off the list, in the order of the steps. */
  function Dequeuers(steps: seq<Step>): seq<Tid> {
    if steps == [] then [] else
    var n := |steps| - 1;
    Dequeuers(steps[..n]) + if steps[n].Dequeue? then [steps[n].t] else []
  }

  /** Counter updates of acquire less those of release. */
  function Count(steps: seq<Step>): int {
    if steps == [] then 0 else
    var n := |steps| - 1;
    Count(steps[..n]) + if steps[n].Increment? then 1 else if steps[n].Decrement? then -1 else 0
  }

  /** The last place of a thread in a list, -1 if it has none. */
  function LastPlace(q: seq<Tid>, t: Tid): (i: int)
    ensures -1 <= i < |q|
    ensures i >= 0 ==> q[i] == t
    ensures forall j :: i < j < |q| ==> q[j] != t
  {
    if q == [] then -1
    else if q[|q| - 1] == t then |q| - 1
    else LastPlace(q[..|q| - 1], t)
  }

  /** With whom a thread that took somebody off the list is paired: the `i`-th to be taken off is the `i`-th that entered. */
  function Paired(entered: seq<Tid>, takers: seq<Tid>, t: Tid): Tid {
    var i := LastPlace(takers, t);
    if 0 <= i < |entered| then entered[i] else NULL
  }

  /** Whom a thread in release is to wake. */
  function Woken(steps: seq<Step>, t: Tid): Tid {
    Paired(Enqueuers(steps), Dequeuers(steps), t)
  }

  /** Who has the semaphore: those who came while a permit was free and those who were woken, until they release it. */
  predicate Holds(max: nat, steps: seq<Step>, t: Tid)
    decreases |steps|
  {
    steps != [] &&
    var n := |steps| - 1;
    match steps[n]
    case Increment(u) => (u == t && Count(steps[..n]) < max) || Holds(max, steps[..n], t)
    case Decrement(u) => u != t && Holds(max, steps[..n], t)
    case Wake(u) => t == Woken(steps[..n], u) || Holds(max, steps[..n], t)
    case _ => Holds(max, steps[..n], t)
  }

  /** The state is the one that the steps tell. */
  ghost predicate Told(max: nat, steps: seq<Step>, s: State) {
    && s.max == max && s.current == Count(steps)
    && |Dequeuers(steps)| <= |Enqueuers(steps)| && s.queue == Enqueuers(steps)[|Dequeuers(steps)|..]
    && (forall t :: t in s.waking ==> s.waking[t] == Woken(steps, t))
    && (forall t :: t in s.holding <==> Holds(max, steps, t))
  }

  lemma StepLists(steps: seq<Step>, step: Step)
    ensures Enqueuers(steps + [step]) == Enqueuers(steps) + if step.Enqueue? then [step.t] else []
    ensures Dequeuers(steps + [step]) == Dequeuers(steps) + if step.Dequeue? then [step.t] else []
    ensures Count(steps + [step]) == Count(steps) + if step.Increment? then 1 else if step.Decrement? then -1 else 0
  {
    assert (steps + [step])[..|steps|] == steps;
  }

  lemma StepHolds(max: nat, steps: seq<Step>, step: Step, t: Tid)
    ensures Holds(max, steps + [step], t) <==>
              match step
              case Increment(u) => (u == t && Count(steps) < max) || Holds(max, steps, t)
              case Decrement(u) => u != t && Holds(max, steps, t)
              case Wake(u) => t == Woken(steps, u) || Holds(max, steps, t)
              case _ => Holds(max, steps, t)
  {
    hide Count, Woken;
    assert (steps + [step])[..|steps|] == steps;
  }

  lemma LastPlaceAdd(q: seq<Tid>, u: Tid, t: Tid)
    ensures LastPlace(q + [u], t) == if u == t then |q| else LastPlace(q, t)
  {
    assert (q + [u])[..|q|] == q;
  }

  lemma PairedEnter(entered: seq<Tid>, takers: seq<Tid>, u: Tid, t: Tid)
    requires |takers| <= |entered|
    ensures Paired(entered + [u], takers, t) == Paired(entered, takers, t)
  {
    hide LastPlace;
  }

  lemma PairedTake(entered: seq<Tid>, takers: seq<Tid>, u: Tid, t: Tid)
    requires |takers| < |entered|
    ensures Paired(entered, takers + [u], t) == if u == t then entered[|takers|] else Paired(entered, takers, t)
  {
    hide LastPlace;
    LastPlaceAdd(takers, u, t);
  }

  /** A step changes whom a releaser is to wake only if it takes somebody off the list for it. */
  lemma StepWoken(steps: seq<Step>, step: Step, t: Tid)
    requires |Dequeuers(steps)| <= |Enqueuers(steps)|
    requires step.Dequeue? ==> |Dequeuers(steps)| < |Enqueuers(steps)|
    ensures Woken(steps + [step], t) ==
              if step == Dequeue(t) then Enqueuers(steps)[|Dequeuers(steps)|] else Woken(steps, t)
  {
    hide Enqueuers, Dequeuers, Paired;
    StepLists(steps, step);
    var e, d := Enqueuers(steps), Dequeuers(steps);
    assert e + [] == e && d + [] == d;
    if step.Enqueue? { PairedEnter(e, d, step.t, t); }
    if step.Dequeue? { PairedTake(e, d, step.t, t); }
  }

  lemma StepTold(max: nat, steps: seq<Step>, s: State, step: Step)
    requires Told(max, steps, s) && Enabled(s, step)
    ensures Told(max, steps + [step], Apply(s, step))
  {
    hide Enqueuers, Dequeuers, Woken, Holds, Count;
    StepLists(steps, step);
    var s', all := Apply(s, step), steps + [step];
    forall t | t in s'.waking ensures s'.waking[t] == Woken(all, t) { StepWoken(steps, step, t); }
    forall t ensures t in s'.holding <==> Holds(max, all, t) { StepHolds(max, steps, step, t); }
  }

  /** After every run the list holds exactly those who entered it and were not yet taken off, in order, and the holders
      are exactly those that the steps tell. */
  lemma {:induction false} RunTold(max: nat, steps: seq<Step>)
    requires IsRun(Initial(max), steps)
    ensures Told(max, steps, After(Initial(max), steps))
    decreases |steps|
  {
    hide Told, Apply, Enabled;
    if steps == [] {
      NothingTold(max);
    } else {
      var n := |steps| - 1;
      assert steps == steps[..n] + [steps[n]];
      RunAndStep(Initial(max), steps[..n], steps[n]);
      RunTold(max, steps[..n]);
      StepTold(max, steps[..n], After(Initial(max), steps[..n]), steps[n]);
    }
  }

  lemma NothingTold(max: nat)
    ensures Told(max, [], Initial(max))
  {
  }

  /** After every interleaving: no more holders than permits; nobody waits while a permit is free and no
      wake-up is owed; every wake-up owed has somebody to wake; threads leave the list in the order in
      which they entered it; and the holders are those who came while a permit was free and those whose turn it was
      to be woken, less those who have released it. */
  lemma SemaphoreCorrect(max: nat, steps: seq<Step>)
    requires IsRun(Initial(max), steps)
    ensures var s := After(Initial(max), steps);
            && |s.holding| <= max
            && (Waiting(s) > 0 && Owed(s) == 0 ==> |s.holding| == max)
            && |s.owing| <= |s.pending| + |s.queue|
            && |Dequeuers(steps)| <= |Enqueuers(steps)| && s.queue == Enqueuers(steps)[|Dequeuers(steps)|..]
            && (forall t :: t in s.holding <==> Holds(max, steps, t))
  {
    hide Holds;
    InitialInv(max);
    RunInv(Initial(max), steps);
    RunTold(max, steps);
  }

  /** A signal makes a sleeping thread return from acquire as if it had the semaphore, while it stays in the
      list. That is one holder too many exactly when no wake-up is owed. */
  lemma SignalWake(s: State, t: Tid)
    requires Inv(s) && t in s.queue
    ensures |s.holding + {t}| > s.max <==> Owed(s) == 0
  {
    assert Places(s, t) <= 1;
    Added(s.holding, t);
    assert |s.queue| > 0;
  }

  // ----- the semaphore in memory

  /** The list hanging on `first`, linked through `sem_next`. `last` is only meaningful while the list is
      not empty: emptying it leaves the old value behind. */
  ghost predicate Links(first: Tid, last: Tid, next: map<Tid, Tid>, q: seq<Tid>) {
    && first == (if q == [] then NULL else q[0])
    && (q != [] ==> last == q[|q| - 1])
    && forall i: nat {:trigger LinkAt(next, q, i)} :: i < |q| ==> LinkAt(next, q, i)
  }

  ghost predicate LinkAt(next: map<Tid, Tid>, q: seq<Tid>, i: nat)
    requires i < |q|
  {
    q[i] in next && next[q[i]] == if i + 1 < |q| then q[i + 1] else NULL
  }

  class Semaphore {
    const max: nat
    var current: int
    var first: Tid
    var last: Tid
    /** `sem_next` of every thread. */
    var semNext: map<Tid, Tid>
    ghost var model: State

    constructor (max: nat)
      ensures Valid() && model == Initial(max)
    {
      this.max, current, first, last, semNext := max, 0, NULL, NULL, map[];
      model := Initial(max);
    }

    ghost predicate Valid()
      reads this
    {
      && Inv(model) && model.max == max && model.current == current
      && Links(first, last, semNext, model.queue)
    }

    /** The counter update of `semaphore_acquire`. */
    method AcquireCounter(t: Tid) returns (mustSleep: bool)
      requires Valid() && Enabled(model, Increment(t))
      modifies this
      ensures Valid() && model == Apply(old(model), Increment(t))
      ensures mustSleep <==> t in model.pending
      ensures !mustSleep <==> t in model.holding
      ensures mustSleep <==> old(current) >= max
    {
      StepInv(model, Increment(t));
      StepPlaces(model, Increment(t));
      current := current + 1;
      mustSleep := current > max;
      model := Apply(model, Increment(t));
    }

    /** The list update of `semaphore_acquire`, under the spinlock. */
    method AcquireEnqueue(t: Tid)
      requires Valid() && Enabled(model, Enqueue(t))
      modifies this
      ensures Valid() && model == Apply(old(model), Enqueue(t))
      ensures model.queue == old(model.queue) + [t] && model.holding == old(model.holding)
    {
      StepInv(model, Enqueue(t));
      ghost var q := model.queue;
      assert Places(model, t) <= 1 && t !in q && t != NULL;
      semNext := semNext[t := NULL];
      if first == NULL {
        assert Places(model, NULL) == 0;
        first := t;
      } else {
        semNext := semNext[last := t];
      }
      last := t;
      EnqueueLinks(old(semNext), q, t);
      model := Apply(model, Enqueue(t));
    }

    /** The counter update of `semaphore_release`. */
    method ReleaseCounter(t: Tid) returns (mustWake: bool)
      requires Valid() && Enabled(model, Decrement(t))
      modifies this
      ensures Valid() && model == Apply(old(model), Decrement(t))
      ensures mustWake <==> t in model.owing
      ensures mustWake <==> old(current) > max
      ensures model.holding == old(model.holding) - {t}
    {
      StepInv(model, Decrement(t));
      StepPlaces(model, Decrement(t));
      current := current - 1;
      mustWake := current >= max;
      model := Apply(model, Decrement(t));
    }

    /** One round of the loop of `semaphore_release`: takes the first thread off the list, if there is one. */
    method ReleaseDequeue(t: Tid) returns (thread: Tid)
      requires Valid() && t in model.owing
      modifies this
      ensures Valid()
      ensures thread == NULL <==> !Enabled(old(model), Dequeue(t))
      ensures thread == NULL ==> model == old(model)
      ensures thread != NULL ==> model == Apply(old(model), Dequeue(t)) && thread == model.waking[t]
      ensures thread != NULL ==> old(model.queue) == [thread] + model.queue
    {
      thread := first;
      assert Places(model, NULL) == 0;
      if thread != NULL {
        StepInv(model, Dequeue(t));
        ghost var q := model.queue;
        assert LinkAt(semNext, q, 0);
        first := semNext[thread];
        forall i: nat | i < |q[1..]| ensures LinkAt(semNext, q[1..], i) { assert LinkAt(semNext, q, i + 1); }
        model := Apply(model, Dequeue(t));
      }
    }

    /** The wake-up at the end of `semaphore_release`: the thread that was taken off the list goes on as a holder, and
        the one that wakes it is no holder. */
    method ReleaseWake(t: Tid, thread: Tid)
      requires Valid() && Enabled(model, Wake(t)) && thread == model.waking[t]
      modifies this`model
      ensures Valid() && model == Apply(old(model), Wake(t))
      ensures model.holding == old(model.holding) + {thread} && thread !in old(model.holding) && t !in model.holding
    {
      StepInv(model, Wake(t));
      StepPlaces(model, Wake(t));
      assert Places(model, t) <= 1 && Places(model, thread) <= 1;
      model := Apply(model, Wake(t));
    }

    /** All of `semaphore_release` by the last holder while others wait: the one who waits longest holds it next. */
    method HandOver(t: Tid) returns (thread: Tid)
      requires Valid() && t in model.holding && model.queue != [] && model.current > model.max
      modifies this
      ensures Valid() && [thread] + model.queue == old(model.queue)
      ensures model.holding == old(model.holding) - {t} + {thread}
    {
      var mustWake := ReleaseCounter(t);
      thread := ReleaseDequeue(t);
      ReleaseWake(t, thread);
    }
  }

  lemma EnqueueLinks(next: map<Tid, Tid>, q: seq<Tid>, t: Tid)
    requires t !in q && Distinct(q) && forall i: nat {:trigger LinkAt(next, q, i)} :: i < |q| ==> LinkAt(next, q, i)
    ensures var next' := if q == [] then next[t := NULL] else next[t := NULL][q[|q| - 1] := t];
            forall i: nat {:trigger LinkAt(next', q + [t], i)} :: i < |q + [t]| ==> LinkAt(next', q + [t], i)
  {
    var next' := if q == [] then next[t := NULL] else next[t := NULL][q[|q| - 1] := t];
    forall i: nat | i < |q + [t]| ensures LinkAt(next', q + [t], i) {
      if i < |q| { assert LinkAt(next, q, i); }
    }
  }

  /** Two threads, one permit: the second sleeps, a signal wakes it, and both go on as holders. */
  lemma SignalBreaks()
    ensures var steps := [Increment(1), Increment(2), Enqueue(2)];
            IsRun(Initial(1), steps) &&
            var s := After(Initial(1), steps); 2 in s.queue && |s.holding + {2}| > s.max
  {
    var s0 := Initial(1);
    var s1 := Apply(s0, Increment(1));
    var s2 := Apply(s1, Increment(2));
    var s3 := Apply(s2, Enqueue(2));
    var steps := [Increment(1), Increment(2), Enqueue(2)];
    assert steps[1..] == [Increment(2), Enqueue(2)] && steps[1..][1..] == [Enqueue(2)] && steps[1..][1..][1..] == [];
    assert IsRun(s3, []) && IsRun(s2, [Enqueue(2)]) && IsRun(s1, [Increment(2), Enqueue(2)]);
    InitialInv(1);
    RunInv(s0, steps);
    assert After(s0, steps) == s3;
    SignalWake(s3, 2);
  }
}
