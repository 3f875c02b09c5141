/** Time spans in seconds and nanoseconds, the tick counter and the countdown of event timers. */
module Timers {

  const NSEC_IN_SEC: nat := 1_000_000_000
  const TIMER_FREQUENCY: nat := 250
  const TICK: nat := 4_000_000

  datatype Timespec = Timespec(sec: nat, nsec: nat)

  predicate Normal(t: Timespec) {
    t.nsec < NSEC_IN_SEC
  }

  /** Length in nanoseconds. */
  function Nanos(t: Timespec): nat {
    NSEC_IN_SEC * t.sec + t.nsec
  }

  /** `timespec_add`. */
  function Add(a: Timespec, b: Timespec): (r: Timespec)
    ensures Normal(a) && Normal(b) ==> Normal(r) && Nanos(r) == Nanos(a) + Nanos(b)
  {
    var sum := a.nsec + b.nsec;
    if sum > NSEC_IN_SEC - 1 then Timespec(a.sec + 1 + b.sec, sum - NSEC_IN_SEC) else Timespec(a.sec + b.sec, sum)
  }

  /** `timespec_sub` on normal spans: stops at zero, and loses a nanosecond when it borrows a second. */
  function Sub(a: Timespec, b: Timespec): (r: Timespec)
    requires Normal(a) && Normal(b)
    ensures Normal(r)
    ensures Nanos(a) <= Nanos(b) ==> Nanos(r) == 0
    ensures Nanos(a) > Nanos(b) ==> Nanos(r) == Nanos(a) - Nanos(b) - if b.nsec > a.nsec then 1 else 0
  {
    if b.nsec > a.nsec && a.sec == 0 then Timespec(0, 0)
    else
      var c := if b.nsec > a.nsec then Timespec(a.sec - 1, NSEC_IN_SEC - 1 - (b.nsec - a.nsec)) else a.(nsec := a.nsec - b.nsec);
      if b.sec > c.sec then Timespec(0, 0) else c.(sec := c.sec - b.sec)
  }

  /** The difference is exact exactly when nothing is borrowed or it stops at zero. */
  lemma SubExact(a: Timespec, b: Timespec)
    requires Normal(a) && Normal(b)
    ensures Nanos(Sub(a, b)) == (if Nanos(a) <= Nanos(b) then 0 else Nanos(a) - Nanos(b)) <==> b.nsec <= a.nsec || Nanos(a) <= Nanos(b)
  {
  }

  const OFFSET := Timespec(0, NSEC_IN_SEC / TIMER_FREQUENCY)

  /** The remaining time of a timer after a number of ticks, if it is never looked at again after zero. */
  function Remaining(when: Timespec, ticks: nat): Timespec
    requires Normal(when)
    ensures Normal(Remaining(when, ticks))
  {
    if ticks == 0 then when else Sub(Remaining(when, ticks - 1), OFFSET)
  }

  predicate IsZero(t: Timespec) {
    t.sec == 0 && t.nsec == 0
  }

  /** The tick at which a timer goes off: its length less one nanosecond per whole second, in ticks, rounded up. */
  function AlarmTick(when: Timespec): nat {
    if Nanos(when) == 0 then 1 else (Nanos(when) - when.sec - 1) / TICK + 1
  }

  /** Before the alarm the time left is the length less the ticks and one nanosecond for every second used up. */
  lemma {:induction false} RemainingBefore(when: Timespec, k: nat)
    requires Normal(when) && Nanos(when) > 0 && k < AlarmTick(when)
    ensures var r := Remaining(when, k);
            Nanos(r) > 0 && r.sec <= when.sec && Nanos(r) == Nanos(when) - TICK * k - (when.sec - r.sec)
  {
    hide AlarmTick, Sub;
    BeforeAlarm(when, k);
    if k > 0 {
      BeforeAlarm(when, k - 1);
      RemainingBefore(when, k - 1);
    }
  }

  lemma BeforeAlarm(when: Timespec, k: nat)
    requires Nanos(when) > 0
    ensures k < AlarmTick(when) <==> TICK * k + when.sec < Nanos(when)
  {
  }

  /** It goes off at that tick, and not before. */
  lemma AlarmsAt(when: Timespec, n: nat)
    requires Normal(when) && 0 < n <= AlarmTick(when)
    ensures IsZero(Remaining(when, n)) <==> n == AlarmTick(when)
  {
    if Nanos(when) > 0 {
      RemainingBefore(when, AlarmTick(when) - 1);
      if n < AlarmTick(when) { RemainingBefore(when, n); }
    }
  }

  /** That is on time, the first tick not before the length of the timer, exactly when the lost nanoseconds do
      not reach back over a tick. */
  lemma OnTime(when: Timespec)
    requires Normal(when) && Nanos(when) > 0
    ensures AlarmTick(when) <= (Nanos(when) - 1) / TICK + 1
    ensures AlarmTick(when) == (Nanos(when) - 1) / TICK + 1 <==> when.sec <= (Nanos(when) - 1) % TICK
  {
  }

  // ----- the tick handler

  class EventTimer {
    var when: Timespec
    var alarmed: bool
    /** The length it was set to, the ticks it has been counted down by, and how often it has gone off. */
    ghost const length: Timespec
    ghost var counted: nat
    ghost var alarms: nat

    constructor (duration: Timespec)
      requires Normal(duration)
      ensures Good() && length == duration && !alarmed && counted == 0
    {
      when, alarmed := duration, false;
      length, counted, alarms := duration, 0, 0;
    }

    /** Counting down, or gone off once, at its tick. */
    ghost predicate Good()
      reads this
    {
      && Normal(length) && Normal(when) && when == Remaining(length, counted)
      && if alarmed then counted == AlarmTick(length) && alarms == 1 else counted < AlarmTick(length) && alarms == 0
    }

    /** One timer's share of `timer_handle`. */
    method CountDown() returns (fired: bool)
      requires Good()
      modifies this
      ensures Good()
      ensures fired <==> !old(alarmed) && alarmed
      ensures counted == if old(alarmed) then old(counted) else old(counted) + 1
      ensures old(alarmed) ==> alarmed
    {
      if alarmed {
        return false;
      }
      AlarmsAt(length, counted + 1);
      when := Sub(when, OFFSET);
      counted := counted + 1;
      if IsZero(when) {
        alarmed := true;
        alarms := alarms + 1;
      }
      fired := alarmed;
    }
  }

  class Clock {
    var currentTicks: Timespec
    var timers: seq<EventTimer>
    ghost var ticks: nat

    constructor ()
      ensures Valid() && ticks == 0 && timers == []
    {
      currentTicks, timers, ticks := Timespec(0, 0), [], 0;
    }

    /** The tick counter is exactly the ticks taken, and every timer is counting down or has gone off once. */
    ghost predicate Valid()
      reads this, timers
    {
      && Normal(currentTicks) && Nanos(currentTicks) == TICK * ticks
      && (forall i, j :: 0 <= i < j < |timers| ==> timers[i] != timers[j])
      && (forall i :: 0 <= i < |timers| ==> timers[i].Good())
    }

    method Register(t: EventTimer)
      requires Valid() && t.Good() && t !in timers
      modifies this`timers
      ensures Valid() && timers == old(timers) + [t]
    {
      timers := timers + [t];
    }

    /** What one tick does to a timer. */
    twostate predicate Counted(t: EventTimer)
      reads t
    {
      t.counted == if old(t.alarmed) then old(t.counted) else old(t.counted) + 1
    }

    twostate predicate Rang(t: EventTimer)
      reads t
    {
      !old(t.alarmed) && t.alarmed
    }

    /** The loop of `timer_handle`. */
    method CountAll() returns (fired: seq<EventTimer>)
      requires Valid()
      modifies timers
      ensures Valid()
      ensures forall t {:trigger Counted(t)} :: t in timers ==> Counted(t)
      ensures forall t {:trigger Rang(t)} :: t in timers ==> (t in fired <==> Rang(t))
    {
      hide EventTimer.Good;
      fired := [];
      for i := 0 to |timers|
        invariant Valid()
        invariant forall j {:trigger timers[j]} :: 0 <= j < i ==> Counted(timers[j]) && (timers[j] in fired <==> Rang(timers[j]))
        invariant forall j {:trigger timers[j]} :: i <= j < |timers| ==> unchanged(timers[j]) && timers[j] !in fired
      {
        var rang := timers[i].CountDown();
        if rang {
          fired := fired + [timers[i]];
        }
      }
    }

    /** `timer_handle`. The timers are counted down unless somebody else holds their lock. */
    method Handle(lockFree: bool) returns (fired: seq<EventTimer>)
      requires Valid()
      modifies this`currentTicks, this`ticks, timers
      ensures Valid() && ticks == old(ticks) + 1
      ensures !lockFree ==> fired == [] && forall t :: t in timers ==> unchanged(t)
      ensures lockFree ==> forall t {:trigger Counted(t)} :: t in timers ==> Counted(t)
      ensures lockFree ==> forall t {:trigger Rang(t)} :: t in timers ==> (t in fired <==> Rang(t))
    {
      hide EventTimer.Good;
      currentTicks := Add(currentTicks, OFFSET);
      ticks := ticks + 1;
      fired := [];
      if lockFree {
        label Before:
        fired := CountAll();
        assert forall t {:trigger Counted(t)} :: t in timers ==> Counted@Before(t);
        assert forall t {:trigger Rang(t)} :: t in timers ==> (t in fired <==> Rang@Before(t));
      }
    }
  }

  // ----- where a tick is lost

  /** A second and a nanosecond: 251 ticks long, it goes off at tick 250. */
  lemma EarlyTimer()
    ensures var t := Timespec(1, 1); AlarmTick(t) == 250 && (Nanos(t) - 1) / TICK + 1 == 251
    ensures Sub(Timespec(1, 0), Timespec(0, 1)) == Timespec(0, 999_999_998)
  {
  }
}
