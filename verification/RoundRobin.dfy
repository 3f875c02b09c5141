/** Turns around a circle of seats, some of which are taken into account and some skipped: the order in which
    the scheduler's scan of the run queue reaches the threads it may pick. */
module RoundRobin {

  function Seats(lo: nat, hi: nat): (s: seq<nat>)
    requires lo <= hi
    ensures |s| == hi - lo && forall i :: 0 <= i < |s| ==> s[i] == lo + i
    decreases hi - lo
  {
    if lo == hi then [] else [lo] + Seats(lo + 1, hi)
  }

  /** The seat reached after passing `c` others. */
  function Seat(n: nat, start: nat, c: nat): (p: nat)
    requires start <= n && c < n
    ensures p < n
  {
    if start + c < n then start + c else start + c - n
  }

  /** The first `c` seats of a scan do not count. */
  ghost predicate Skipped(ok: seq<bool>, start: nat, c: nat)
    requires start <= |ok| && c <= |ok|
  {
    forall i: nat {:trigger Seat(|ok|, start, i)} :: i < c ==> !ok[Seat(|ok|, start, i)]
  }

  /** Once around, beginning at a seat. */
  function Around(n: nat, start: nat): (s: seq<nat>)
    requires start <= n
    ensures |s| == n && forall i: nat :: i < n ==> s[i] == Seat(n, start, i)
  {
    Seats(start, n) + Seats(0, start)
  }

  function Keep(idx: seq<nat>, ok: seq<bool>): seq<nat> {
    if idx == [] then [] else (if idx[0] < |ok| && ok[idx[0]] then [idx[0]] else []) + Keep(idx[1..], ok)
  }

  lemma {:induction false} KeepConcat(a: seq<nat>, b: seq<nat>, ok: seq<bool>)
    ensures Keep(a + b, ok) == Keep(a, ok) + Keep(b, ok)
  {
    if a == [] {
      assert a + b == b;
    } else {
      assert (a + b)[1..] == a[1..] + b;
      KeepConcat(a[1..], b, ok);
    }
  }

  lemma {:induction false} KeepNone(a: seq<nat>, ok: seq<bool>)
    requires forall i :: 0 <= i < |a| ==> a[i] < |ok| && !ok[a[i]]
    ensures Keep(a, ok) == []
  {
    if a != [] { KeepNone(a[1..], ok); }
  }

  lemma {:induction false} KeepHas(a: seq<nat>, ok: seq<bool>, x: nat)
    ensures multiset(Keep(a, ok))[x] == if x < |ok| && ok[x] then multiset(a)[x] else 0
  {
    if a != [] {
      KeepHas(a[1..], ok, x);
      assert a == [a[0]] + a[1..];
    }
  }

  /** Whose turn it is, in order, when the scan begins at `start`. */
  function Turns(ok: seq<bool>, start: nat): seq<nat>
    requires start <= |ok|
  {
    Keep(Around(|ok|, start), ok)
  }

  lemma FirstInTurns(ok: seq<bool>, start: nat, c: nat)
    requires start <= |ok| && c < |ok| && ok[Seat(|ok|, start, c)] && Skipped(ok, start, c)
    ensures Turns(ok, start) != [] && Turns(ok, start)[0] == Seat(|ok|, start, c)
  {
    var all := Around(|ok|, start);
    assert all == all[..c] + all[c..];
    KeepConcat(all[..c], all[c..], ok);
    KeepNone(all[..c], ok);
  }

  lemma NoneInTurns(ok: seq<bool>, start: nat)
    requires start <= |ok| && Skipped(ok, start, |ok|)
    ensures Turns(ok, start) == []
  {
    KeepNone(Around(|ok|, start), ok);
  }

  /** The first seat that counts, after `c` that do not, has the first turn. */
  lemma FirstTurn(ok: seq<bool>, start: nat, c: nat)
    requires start <= |ok| && c < |ok| && ok[Seat(|ok|, start, c)] && Skipped(ok, start, c)
    ensures NextTurn(ok, start) == Seat(|ok|, start, c)
  {
    FirstInTurns(ok, start, c);
  }

  lemma NoTurn(ok: seq<bool>, start: nat)
    requires start <= |ok| && Skipped(ok, start, |ok|)
    ensures NextTurn(ok, start) == -1
  {
    NoneInTurns(ok, start);
  }

  /** The seat `j` steps on from `start`, around the circle, does not count. */
  ghost predicate PassedOver(ok: seq<bool>, start: nat, j: nat)
    requires |ok| > 0
  {
    !ok[(start + j) % |ok|]
  }

  ghost predicate PassedAll(ok: seq<bool>, start: nat, c: nat)
    requires |ok| > 0
  {
    forall j: nat {:trigger PassedOver(ok, start, j)} :: j < c ==> PassedOver(ok, start, j)
  }

  /** `p` is the first seat that counts, from `start` on around the circle. */
  ghost predicate IsFirst(ok: seq<bool>, start: nat, p: int) {
    && 0 <= p < |ok| && ok[p]
    && exists c: nat {:trigger PassedAll(ok, start, c)} :: c < |ok| && p == (start + c) % |ok| && PassedAll(ok, start, c)
  }

  lemma SeatIs(n: nat, start: nat, c: nat)
    requires start <= n && c < n
    ensures Seat(n, start, c) == (start + c) % n
  {
  }

  lemma FirstTurnIs(ok: seq<bool>, start: nat)
    requires start <= |ok| && Turns(ok, start) != []
    ensures IsFirst(ok, start, Turns(ok, start)[0])
  {
    var c := FirstKept(ok, start);
    FirstInTurns(ok, start, c);
    hide Turns, Seat;
    SeatIs(|ok|, start, c);
    forall j: nat | j < c ensures PassedOver(ok, start, j) {
      SeatIs(|ok|, start, j);
      assert !ok[Seat(|ok|, start, j)];
    }
    assert PassedAll(ok, start, c);
  }

  /** The seat a scan from `start` stops at, or -1. */
  function NextTurn(ok: seq<bool>, start: nat): (p: int)
    requires start <= |ok|
    ensures -1 <= p < |ok| && (p >= 0 ==> ok[p])
    ensures p == -1 <==> forall i :: 0 <= i < |ok| ==> !ok[i]
    ensures p >= 0 ==> IsFirst(ok, start, p)
  {
    TurnsOk(ok, start);
    assert Turns(ok, start) != [] ==> Turns(ok, start)[0] in Turns(ok, start);
    if Turns(ok, start) == [] then -1 else FirstTurnIs(ok, start); Turns(ok, start)[0]
  }

  lemma TurnsOk(ok: seq<bool>, start: nat)
    requires start <= |ok|
    ensures forall p: nat :: p in Turns(ok, start) <==> p < |ok| && ok[p]
  {
    forall p: nat ensures p in Turns(ok, start) <==> p < |ok| && ok[p] { TurnsOnce(ok, start, p); }
  }

  lemma {:induction false} SeatsOnce(lo: nat, hi: nat, x: nat)
    requires lo <= hi
    ensures multiset(Seats(lo, hi))[x] == if lo <= x < hi then 1 else 0
    decreases hi - lo
  {
    if lo < hi { SeatsOnce(lo + 1, hi, x); }
  }

  /** Every seat that counts has exactly one turn. */
  lemma TurnsOnce(ok: seq<bool>, start: nat, x: nat)
    requires start <= |ok|
    ensures multiset(Turns(ok, start))[x] == if x < |ok| && ok[x] then 1 else 0
  {
    KeepHas(Around(|ok|, start), ok, x);
    SeatsOnce(start, |ok|, x);
    SeatsOnce(0, start, x);
  }

  /** Going around from the seat after the one reached last. */
  lemma AroundAgain(n: nat, start: nat, c: nat)
    requires start <= n && c < n
    ensures var all := Around(n, start); Around(n, all[c] + 1) == all[c + 1..] + (all[..c] + [all[c]])
  {
    hide Seats;
  }

  /** Having had its turn, the first seat goes to the end and the others keep their order. */
  lemma TurnTaken(ok: seq<bool>, start: nat)
    requires start <= |ok| && Turns(ok, start) != []
    ensures var t := Turns(ok, start); t[0] < |ok| && Turns(ok, t[0] + 1) == t[1..] + [t[0]]
  {
    var all := Around(|ok|, start);
    var c := FirstKept(ok, start);
    FirstInTurns(ok, start, c);
    AroundAgain(|ok|, start, c);
    hide Seats, Keep, Around;
    assert all == all[..c] + ([all[c]] + all[c + 1..]);
    Rotated(ok, all[..c], all[c], all[c + 1..]);
  }

  lemma Rotated(ok: seq<bool>, a: seq<nat>, p: nat, b: seq<nat>)
    requires p < |ok| && ok[p] && forall i :: 0 <= i < |a| ==> a[i] < |ok| && !ok[a[i]]
    ensures Keep(a + ([p] + b), ok) == [p] + Keep(b, ok)
    ensures Keep(b + (a + [p]), ok) == Keep(b, ok) + [p]
  {
    KeepNone(a, ok);
    KeepConcat(a, [p] + b, ok);
    KeepConcat(b, a + [p], ok);
    KeepConcat(a, [p], ok);
  }

  lemma FirstKept(ok: seq<bool>, start: nat) returns (c: nat)
    requires start <= |ok| && Turns(ok, start) != []
    ensures c < |ok| && ok[Seat(|ok|, start, c)] && Skipped(ok, start, c)
  {
    c := 0;
    while c < |ok| && !ok[Seat(|ok|, start, c)]
      invariant c <= |ok| && Skipped(ok, start, c)
    {
      c := c + 1;
    }
    if c == |ok| { NoneInTurns(ok, start); }
  }

  /** Picking `k` times, each scan beginning after the seat picked last. */
  function Picks(ok: seq<bool>, start: nat, k: nat): seq<nat>
    requires start <= |ok|
    decreases k
  {
    var t := Turns(ok, start);
    if k == 0 || t == [] || t[0] >= |ok| then [] else [t[0]] + Picks(ok, t[0] + 1, k - 1)
  }

  lemma NextTurns(t: seq<nat>, k: nat)
    requires 0 < k <= |t|
    ensures [t[0]] + (t[1..] + [t[0]])[..k - 1] == t[..k]
  {
  }

  /** Fairness: as many picks as there are seats that count pick each of them once. */
  lemma {:induction false} PicksAreTurns(ok: seq<bool>, start: nat, k: nat)
    requires start <= |ok| && k <= |Turns(ok, start)|
    ensures Picks(ok, start, k) == Turns(ok, start)[..k]
    decreases k
  {
    hide Turns;
    if k > 0 {
      var t := Turns(ok, start);
      TurnTaken(ok, start);
      PicksAreTurns(ok, t[0] + 1, k - 1);
      NextTurns(t, k);
    }
  }

  lemma EachOnce(ok: seq<bool>, start: nat, x: nat)
    requires start <= |ok|
    ensures multiset(Picks(ok, start, |Turns(ok, start)|))[x] == if x < |ok| && ok[x] then 1 else 0
  {
    PicksAreTurns(ok, start, |Turns(ok, start)|);
    assert Turns(ok, start)[..|Turns(ok, start)|] == Turns(ok, start);
    TurnsOnce(ok, start, x);
  }
}
