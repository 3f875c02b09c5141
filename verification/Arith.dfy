/** Products, quotients and remainders by repeated addition and subtraction, with the facts that tie
    them to the built-in operators. */
module Arith {

  function Times(a: nat, b: nat): (p: nat)
    ensures a > 0 && b > 0 ==> p > 0
  {
    if b == 0 then 0 else a + Times(a, b - 1)
  }

  function Quot(a: nat, d: nat): nat
    requires d > 0
  {
    if a < d then 0 else 1 + Quot(a - d, d)
  }

  function Rem(a: nat, d: nat): (r: nat)
    requires d > 0
    ensures r < d
  {
    if a < d then a else Rem(a - d, d)
  }

  lemma {:induction false} TimesIs(a: nat, b: nat)
    ensures Times(a, b) == a * b
  {
    if b > 0 { TimesIs(a, b - 1); }
  }

  lemma {:induction false} TimesAdd(a: nat, b: nat, c: nat)
    ensures Times(a, b + c) == Times(a, b) + Times(a, c)
  {
    if c > 0 { TimesAdd(a, b, c - 1); }
  }

  lemma TimesNext(d: nat, k: nat)
    ensures Times(d, k + 1) == Times(d, k) + d
  {
  }

  lemma {:induction false} TimesMono(d: nat, a: nat, b: nat)
    requires a <= b
    ensures Times(d, a) <= Times(d, b)
  {
    if a < b { TimesMono(d, a, b - 1); }
  }

  lemma TimesLess(d: nat, a: nat, b: nat)
    requires Times(d, a) < Times(d, b)
    ensures a < b
  {
    if b <= a { TimesMono(d, b, a); }
  }

  lemma {:induction false} Split(a: nat, d: nat)
    requires d > 0
    ensures a == Quot(a, d) * d + Rem(a, d)
  {
    if a >= d { Split(a - d, d); }
  }

  lemma {:induction false} SplitTimes(a: nat, d: nat)
    requires d > 0
    ensures a == Times(d, Quot(a, d)) + Rem(a, d)
  {
    if a >= d { SplitTimes(a - d, d); }
  }

  lemma QuotientUnique(a: nat, d: nat, q: nat, r: nat)
    requires r < d && a == q * d + r
    ensures a / d == q && a % d == r
  {
    var e := a / d;
    assert e < q ==> d * (e + 1) <= d * q;
    assert e > q ==> d * (q + 1) <= d * e;
  }

  lemma QuotRemIs(a: nat, d: nat)
    requires d > 0
    ensures Quot(a, d) == a / d && Rem(a, d) == a % d
  {
    Split(a, d);
    QuotientUnique(a, d, Quot(a, d), Rem(a, d));
  }

  /** Quotient and remainder determine the number. */
  lemma {:induction false} QuotRemSame(a: nat, b: nat, d: nat)
    requires d > 0 && Quot(a, d) == Quot(b, d) && Rem(a, d) == Rem(b, d)
    ensures a == b
  {
    if a >= d && b >= d { QuotRemSame(a - d, b - d, d); }
  }

  lemma {:induction false} QuotRemOf(q: nat, r: nat, d: nat)
    requires r < d
    ensures Quot(q * d + r, d) == q && Rem(q * d + r, d) == r
  {
    if q > 0 {
      assert q * d + r - d == (q - 1) * d + r;
      QuotRemOf(q - 1, r, d);
    }
  }

  lemma {:induction false} QuotRemOrder(a: nat, b: nat, d: nat)
    requires d > 0 && a < b
    ensures Quot(a, d) < Quot(b, d) || (Quot(a, d) == Quot(b, d) && Rem(a, d) < Rem(b, d))
  {
    if a >= d { QuotRemOrder(a - d, b - d, d); }
  }

  lemma {:induction false} QuotSmall(a: nat, d: nat, q: nat)
    requires d > 0
    ensures Quot(a, d) < q <==> a < Times(d, q)
  {
    if a >= d && q > 0 { QuotSmall(a - d, d, q - 1); }
  }

  /** Positions of block `k` of width `d`. */
  lemma {:induction false} QuotRemAt(d: nat, k: nat, r: nat)
    requires r < d
    ensures Quot(Times(d, k) + r, d) == k && Rem(Times(d, k) + r, d) == r
  {
    if k > 0 { QuotRemAt(d, k - 1, r); }
  }

  method Divide(a: nat, d: nat) returns (q: nat, r: nat)
    requires d > 0
    ensures q == Quot(a, d) && r == Rem(a, d)
  {
    QuotRemIs(a, d);
    q, r := a / d, a % d;
  }
}
