/** Division and powers, in a form that keeps proofs away from nonlinear search. */
module Arithmetic {

  type Base = b: int | 2 <= b <= 16 witness 10

  function Quot(v: nat, d: nat): nat
    requires d > 0
  {
    v / d
  }

  function Rem(v: nat, d: nat): (r: nat)
    requires d > 0
    ensures r < d
  {
    v % d
  }

  function Pow(base: Base, n: nat): (p: nat)
    ensures p > 0
  {
    if n == 0 then 1 else base * Pow(base, n - 1)
  }

  /** The defining property. */
  lemma Division(v: nat, d: nat)
    requires d > 0
    ensures d * Quot(v, d) + Rem(v, d) == v
    ensures v < d ==> Quot(v, d) == 0 && Rem(v, d) == v
    ensures d > 1 && v > 0 ==> Quot(v, d) < v
    ensures v >= d ==> Quot(v, d) > 0
  {
  }

  lemma Cancel(d: nat, x: nat, y: nat)
    requires d * x < d * y
    ensures x < y
  {
    assert d * (y - x) > 0;
  }

  lemma Grows(d: nat, x: nat, y: nat)
    requires x <= y
    ensures d * x <= d * y
  {
  }

  lemma Distributes(d: nat, x: nat, y: nat)
    ensures d * (x + y) == d * x + d * y
  {
  }

  lemma Commutes(x: nat, y: nat)
    ensures x * y == y * x
  {
  }

  lemma Associates(x: nat, y: nat, z: nat)
    ensures x * (y * z) == (x * y) * z
  {
  }

  /** Quotient and remainder are the only numbers with that property. */
  lemma DivisionIs(v: nat, d: nat, q: nat, r: nat)
    requires v == d * q + r && r < d
    ensures Quot(v, d) == q && Rem(v, d) == r
  {
    Division(v, d);
    var x := Quot(v, d);
    hide Quot, Rem;
    Distributes(d, q, 1);
    Distributes(d, x, 1);
    Cancel(d, q, x + 1);
    Cancel(d, x, q + 1);
  }

  lemma DivideTwice(v: nat, b: nat, p: nat)
    requires b > 0 && p > 0
    ensures b * p > 0 && Quot(Quot(v, b), p) == Quot(v, b * p)
  {
    Division(v, b);
    Division(Quot(v, b), p);
    hide Quot, Rem;
    var q, s := Quot(v, b), Rem(v, b);
    var r, t := Quot(q, p), Rem(q, p);
    Distributes(b, p * r, t);
    Associates(b, p, r);
    Grows(b, t + 1, p);
    Distributes(b, t, 1);
    DivisionIs(v, b * p, r, b * t + s);
  }

  /** What is left below `base * p`: its multiples of `p` are the last digit of those of `v`. */
  lemma RemainderParts(v: nat, base: nat, p: nat)
    requires p > 0 && base > 0
    ensures base * p > 0
    ensures var rest := Rem(v, base * p);
      Quot(rest, p) == Rem(Quot(v, p), base) && Quot(rest, p) < base && Rem(rest, p) == Rem(v, p)
  {
    var m := base * p;
    assert m > 0;
    Division(v, m);
    Division(Rem(v, m), p);
    hide Quot, Rem;
    var big, rest := Quot(v, m), Rem(v, m);
    var d, r := Quot(rest, p), Rem(rest, p);
    Commutes(base, p);
    Cancel(p, d, base);
    Associates(p, base, big);
    Distributes(p, base * big, d);
    DivisionIs(v, p, base * big + d, r);
    DivisionIs(base * big + d, base, big, d);
  }

  lemma PowUnfolds(base: Base, n: nat)
    ensures Pow(base, 0) == 1 && Pow(base, n + 1) == base * Pow(base, n)
  {
  }

  lemma {:induction false} PowGrows(base: Base, m: nat, n: nat)
    requires m <= n
    ensures Pow(base, m) <= Pow(base, n)
    decreases n
  {
    if m < n {
      PowUnfolds(base, n - 1);
      hide Pow;
      PowGrows(base, m, n - 1);
      Grows(Pow(base, n - 1), 1, base);
      Commutes(base, Pow(base, n - 1));
    }
  }

  /** A number from one power up to `base` times the next has its quotient one power below. */
  lemma QuotientBounds(v: nat, base: nat, p: nat)
    requires p > 0 && base > 0 && base * p <= v < base * (base * p)
    ensures p <= Quot(v, base) < base * p && v >= base
  {
    Division(v, base);
    hide Quot, Rem;
    var q := Quot(v, base);
    Distributes(base, q, 1);
    Cancel(base, p, q + 1);
    Cancel(base, q, base * p);
    Grows(base, 1, p);
  }

  lemma TopOfQuotient(v: nat, base: nat, p: nat)
    requires p > 0 && v < base * p
    ensures Quot(v, p) < base && (Quot(v, p) == 0 <==> v < p)
  {
    Division(v, p);
    hide Quot, Rem;
    Commutes(base, p);
    Cancel(p, Quot(v, p), base);
    if Quot(v, p) > 0 {
      Grows(p, 1, Quot(v, p));
    }
  }
}
