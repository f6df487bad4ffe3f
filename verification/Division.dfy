/** Division by a variable divisor, through lemmas instead of the solver's own rules. */
module Division {
  function Quo(v: nat, d: nat): (q: nat)
    requires d >= 1
    ensures d >= 2 && v >= 1 ==> q < v
    ensures v < d ==> q == 0
    ensures v >= d ==> q >= 1
  {
    v / d
  }

  function Rem(v: nat, d: nat): (r: nat)
    requires d >= 1
    ensures r < d
    ensures v < d ==> r == v
  {
    v % d
  }

  lemma Divided(v: nat, d: nat)
    requires d >= 1
    ensures v == d * Quo(v, d) + Rem(v, d)
  {
  }

  lemma MulMonotone(d: int, x: int, y: int)
    requires d >= 0 && x <= y
    ensures d * x <= d * y
  {
  }

  lemma SmallMultiple(d: int, x: int)
    requires d >= 0 && -d < d * x < d
    ensures x == 0
  {
    if x >= 1 {
      MulMonotone(d, 1, x);
    } else if x <= -1 {
      MulMonotone(d, x, -1);
    }
  }

  lemma Distribute(d: int, x: int, y: int)
    ensures d * (x - y) == d * x - d * y
  {
  }

  /** Division is the only way to write v as d * q + r with r < d. */
  lemma Quotient(v: nat, d: nat, q: nat, r: nat)
    requires d >= 1 && v == d * q + r && r < d
    ensures Quo(v, d) == q && Rem(v, d) == r
  {
    Divided(v, d);
    hide Quo, Rem;
    Distribute(d, Quo(v, d), q);
    SmallMultiple(d, Quo(v, d) - q);
  }

  lemma DivideBound(v: nat, base: nat, p: nat)
    requires base >= 1 && v < base * p
    ensures Quo(v, base) < p
  {
    Divided(v, base);
    hide Quo, Rem;
    if p <= Quo(v, base) {
      MulMonotone(base, p, Quo(v, base));
    }
  }

  lemma Reassociate(base: nat, p: nat, q: nat, r: nat)
    ensures base * (p * q + r) == (base * p) * q + base * r
  {
  }

  /** Dividing by base * p, in two steps. */
  lemma SplitDivision(v: nat, base: nat, p: nat)
    requires base >= 1 && p >= 1
    ensures base * p >= 1
    ensures Quo(Quo(v, base), p) == Quo(v, base * p)
    ensures Quo(Rem(v, base * p), base) == Rem(Quo(v, base), p)
    ensures Rem(Rem(v, base * p), base) == Rem(v, base)
  {
    var w, l := Quo(v, base), Rem(v, base);
    var q, r := Quo(w, p), Rem(w, p);
    Divided(v, base);
    Divided(w, p);
    hide Quo, Rem;
    MulMonotone(base, 1, p);
    MulMonotone(base, r + 1, p);
    Distribute(base, r + 1, 1);
    Reassociate(base, p, q, r);
    Quotient(v, base * p, q, base * r + l);
    Quotient(base * r + l, base, r, l);
  }

  lemma QuotientMonotone(v: nat, w: nat, d: nat)
    requires d >= 1 && v <= w
    ensures Quo(v, d) <= Quo(w, d)
  {
    Divided(v, d);
    Divided(w, d);
    hide Quo, Rem;
    if Quo(w, d) < Quo(v, d) {
      MulMonotone(d, Quo(w, d) + 1, Quo(v, d));
      Distribute(d, Quo(w, d) + 1, 1);
    }
  }
}
