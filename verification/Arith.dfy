/** Products, quotients and remainders with variable factors, in steps the solver can follow. */
module Arith {

  /** q and rem are the quotient and remainder of a by unit. */
  ghost predicate Splits(a: int, q: int, unit: int, rem: int) {
    a == q * unit + rem && 0 <= rem < unit
  }

  lemma MulAtLeast(x: int, d: int)
    requires x >= 1 && d > 0
    ensures x * d >= d && x * d >= x
  {
  }

  lemma MulDoubled(q: int, unit: int)
    ensures q * (2 * unit) == (q * 2) * unit
  {
  }

  lemma MulSucc(q: int, unit: int)
    ensures (q + 1) * unit == q * unit + unit
  {
  }

  lemma MulMinus(q: int, q': int, d: int)
    ensures (q - q') * d == q * d - q' * d
  {
  }

  lemma MulPlus(a: int, b: int, d: int)
    ensures (a + b) * d == a * d + b * d
  {
  }

  lemma MulAssoc(a: int, b: int, c: int)
    ensures (a * b) * c == a * (b * c)
  {
  }

  lemma MulMono(x: int, y: int, k: int)
    requires x <= y && k >= 0
    ensures x * k <= y * k
  {
  }

  lemma MulStrict(x: int, y: int, k: int)
    requires x < y && k >= 1
    ensures x * k < y * k
  {
  }

  lemma Divides(a: int, d: int)
    requires d > 0
    ensures Splits(a, a / d, d, a % d)
  {
  }

  /** Quotient and remainder are unique. */
  lemma SplitsUnique(a: int, d: int, q: int, r: int)
    requires Splits(a, q, d, r)
    ensures a / d == q && a % d == r
  {
    var q', r' := a / d, a % d;
    assert a == q' * d + r' && 0 <= r' < d;
    MulMinus(q, q', d);
    MulMinus(q', q, d);
    if q > q' {
      MulAtLeast(q - q', d);
    } else if q < q' {
      MulAtLeast(q' - q, d);
    }
  }

  lemma DivBounds(o: int, p: int, q: int)
    requires p > 0 && 0 <= o < q * p
    ensures 0 <= o / p < q && 0 <= o % p < p
  {
    var d := o / p;
    Divides(o, p);
    MulMinus(d, q, p);
    if d > q { MulAtLeast(d - q, p); }
    if d < 0 { MulAtLeast(-d, p); }
  }

  lemma DivDiv(o: int, p: int)
    requires p > 0
    ensures p * p > 0 && o / p / p == o / (p * p) && o % (p * p) == o / p % p * p + o % p
  {
    var q, r := o / p, o % p;
    var q2, r2 := q / p, q % p;
    Divides(o, p);
    Divides(q, p);
    MulAtLeast(p, p);
    MulPlus(q2 * p, r2, p);
    MulAssoc(q2, p, p);
    MulMono(r2, p - 1, p);
    MulMinus(p, 1, p);
    MulMono(0, r2, p);
    SplitsUnique(o, p * p, q2, r2 * p + r);
  }

  /** Dividing by p * p and then by p is dividing by p twice. */
  lemma DivMod(o: int, p: int)
    requires p > 0
    ensures p * p > 0 && o % (p * p) / p == o / p % p && o % (p * p) % p == o % p
  {
    DivDiv(o, p);
    SplitsUnique(o % (p * p), p, o / p % p, o % p);
  }

  lemma SameParts(o: int, o': int, p: int)
    requires p > 0 && o / p == o' / p && o % p == o' % p
    ensures o == o'
  {
    Divides(o, p);
    Divides(o', p);
  }
}
