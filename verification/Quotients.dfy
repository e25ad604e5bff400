/** Quotients and remainders of natural numbers, and powers of two. */
module Quotients {
  import opened Widths

  lemma MultipleIsFar(m: nat, k: int)
    ensures k >= 1 ==> m * k >= m
    ensures k <= -1 ==> m * k + m <= 0
  {
    assert m * k == m + m * (k - 1) == m * (k + 1) - m;
  }

  /** A quotient and a remainder that fit are the quotient and the remainder. */
  lemma QuotientIs(n: nat, m: nat, q: nat, r: nat)
    requires m > 0 && n == m * q + r && r < m
    ensures n / m == q && n % m == r
  {
    var q', r' := n / m, n % m;
    assert n == m * q' + r';
    assert m * (q - q') == m * q - m * q' == r' - r;
    MultipleIsFar(m, q - q');
  }

  lemma RemainderFits(p: nat, q: nat, d: nat, b: nat)
    requires d < q && b < p
    ensures p * d + b < q * p
  {
    MultipleIsFar(p, q - d);
    assert p * (q - d) == p * q - p * d;
  }

  lemma Regroup(p: nat, q: nat, c: nat, d: nat, b: nat)
    ensures p * (q * c + d) + b == q * p * c + (p * d + b)
  {
    assert p * (q * c) == q * p * c;
  }

  lemma QuotientOfParts(v: nat, p: nat, q: nat, a: nat, b: nat, c: nat, d: nat)
    requires v == p * a + b && a == q * c + d && b < p && d < q
    ensures q * p > 0 && v / (q * p) == c
  {
    RemainderFits(p, q, d, b);
    Regroup(p, q, c, d, b);
    QuotientIs(v, q * p, c, p * d + b);
  }

  lemma DivisionParts(v: nat, p: nat)
    requires p > 0
    ensures v == p * (v / p) + v % p
  {
  }

  /** Dividing twice is dividing by the product. */
  lemma QuotientTwice(v: nat, p: nat, q: nat)
    requires p > 0 && q > 0
    ensures q * p > 0 && v / p / q == v / (q * p)
  {
    DivisionParts(v, p);
    DivisionParts(v / p, q);
    QuotientOfParts(v, p, q, v / p, v % p, v / p / q, v / p % q);
  }

  lemma MultiplePlus(p: nat, v: nat, d: nat)
    requires p > 0
    ensures (p * v + d) / p == v + d / p
  {
    var q, r := d / p, d % p;
    assert d == p * q + r;
    assert p * (v + q) == p * v + p * q;
    QuotientIs(p * v + d, p, v + q, r);
  }

  lemma QuotientFits(d: nat, p: nat, q: nat)
    requires p > 0 && d < p * q
    ensures d / p < q
  {
    var c := d / p;
    assert p * c <= d;
    MultipleIsFar(p, q - c);
    assert p * (q - c) == p * q - p * c;
  }

  lemma SameParts(q: nat, v: nat, x: nat, w: nat, y: nat)
    requires x < q && y < q
    ensures q * v + x == q * w + y <==> v == w && x == y
  {
    QuotientIs(q * v + x, q, v, x);
    QuotientIs(q * w + y, q, w, y);
  }

  function Pow2(k: nat): (p: nat)
    ensures p > 0
  {
    if k == 0 then 1 else 2 * Pow2(k - 1)
  }

  lemma {:induction false} Pow2Sum(j: nat, k: nat)
    ensures Pow2(j) * Pow2(k) == Pow2(j + k)
  {
    if k > 0 {
      Pow2Sum(j, k - 1);
      Double(Pow2(j), Pow2(k - 1));
    }
  }

  lemma Double(a: nat, b: nat)
    ensures a * (2 * b) == 2 * (a * b)
  {
  }

  lemma Pow2Of8()
    ensures Pow2(8) == 256
  {
    assert Pow2(4) == 16;
  }

  lemma WordsAreOfTheirWidth()
    ensures U32 == Pow2(32) && U64 == Pow2(64)
  {
    hide Pow2;
    Pow2Of8();
    Pow2Sum(8, 8);
    assert Pow2(16) == 0x1_0000;
    Pow2Sum(16, 16);
    assert Pow2(32) == 0x1_0000_0000;
    Pow2Sum(32, 32);
  }

  /** A division by the greater power sees nothing that the division by the smaller one drops. */
  lemma CoarserQuotient(v: nat, w: nat, j: nat, k: nat)
    requires j <= k && v / Pow2(j) == w / Pow2(j)
    ensures v / Pow2(k) == w / Pow2(k)
  {
    Pow2Sum(k - j, j);
    QuotientTwice(v, Pow2(j), Pow2(k - j));
    QuotientTwice(w, Pow2(j), Pow2(k - j));
  }
}
