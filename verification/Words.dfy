/** Unsigned machine words as natural numbers, with the C operators `|`, `>>` and `& (2^k - 1)`. */
module Words {

  const U32: nat := 0x1_0000_0000
  const U64: nat := 0x1_0000_0000_0000_0000

  /** `n` addresses from `a` on and `m` addresses from `b` on have none in common. */
  predicate Apart(a: nat, n: nat, b: nat, m: nat) { a + n <= b || b + m <= a }

  /** `a | b`, from the lowest bit up. */
  function Or(a: nat, b: nat): nat
    decreases a + b
  {
    if a == 0 then b else if b == 0 then a
    else 2 * Or(a / 2, b / 2) + (if a % 2 == 1 || b % 2 == 1 then 1 else 0)
  }

  /** `a & mask`, for a mask of one bit. */
  predicate Test(a: nat, mask: nat) {
    if mask <= 1 then a % 2 == 1 else Test(a / 2, mask / 2)
  }

  ghost predicate IsPow2(p: nat) { p == 1 || (p > 0 && p % 2 == 0 && IsPow2(p / 2)) }

  lemma IsPow2Double(p: nat)
    requires IsPow2(p)
    ensures IsPow2(2 * p)
  {}

  lemma {:induction false} IsPow2Product(p: nat, q: nat, pq: nat)
    requires IsPow2(p) && IsPow2(q) && pq == p * q
    ensures IsPow2(pq)
    decreases p
  {
    if p > 1 {
      IsPow2Product(p / 2, q, p / 2 * q);
      IsPow2Double(p / 2 * q);
      Double(p / 2, q);
    }
  }

  lemma Double(h: nat, q: nat)
    ensures 2 * h * q == 2 * (h * q)
  {}

  lemma MulGrows(d: int, x: int)
    requires d >= 0
    ensures x >= 1 ==> d * x >= d
    ensures x <= -1 ==> d * x <= -d
  {}

  lemma DivUnique(a: nat, d: nat, q: nat, r: nat)
    requires r < d && a == d * q + r
    ensures a / d == q && a % d == r
  {
    var q', r' := a / d, a % d;
    assert a == d * q' + r';
    assert d * (q' - q) == r - r';
    MulGrows(d, q' - q);
  }

  /** Dividing by a product is dividing by its factors. */
  lemma DivTwice(a: nat, d: nat, e: nat, m: nat)
    requires d > 0 && e > 0 && m == d * e
    ensures a / m == a / d / e && a % m / d == a / d % e && a % m % d == a % d
  {
    var b, low := a / d, a % d;
    var q, r := b / e, b % e;
    DivIs(b, e, q, r);
    DivIs(a, d, b, low);
    hide *;
    DivTwoParts(a, d, e, m, b, low, q, r);
    DivUnique(d * r + low, d, r, low);
  }

  lemma DivIs(a: nat, d: nat, q: nat, r: nat)
    requires d > 0 && q == a / d && r == a % d
    ensures a == d * q + r && r < d
  {}

  lemma DivTwoParts(a: nat, d: nat, e: nat, m: nat, b: nat, low: nat, q: nat, r: nat)
    requires m == d * e && a == d * b + low && b == e * q + r && low < d && r < e
    ensures a / m == q && a % m == d * r + low
  {
    Below(d, e, r, low);
    Spread(d, e, q, r);
    DivUnique(a, m, q, d * r + low);
  }

  lemma Spread(d: nat, e: nat, q: nat, r: nat)
    ensures d * (e * q + r) == d * e * q + d * r
  {}

  lemma Below(d: nat, e: nat, r: nat, low: nat)
    requires r < e && low < d
    ensures d * r + low < d * e
  {
    assert d * (e - r) >= d by { MulGrows(d, e - r); }
    assert d * (e - r) == d * e - d * r;
  }

  lemma OrHalves(a: nat, b: nat)
    ensures Or(a, b) == 2 * Or(a / 2, b / 2) + if a % 2 == 1 || b % 2 == 1 then 1 else 0
  {}

  /** `|` acts separately on the bits from a power of two `p` up and on the bits below. */
  lemma {:induction false} OrSplits(a: nat, b: nat, p: nat, qa: nat, ra: nat, qb: nat, rb: nat)
    requires IsPow2(p) && a == p * qa + ra && b == p * qb + rb && ra < p && rb < p
    ensures Or(ra, rb) < p
    ensures Or(a, b) == p * Or(qa, qb) + Or(ra, rb)
    decreases p
  {
    if p > 1 {
      var h := p / 2;
      Half(a, h, qa, ra);
      Half(b, h, qb, rb);
      OrSplits(a / 2, b / 2, h, qa, ra / 2, qb, rb / 2);
      OrHalves(a, b);
      OrHalves(ra, rb);
      Double(h, Or(qa, qb));
    }
  }

  lemma Half(a: nat, h: nat, q: nat, r: nat)
    requires a == 2 * h * q + r
    ensures a / 2 == h * q + r / 2 && a % 2 == r % 2
  {}

  lemma OrHalf(a: nat, b: nat)
    ensures Or(a, b) / 2 == Or(a / 2, b / 2)
    ensures Or(a, b) % 2 == 1 <==> a % 2 == 1 || b % 2 == 1
  {}

  /** A one-bit test of a `|`. */
  lemma {:induction false} OrTest(a: nat, b: nat, mask: nat)
    ensures Test(Or(a, b), mask) <==> Test(a, mask) || Test(b, mask)
    decreases mask
  {
    OrHalf(a, b);
    if mask > 1 { OrTest(a / 2, b / 2, mask / 2); }
  }
}
