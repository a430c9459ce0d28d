/** Directed rounding of quotients. Floor and ceiling are each characterised by one
    equivalence, and every other law here follows from the two equivalences. */
module Rounding {

  function CeilDiv(n: nat, d: nat): nat
    requires d > 0
  {
    if n % d == 0 then n / d else n / d + 1
  }

  lemma MulPositive(a: nat, b: nat)
    requires a > 0 && b > 0
    ensures a * b > 0
  {
  }

  lemma MulStrict(a: int, b: int, c: nat)
    requires a < b && c > 0
    ensures a * c < b * c
  {
    MulPositive(b - a, c);
    assert (b - a) * c == b * c - a * c;
  }

  lemma MulOrder(a: int, b: int, c: nat)
    requires c > 0
    ensures a <= b <==> a * c <= b * c
    ensures a < b <==> a * c < b * c
  {
    if a < b {
      MulStrict(a, b, c);
    } else if b < a {
      MulStrict(b, a, c);
    }
  }

  lemma FloorGalois(n: nat, d: nat, q: int)
    requires d > 0
    ensures q <= n / d <==> q * d <= n
  {
    var k := n / d;
    assert n == k * d + n % d;
    assert (k + 1) * d == k * d + d;
    MulOrder(q, k, d);
    MulOrder(k + 1, q, d);
  }

  lemma ExactQuotient(n: nat, d: nat, q: int)
    requires d > 0 && n % d == 0
    ensures n / d <= q <==> n <= q * d
  {
    var k := n / d;
    assert n == k * d;
    MulOrder(k, q, d);
  }

  lemma InexactQuotient(n: nat, d: nat, q: int)
    requires d > 0 && n % d != 0
    ensures n / d + 1 <= q <==> n <= q * d
  {
    var k, r := n / d, n % d;
    assert n == k * d + r;
    assert (k + 1) * d == k * d + d;
    MulOrder(k + 1, q, d);
    MulOrder(k, q, d);
  }

  lemma CeilGalois(n: nat, d: nat, q: int)
    requires d > 0
    ensures CeilDiv(n, d) <= q <==> n <= q * d
  {
    if n % d == 0 {
      ExactQuotient(n, d, q);
    } else {
      InexactQuotient(n, d, q);
    }
  }

  lemma Assoc(x: int, y: int, z: int)
    ensures x * (y * z) == x * y * z
  {
  }

  lemma NestedCeilGalois(n: nat, b: nat, a: nat, q: int)
    requires a > 0 && b > 0
    ensures a * b > 0 && (CeilDiv(CeilDiv(n, b), a) <= q <==> CeilDiv(n, a * b) <= q)
  {
    CeilGalois(CeilDiv(n, b), a, q);
    CeilGalois(n, b, q * a);
    Assoc(q, a, b);
    CeilGalois(n, a * b, q);
  }

  /** Rounding up twice is rounding up once. */
  lemma NestedCeil(n: nat, b: nat, a: nat)
    requires a > 0 && b > 0
    ensures a * b > 0 && CeilDiv(CeilDiv(n, b), a) == CeilDiv(n, a * b)
  {
    var nested, whole := CeilDiv(CeilDiv(n, b), a), CeilDiv(n, a * b);
    NestedCeilGalois(n, b, a, nested);
    NestedCeilGalois(n, b, a, whole);
  }

  lemma NestedFloorGalois(n: nat, b: nat, a: nat, q: int)
    requires a > 0 && b > 0
    ensures a * b > 0 && (q <= (n / b) / a <==> q <= n / (a * b))
  {
    FloorGalois(n / b, a, q);
    FloorGalois(n, b, q * a);
    Assoc(q, a, b);
    FloorGalois(n, a * b, q);
  }

  /** Rounding down twice is rounding down once. */
  lemma NestedFloor(n: nat, b: nat, a: nat)
    requires a > 0 && b > 0
    ensures a * b > 0 && (n / b) / a == n / (a * b)
  {
    var nested, whole := (n / b) / a, n / (a * b);
    NestedFloorGalois(n, b, a, nested);
    NestedFloorGalois(n, b, a, whole);
  }

  lemma CeilSubadditive(m: nat, n: nat, d: nat)
    requires d > 0
    ensures CeilDiv(m + n, d) <= CeilDiv(m, d) + CeilDiv(n, d)
  {
    var x, y := CeilDiv(m, d), CeilDiv(n, d);
    CeilGalois(m, d, x);
    CeilGalois(n, d, y);
    assert (x + y) * d == x * d + y * d;
    CeilGalois(m + n, d, x + y);
  }

  lemma FloorSuperadditive(m: nat, n: nat, d: nat)
    requires d > 0
    ensures m / d + n / d <= (m + n) / d
  {
    var x, y := m / d, n / d;
    FloorGalois(m, d, x);
    FloorGalois(n, d, y);
    assert (x + y) * d == x * d + y * d;
    FloorGalois(m + n, d, x + y);
  }

  lemma FloorMono(m: nat, n: nat, d: nat)
    requires d > 0 && m <= n
    ensures m / d <= n / d
  {
    FloorGalois(m, d, m / d);
    FloorGalois(n, d, m / d);
  }

  /** Floor and ceiling of one quotient differ by at most one. */
  lemma FloorCeilGap(n: nat, d: nat)
    requires d > 0
    ensures n / d <= CeilDiv(n, d) <= n / d + 1
  {
  }
}
