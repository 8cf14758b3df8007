/**
Facts about products and quotients of numbers that are not constants.
*/
module Arith {

  lemma MulAtLeast(k: int, d: int)
    requires k >= 1 && d >= 0
    ensures k * d >= d
  {
    assert (k - 1) * d >= 0;
  }

  lemma Distribute(a: int, b: int, d: int)
    ensures (a - b) * d == a * d - b * d
  {}

  lemma DivUnique(n: int, d: int, q: int, r: int)
    requires d > 0 && 0 <= r < d && n == q * d + r
    ensures n / d == q && n % d == r
  {
    var q' := n / d;
    assert n == q' * d + n % d;
    if q' > q {
      MulAtLeast(q' - q, d);
      Distribute(q', q, d);
    } else if q' < q {
      MulAtLeast(q - q', d);
      Distribute(q, q', d);
    }
  }

  lemma DivMod(n: nat, d: nat) returns (q: nat, r: nat)
    requires d > 0
    ensures q == n / d && r == n % d && n == q * d + r && r < d
  {
    q, r := n / d, n % d;
  }

  lemma {:induction false} MulStep(x: nat, y: nat, d: nat)
    requires x < y
    ensures x * d + d <= y * d
  {
    if x + 1 < y {
      MulStep(x, y - 1, d);
      assert y * d == (y - 1) * d + d;
    }
  }

  lemma MulLe(x: nat, y: nat, d: nat)
    requires x <= y
    ensures x * d <= y * d
  {
    if x < y {
      MulStep(x, y, d);
    }
  }

  // A multiple of d, as a product.
  lemma Multiple(n: nat, d: nat) returns (q: nat)
    requires d > 0 && n % d == 0
    ensures n == q * d && q == n / d
  {
    var r;
    q, r := DivMod(n, d);
  }

  lemma IsMultiple(q: nat, d: nat)
    requires d > 0
    ensures (q * d) % d == 0 && (q * d) / d == q
  {
    DivUnique(q * d, d, q, 0);
  }

  // Different multiples of d are at least d apart.
  lemma Apart(x: nat, y: nat, d: nat)
    requires d > 0 && x % d == 0 && y % d == 0 && x < y
    ensures x + d <= y
  {
    var p := Multiple(x, d);
    var q := Multiple(y, d);
    if p < q {
      MulStep(p, q, d);
    } else {
      MulLe(q, p, d);
    }
  }

  lemma SumMultiple(x: nat, y: nat, d: nat)
    requires d > 0 && x % d == 0 && y % d == 0
    ensures (x + y) % d == 0
  {
    var p := Multiple(x, d);
    var q := Multiple(y, d);
    assert x + y == (p + q) * d;
    IsMultiple(p + q, d);
  }

  lemma DifferenceMultiple(x: nat, y: nat, d: nat)
    requires d > 0 && y <= x && x % d == 0 && y % d == 0
    ensures (x - y) % d == 0
  {
    var p := Multiple(x, d);
    var q := Multiple(y, d);
    if p < q {
      MulStep(p, q, d);
    }
    assert x - y == (p - q) * d;
    IsMultiple(p - q, d);
  }

  lemma ProductMultiple(x: nat, y: nat, d: nat)
    requires d > 0 && y % d == 0
    ensures (x * y) % d == 0
  {
    var q := Multiple(y, d);
    assert x * y == (x * q) * d by {
      MulAssoc(x, q, d);
    }
    IsMultiple(x * q, d);
  }

  lemma {:induction false} MulAssoc(x: nat, y: nat, z: nat)
    ensures x * (y * z) == (x * y) * z
  {
    if x > 0 {
      MulAssoc(x - 1, y, z);
      assert x * (y * z) == (x - 1) * (y * z) + y * z;
      assert x * y == (x - 1) * y + y;
      assert (x * y) * z == ((x - 1) * y) * z + y * z;
    }
  }
}
