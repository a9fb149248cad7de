/** Powers modulo a number, as far as the key agreement needs them. */
module ModularPower {

  function Pow(b: int, e: nat): int {
    if e == 0 then 1 else b * Pow(b, e - 1)
  }

  /** Python's `pow(b, e, p)`, which is never negative, whatever the sign of the base. */
  function PowMod(b: int, e: nat, p: int): int
    requires p > 0
  {
    Pow(b, e) % p
  }

  ghost predicate Cong(x: int, y: int, p: int)
    requires p > 0
  {
    x % p == y % p
  }

  // ---- Arithmetic modulo p ----

  lemma BigMultiple(k: int, p: int)
    requires p > 0 && k != 0
    ensures k * p >= p || k * p <= -p
  {
    if k >= 1 {
      assert (k - 1) * p >= 0;
    } else {
      assert (-k - 1) * p >= 0;
    }
  }

  lemma QuotientUnique(x: int, q: int, r: int, p: int)
    requires p > 0 && x == q * p + r && 0 <= r < p
    ensures x % p == r && x / p == q
  {
    var d, m := x / p, x % p;
    assert d * p - q * p == r - m;
    assert (d - q) * p == d * p - q * p;
    if d != q {
      BigMultiple(d - q, p);
    }
  }

  lemma AddMultiple(r: int, m: int, p: int)
    requires p > 0
    ensures (r + m * p) % p == r % p
  {
    var q := r / p;
    assert r == q * p + r % p;
    assert (q + m) * p == q * p + m * p;
    QuotientUnique(r + m * p, q + m, r % p, p);
  }

  lemma CongMul(x: int, y: int, z: int, p: int)
    requires p > 0 && Cong(x, y, p)
    ensures Cong(x * z, y * z, p)
  {
    var q := x / p - y / p;
    assert x == y + q * p by {
      assert x == (x / p) * p + x % p && y == (y / p) * p + y % p;
      assert q * p == (x / p) * p - (y / p) * p;
    }
    assert x * z == y * z + (q * z) * p by {
      assert x * z == y * z + (q * p) * z;
      assert (q * p) * z == (q * z) * p;
    }
    AddMultiple(y * z, q * z, p);
  }

  lemma CongMulBoth(x: int, x': int, y: int, y': int, p: int)
    requires p > 0 && Cong(x, x', p) && Cong(y, y', p)
    ensures Cong(x * y, x' * y', p)
  {
    CongMul(x, x', y, p);
    CongMul(y, y', x', p);
  }

  lemma CongAdd(x: int, y: int, z: int, p: int)
    requires p > 0 && Cong(x, y, p)
    ensures Cong(x + z, y + z, p)
  {
    var q := x / p - y / p;
    assert x == y + q * p by {
      assert x == (x / p) * p + x % p && y == (y / p) * p + y % p;
      assert q * p == (x / p) * p - (y / p) * p;
    }
    AddMultiple(y + z, q, p);
  }

  lemma CongReduce(x: int, p: int)
    requires p > 0
    ensures Cong(x % p, x, p)
  {
  }

  lemma {:induction false} CongPow(x: int, y: int, e: nat, p: int)
    requires p > 0 && Cong(x, y, p)
    ensures Cong(Pow(x, e), Pow(y, e), p)
  {
    if e > 0 {
      CongPow(x, y, e - 1, p);
      CongMul(x, y, Pow(x, e - 1), p);
      CongMul(Pow(x, e - 1), Pow(y, e - 1), y, p);
    }
  }

  // ---- Laws of powers ----

  lemma {:induction false} PowAdd(b: int, m: nat, n: nat)
    ensures Pow(b, m + n) == Pow(b, m) * Pow(b, n)
  {
    if m > 0 {
      PowAdd(b, m - 1, n);
      assert b * (Pow(b, m - 1) * Pow(b, n)) == (b * Pow(b, m - 1)) * Pow(b, n);
    }
  }

  lemma {:induction false} PowPow(b: int, m: nat, n: nat)
    ensures Pow(Pow(b, m), n) == Pow(b, m * n)
  {
    if n > 0 {
      PowPow(b, m, n - 1);
      assert m * n == m + m * (n - 1);
      PowAdd(b, m, m * (n - 1));
    } else {
      assert m * n == 0;
    }
  }

  lemma OddFactor(q: int, p: int, h: int)
    requires p % 2 == 1 && q * p == 2 * h
    ensures q % 2 == 0
  {
    var k := p / 2;
    assert p == 2 * k + 1;
    assert q * p == 2 * (q * k) + q;
  }

  lemma HalveModulo(h: int, p: int)
    requires p > 1 && p % 2 == 1 && (2 * h) % p == 0
    ensures h % p == 0
  {
    var q := (2 * h) / p;
    assert 2 * h == q * p;
    OddFactor(q, p, h);
    var r := q / 2;
    assert q * p == 2 * (r * p) by { assert q == 2 * r; }
    AddMultiple(0, r, p);
  }

  /** No power of two is a multiple of an odd number above one. */
  lemma {:induction false} PowTwoNotZero(e: nat, p: int)
    requires p > 1 && p % 2 == 1
    ensures PowMod(2, e, p) != 0
  {
    if e > 0 {
      PowTwoNotZero(e - 1, p);
      if (2 * Pow(2, e - 1)) % p == 0 {
        HalveModulo(Pow(2, e - 1), p);
      }
    }
  }

  lemma CongReduced(x: int, y: int, z: int, p: int)
    requires p > 0 && 0 <= x < p && 0 <= y < p && Cong(x, z, p) && Cong(y, z, p)
    ensures x == y
  {
    QuotientUnique(x, 0, x, p);
    QuotientUnique(y, 0, y, p);
  }
}
