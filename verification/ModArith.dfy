/** Arithmetic modulo n, in small steps. */
module ModArith {

  lemma ProductSign(t: int, n: int)
    requires n > 0
    ensures t > 0 ==> t * n >= n
    ensures t < 0 ==> t * n <= -n
  {
  }

  lemma ModUnique(a: int, q: int, r: int, n: int)
    requires n > 0 && 0 <= r < n && a == q * n + r
    ensures a % n == r
  {
    var t := a / n - q;
    assert a == (a / n) * n + a % n;
    assert t * n == (a / n) * n - q * n;
    ProductSign(t, n);
  }

  /** Adding a multiple of the modulus changes nothing. */
  lemma ModShift(a: int, b: int, q: int, n: int)
    requires n > 0 && a == q * n + b
    ensures a % n == b % n
  {
    var s := b / n;
    assert b == s * n + b % n;
    assert (q + s) * n == q * n + s * n;
    ModUnique(a, q + s, b % n, n);
  }

  lemma ModMulLeft(a: int, b: int, n: int)
    requires n > 0
    ensures (a % n) * b % n == a * b % n
  {
    var q, r := a / n, a % n;
    assert a == q * n + r;
    assert a * b == (q * n) * b + r * b;
    assert (q * n) * b == (q * b) * n;
    ModShift(a * b, r * b, q * b, n);
  }

  lemma ModMulRight(a: int, b: int, n: int)
    requires n > 0
    ensures a * (b % n) % n == a * b % n
  {
    ModMulLeft(b, a, n);
    assert a * b == b * a && a * (b % n) == (b % n) * a;
  }

  lemma ModAddLeft(a: int, b: int, n: int)
    requires n > 0
    ensures (a % n + b) % n == (a + b) % n
  {
    ModShift(a + b, a % n + b, a / n, n);
  }

  lemma ModAddBoth(a: int, b: int, n: int)
    requires n > 0
    ensures (a % n + b % n) % n == (a + b) % n
  {
    ModAddLeft(a, b % n, n);
    ModAddLeft(b, a, n);
  }

  /** Congruent factors give congruent products. */
  lemma ModMulCongruent(a: int, a': int, b: int, n: int)
    requires n > 0 && a % n == a' % n
    ensures a * b % n == a' * b % n
  {
    ModMulLeft(a, b, n);
    ModMulLeft(a', b, n);
  }

  /** Two parties multiply the other's reduced number and meet; the product is not 0 unless the
      first factor is. */
  lemma ModExchange(k: int, d: int, n: int)
    requires n > 0
    ensures d * (k % n) % n == k * (d % n) % n
    ensures k * (d % n) % n != 0 ==> k % n != 0
    ensures (k % n) % n == k % n
  {
    ModMulRight(d, k, n);
    ModMulRight(k, d, n);
    ModMulLeft(k, d % n, n);
    ModUnique(k % n, 0, k % n, n);
    assert d * k == k * d;
  }

  /** Multiplying by u undoes multiplying by b when b * u is 1. */
  lemma UnitCancel(a: int, b: int, u: int, n: int)
    requires n > 0 && b * u % n == 1 % n
    ensures (a * b % n) * u % n == a % n
  {
    ModMulLeft(a * b, u, n);
    assert (a * b) * u == (b * u) * a;
    ModMulCongruent(b * u, 1, a, n);
  }
}
