/** The SM2 group as multiples of its generator. */
module Sm2Curve {
  import opened Bytes
  import ModArith

  /** The SM2 group: points are multiples k of the generator, 0 <= k < order, and every multiple
      but 0 has a pair of 32-byte coordinates from which it can be found again. */
  datatype Curve = Curve(order: nat, coords: nat -> (Bytes, Bytes), find: (Bytes, Bytes) -> Option<nat>)

  predicate Multiple(c: Curve, k: nat) { 0 < k < c.order }

  ghost predicate CurveOk(c: Curve) {
    c.order > 1 && forall k: nat {:trigger Multiple(c, k)} :: Multiple(c, k) ==> c.find(X(c, k), Y(c, k)) == Some(k)
  }

  function X(c: Curve, k: nat): (r: Bytes)
    ensures |r| == 32
  {
    Fit(c.coords(k).0, 32)
  }

  function Y(c: Curve, k: nat): (r: Bytes)
    ensures |r| == 32
  {
    Fit(c.coords(k).1, 32)
  }

  /** The multiple [k]([p]G). */
  function Times(c: Curve, k: nat, p: nat): (r: nat)
    requires c.order > 1
    ensures r < c.order
  {
    k * p % c.order
  }

  /** The order is prime: a product of non-zero multiples is not zero. */
  ghost predicate PrimeOrder(c: Curve) {
    c.order > 1 && forall a: nat, b: nat {:trigger Multiple(c, a), Multiple(c, b)} ::
      Multiple(c, a) && Multiple(c, b) ==> Times(c, a, b) != 0
  }

  lemma FoundAgain(c: Curve, k: nat)
    requires CurveOk(c) && 0 < k < c.order
    ensures c.find(X(c, k), Y(c, k)) == Some(k)
  {
    assert Multiple(c, k);
  }

  lemma NonZeroProduct(c: Curve, a: nat, b: nat)
    requires PrimeOrder(c) && 0 < a < c.order && 0 < b < c.order
    ensures Times(c, a, b) != 0
  {
    assert Multiple(c, a) && Multiple(c, b);
  }

  /** Multiples add, and the first multiple is the point itself: [k]P is P added k times. */
  lemma TimesAdds(c: Curve, a: nat, b: nat, p: nat)
    requires c.order > 1 && p < c.order
    ensures Times(c, 0, p) == 0 && Times(c, 1, p) == p
    ensures Times(c, a + b, p) == (Times(c, a, p) + Times(c, b, p)) % c.order
  {
    SumOfProducts(a, b, p);
    ModArith.ModAddBoth(a * p, b * p, c.order);
    ModArith.ModUnique(p, 0, p, c.order);
  }

  lemma SumOfProducts(a: nat, b: nat, p: nat)
    ensures (a + b) * p == a * p + b * p && 0 * p == 0 && 1 * p == p
  {
  }

  lemma TimesSymmetric(c: Curve, a: nat, b: nat)
    requires c.order > 1
    ensures Times(c, a, b) == Times(c, b, a)
  {
    assert a * b == b * a;
  }
}
