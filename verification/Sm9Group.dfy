/** The pairing groups of gm-sm9-rs seen through exponents, its scalar hashes, and master and
    user keys (gm-sm9-rs/src/key/mod.rs).

    A point of G1 is the identity or a coordinate pair; every point has a logarithm to the
    generator P1. Points of G2 and elements of GT are written as their exponents to P2 and
    e(P1, P2). */
module Sm9Group {
  import opened Bytes
  import opened ModArith

  datatype G1 = Identity | Affine(x: Bytes, y: Bytes)
  type G2 = nat
  type Gt = nat

  /** `coords` and `log` relate exponents and coordinates; `gtBytes` serialises GT; `inv` is the
      modular inverse; `h1` and `h2` are the two hash functions before reduction. */
  datatype Group = Group(
    order: nat,
    coords: nat -> (Bytes, Bytes),
    log: G1 -> nat,
    gtBytes: nat -> Bytes,
    inv: nat -> nat,
    h1: (Bytes, byte) -> nat,
    h2: (Bytes, Bytes) -> nat)

  predicate Exponent(g: Group, k: nat) { k < g.order }

  /** The order is a prime: every non-zero exponent has an inverse, and every exponent has its
      own point. */
  ghost predicate GroupOk(g: Group) {
    && g.order > 2
    && (forall k: nat {:trigger Exponent(g, k)} :: Exponent(g, k) ==>
          Log(g, Point(g, k)) == k && (k > 0 ==> k * g.inv(k) % g.order == 1))
  }

  // ---------------------------------------------------------------- group operations

  /** [k]P1 for an exponent k. */
  function Point(g: Group, k: nat): (p: G1) {
    if k == 0 then Identity else Affine(Fit(g.coords(k).0, 32), Fit(g.coords(k).1, 32))
  }

  function Generator(g: Group): (p: G1) {
    Point(g, 1)
  }

  function Log(g: Group, p: G1): (k: nat)
    requires g.order > 0
    ensures k < g.order
  {
    g.log(p) % g.order
  }

  function Times(n: nat, a: nat, b: nat): (r: nat)
    requires n > 0
    ensures r < n
  {
    a * b % n
  }

  function Plus(n: nat, a: nat, b: nat): (r: nat)
    requires n > 0
    ensures r < n
  {
    (a + b) % n
  }

  function Minus(n: nat, a: nat, b: nat): (r: nat)
    requires n > 0
    ensures r < n
  {
    (a - b) % n
  }

  function ScalarMul(g: Group, p: G1, k: nat): (q: G1)
    requires g.order > 0
  {
    Point(g, Times(g.order, Log(g, p), k))
  }

  function AddPoints(g: Group, p: G1, q: G1): (r: G1)
    requires g.order > 0
  {
    Point(g, Plus(g.order, Log(g, p), Log(g, q)))
  }

  /** e(p, [q]P2), as an exponent of e(P1, P2): bilinear by construction. */
  function Pair(g: Group, p: G1, q: G2): (e: Gt)
    requires g.order > 0
    ensures e < g.order
  {
    Times(g.order, Log(g, p), q)
  }

  /** H1 and H2 land in [1, N - 1]. */
  function Hash1(g: Group, id: Bytes, hid: byte): (h: nat)
    requires g.order > 2
    ensures 0 < h < g.order
  {
    1 + g.h1(id, hid) % (g.order - 1)
  }

  function Hash2(g: Group, message: Bytes, w: Bytes): (h: nat)
    requires g.order > 2
    ensures 0 < h < g.order
  {
    1 + g.h2(message, w) % (g.order - 1)
  }

  /** A random draw reduced to [1, N - 1]. */
  function Scalar(g: Group, draw: nat): (r: nat)
    requires g.order > 2
    ensures 0 < r < g.order
  {
    1 + draw % (g.order - 1)
  }

  /** A point that came from the group operations or from 32-byte coordinates. */
  predicate WellSized(p: G1) {
    p.Affine? ==> |p.x| == 32 && |p.y| == 32
  }

  /** The uncompressed serialisation; the identity has its own form. */
  function PointBytes(p: G1): (r: Bytes)
    requires WellSized(p)
    ensures |r| == 65
  {
    if p.Identity? then [0] + Zeros(64) else [4] + p.x + p.y
  }

  // ---------------------------------------------------------------- laws

  lemma LogOfPoint(g: Group, k: nat)
    requires GroupOk(g) && k < g.order
    ensures Log(g, Point(g, k)) == k
  {
    assert Exponent(g, k);
  }

  lemma Inverse(g: Group, k: nat)
    requires GroupOk(g) && 0 < k < g.order
    ensures Times(g.order, k, g.inv(k)) == 1
  {
    assert Exponent(g, k);
  }

  /** A product of non-zero exponents is not zero. */
  lemma NoZeroDivisors(g: Group, a: nat, b: nat)
    requires GroupOk(g) && 0 < a < g.order && 0 < b < g.order
    ensures Times(g.order, a, b) != 0
  {
    Inverse(g, b);
    UnitCancel(a, b, g.inv(b), g.order);
    if Times(g.order, a, b) == 0 { ZeroTimes(g.order, g.inv(b)); SmallMod(a, g.order); }
  }

  lemma ZeroTimes(n: nat, a: nat)
    requires n > 0
    ensures 0 * a % n == 0
  {
    assert 0 * a == 0;
  }

  lemma SmallMod(a: nat, n: nat)
    requires a < n
    ensures a % n == a
  {
  }

  lemma GeneratorTimes(g: Group, k: nat)
    requires GroupOk(g) && k < g.order
    ensures ScalarMul(g, Generator(g), k) == Point(g, k)
  {
    LogOfPoint(g, 1);
    TimesOne(g.order, k);
  }

  lemma GeneratorPair(g: Group, q: G2)
    requires GroupOk(g) && q < g.order
    ensures Pair(g, Generator(g), q) == q
  {
    LogOfPoint(g, 1);
    TimesOne(g.order, q);
  }

  lemma TimesOne(n: nat, a: nat)
    requires a < n
    ensures Times(n, 1, a) == a && Times(n, a, 1) == a
  {
    SmallMod(a, n);
    assert 1 * a == a && a * 1 == a;
  }

  /** The pairing is bilinear and e(P1, P2) generates. */
  lemma Bilinear(g: Group, p: G1, p': G1, q: G2, q': G2, k: nat)
    requires GroupOk(g)
    ensures Pair(g, AddPoints(g, p, p'), q) == Plus(g.order, Pair(g, p, q), Pair(g, p', q))
    ensures Pair(g, p, Plus(g.order, q, q')) == Plus(g.order, Pair(g, p, q), Pair(g, p, q'))
    ensures Pair(g, ScalarMul(g, p, k), q) == Times(g.order, Pair(g, p, q), k)
    ensures Pair(g, Generator(g), 1) == 1
  {
    var n, a, a' := g.order, Log(g, p), Log(g, p');
    GeneratorPair(g, 1);
    LogOfPoint(g, Plus(n, a, a'));
    LogOfPoint(g, Times(n, a, k));
    SumTimes(a, a', q, n);
    SumTimes(q, q', a, n);
    ProductTimes(a, k, q, n);
    TimesCommutes(n, a, Plus(n, q, q'));
    TimesCommutes(n, a, q);
    TimesCommutes(n, a, q');
  }

  lemma SumTimes(a: nat, b: nat, c: nat, n: nat)
    requires n > 0
    ensures ((a + b) % n) * c % n == (a * c % n + b * c % n) % n
  {
    ModMulLeft(a + b, c, n);
    assert (a + b) * c == a * c + b * c;
    ModAddBoth(a * c, b * c, n);
  }

  lemma ProductTimes(a: nat, k: nat, q: nat, n: nat)
    requires n > 0
    ensures (a * k % n) * q % n == (a * q % n) * k % n
  {
    ModMulLeft(a * k, q, n);
    ModMulLeft(a * q, k, n);
    assert (a * k) * q == (a * q) * k;
  }

  // ---------------------------------------------------------------- keys

  /** s + h with one conditional subtraction. */
  function ReduceOnce(n: nat, s: nat, h: nat): (r: nat)
    requires s < n && h < n
    ensures r == Plus(n, s, h)
  {
    if s + h >= n then ModUnique(s + h, 1, s + h - n, n); s + h - n else SmallMod(s + h, n); s + h
  }

  /** The exponent s / (h + s) of a user key, by the inverse of h + s; none when h + s is 0. */
  function UserExponent(g: Group, s: nat, h: nat): (r: Option<nat>)
    requires s < g.order && h < g.order
    ensures r.Some? ==> r.value < g.order
  {
    var t := ReduceOnce(g.order, s, h);
    if t == 0 then None else Some(Times(g.order, s, g.inv(t)))
  }

  /** Pairing a multiple x of (h + s) with the user exponent leaves x times the master secret:
      the extraction inverse cancels. */
  lemma ExtractionCancels(g: Group, s: nat, h: nat, x: nat)
    requires GroupOk(g) && s < g.order && h < g.order && UserExponent(g, s, h).Some?
    ensures var t, d := Plus(g.order, s, h), UserExponent(g, s, h).value;
            Times(g.order, Times(g.order, x, t), d) == Times(g.order, x, s)
  {
    var n := g.order;
    var t := Plus(n, s, h);
    Inverse(g, t);
    CancelThrough(x, t, s, g.inv(t), n);
  }

  lemma CancelThrough(x: int, t: int, s: int, u: int, n: int)
    requires n > 1 && t * u % n == 1
    ensures (x * t % n) * (s * u % n) % n == x * s % n
  {
    ModMulRight(x * t % n, s * u, n);
    ModMulLeft(x * t, s * u, n);
    assert (x * t) * (s * u) == (t * u) * (x * s);
    ModMulCongruent(t * u, 1, x * s, n);
  }

  /** A user exponent is never zero. */
  lemma UserExponentNonZero(g: Group, s: nat, h: nat)
    requires GroupOk(g) && 0 < s < g.order && h < g.order && UserExponent(g, s, h).Some?
    ensures UserExponent(g, s, h).value != 0
  {
    var t, d := Plus(g.order, s, h), UserExponent(g, s, h).value;
    ExtractionCancels(g, s, h, 1);
    if d == 0 {
      TimesZero(g.order, Times(g.order, 1, t));
      SmallMod(s, g.order);
    }
  }

  lemma TimesZero(n: nat, a: nat)
    requires n > 0
    ensures Times(n, a, 0) == 0 && forall b: nat :: Times(n, 1, b) == b % n
  {
    assert a * 0 == 0;
    forall b: nat ensures Times(n, 1, b) == b % n { assert 1 * b == b; }
  }

  /** Multiplication by a non-zero exponent is injective. */
  lemma TimesInjective(g: Group, a: nat, x: nat, y: nat)
    requires GroupOk(g) && 0 < a < g.order && x < g.order && y < g.order
    ensures Times(g.order, a, x) == Times(g.order, a, y) <==> x == y
  {
    Inverse(g, a);
    assert x * a == a * x && y * a == a * y;
    UnitCancel(x, a, g.inv(a), g.order);
    UnitCancel(y, a, g.inv(a), g.order);
    SmallMod(x, g.order);
    SmallMod(y, g.order);
  }

  /** Addition of a fixed exponent is injective. */
  lemma PlusInjective(n: nat, a: nat, x: nat, y: nat)
    requires a < n && x < n && y < n
    ensures Plus(n, a, x) == Plus(n, a, y) <==> x == y
    ensures Plus(n, x, a) == Plus(n, a, x) && Plus(n, y, a) == Plus(n, a, y)
  {
    assert Plus(n, a, x) == ReduceOnce(n, a, x);
    assert Plus(n, a, y) == ReduceOnce(n, a, y);
  }

  // ---------------------------------------------------------------- encryption-side keys

  datatype EncKey = EncKey(de: G2, ppube: G1)

  /** EncMasterKey: the public key is [s]P1. */
  function MasterPublic(g: Group, s: nat): (p: G1)
    requires g.order > 2
  {
    ScalarMul(g, Generator(g), s)
  }

  /** EncMasterKey::extract_key_with_hid. */
  function ExtractEncKey(g: Group, s: nat, id: Bytes, hid: byte): (r: Option<EncKey>)
    requires g.order > 2 && s < g.order
  {
    if s == 0 then None
    else
      var d := UserExponent(g, s, Hash1(g, id, hid));
      if d.None? then None else Some(EncKey(d.value, MasterPublic(g, s)))
  }

  /** A key is extracted if and only if the master secret s is not 0 and H1 + s is not 0 modulo N; it
      is then the exponent d with d (H1 + s) = s, beside [s]P1. */
  lemma ExtractedExactly(g: Group, s: nat, id: Bytes, hid: byte)
    requires GroupOk(g) && s < g.order
    ensures var key, t := ExtractEncKey(g, s, id, hid), (s + 1 + g.h1(id, hid) % (g.order - 1)) % g.order;
            && (key.Some? <==> s != 0 && t != 0)
            && (key.Some? ==> key.value.de * t % g.order == s && key.value.ppube == Point(g, s))
  {
    var h := Hash1(g, id, hid);
    var t := Plus(g.order, s, h);
    GeneratorTimes(g, s);
    assert s + 1 + g.h1(id, hid) % (g.order - 1) == s + h;
    if s != 0 && t != 0 {
      ExtractionCancels(g, s, h, 1);
      var d := UserExponent(g, s, h).value;
      TimesOne(g.order, t);
      TimesOne(g.order, s);
      TimesCommutes(g.order, t, d);
    }
  }

  /** Q = [H1(ID || hid)]P1 + Ppub. */
  function IdentityPoint(g: Group, id: Bytes, hid: byte, ppube: G1): (q: G1)
    requires g.order > 2
  {
    AddPoints(g, ScalarMul(g, Generator(g), Hash1(g, id, hid)), ppube)
  }

  lemma MasterPublicLog(g: Group, s: nat)
    requires GroupOk(g) && s < g.order
    ensures Log(g, MasterPublic(g, s)) == s && Pair(g, MasterPublic(g, s), 1) == s
  {
    GeneratorTimes(g, s);
    LogOfPoint(g, s);
    TimesOne(g.order, s);
  }

  /** The logarithm of [r]Q is r (s + h1). */
  lemma MultipleLog(g: Group, s: nat, id: Bytes, hid: byte, r: nat)
    requires GroupOk(g) && s < g.order
    ensures var t := Plus(g.order, s, Hash1(g, id, hid));
            && Log(g, ScalarMul(g, IdentityPoint(g, id, hid, MasterPublic(g, s)), r)) == Times(g.order, r, t)
            && ScalarMul(g, IdentityPoint(g, id, hid, MasterPublic(g, s)), r) == Point(g, Times(g.order, r, t))
  {
    var h := Hash1(g, id, hid);
    var t := Plus(g.order, s, h);
    MasterPublicLog(g, s);
    GeneratorTimes(g, h);
    LogOfPoint(g, h);
    assert Plus(g.order, h, s) == t;
    LogOfPoint(g, t);
    assert t * r == r * t;
    LogOfPoint(g, Times(g.order, r, t));
  }

  /** Pairing [r]Q with the matching user key gives e(Ppub, P2)^r, and [r]Q is not the identity. */
  lemma PairWithUserKey(g: Group, s: nat, id: Bytes, hid: byte, r: nat)
    requires GroupOk(g) && s < g.order && ExtractEncKey(g, s, id, hid).Some?
    ensures var key, p := ExtractEncKey(g, s, id, hid).value,
                          ScalarMul(g, IdentityPoint(g, id, hid, MasterPublic(g, s)), r);
            && Pair(g, p, key.de) == Times(g.order, Pair(g, key.ppube, 1), r)
            && (0 < r < g.order ==> p.Affine?)
  {
    var h := Hash1(g, id, hid);
    var t := Plus(g.order, s, h);
    MultipleLog(g, s, id, hid, r);
    MasterPublicLog(g, s);
    ExtractionCancels(g, s, h, r);
    assert r * s == s * r;
    if 0 < r < g.order { NoZeroDivisors(g, r, t); }
  }

  /** Pairing [r]Q, formed under one hid, with a key extracted under another agrees with
      e(Ppub, P2)^r exactly when the two identity hashes agree. */
  lemma PairAcrossHids(g: Group, s: nat, id: Bytes, hid: byte, keyHid: byte, r: nat)
    requires GroupOk(g) && s < g.order && 0 < r < g.order && ExtractEncKey(g, s, id, keyHid).Some?
    ensures var key, p := ExtractEncKey(g, s, id, keyHid).value,
                          ScalarMul(g, IdentityPoint(g, id, hid, MasterPublic(g, s)), r);
            Pair(g, p, key.de) == Times(g.order, Pair(g, key.ppube, 1), r)
            <==> g.h1(id, hid) % (g.order - 1) == g.h1(id, keyHid) % (g.order - 1)
  {
    var n, h, h' := g.order, Hash1(g, id, hid), Hash1(g, id, keyHid);
    var t, t', d := Plus(n, s, h), Plus(n, s, h'), ExtractEncKey(g, s, id, keyHid).value.de;
    MultipleLog(g, s, id, hid, r);
    MultipleLog(g, s, id, keyHid, r);
    PairWithUserKey(g, s, id, keyHid, r);
    UserExponentNonZero(g, s, h');
    PlusInjective(n, s, h, h');
    TimesInjective(g, r, t, t');
    TimesInjective(g, d, Times(n, r, t), Times(n, r, t'));
    TimesCommutes(n, d, Times(n, r, t));
    TimesCommutes(n, d, Times(n, r, t'));
  }

  lemma TimesCommutes(n: nat, a: nat, b: nat)
    requires n > 0
    ensures Times(n, a, b) == Times(n, b, a)
  {
    assert a * b == b * a;
  }
}
