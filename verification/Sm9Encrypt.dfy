/** SM9 public-key encryption and its ciphertext serialisations (gm-sm9-rs/src/encrypt.rs). */
module Sm9Encrypt {
  import opened Bytes
  import opened Kdf
  import opened Retry
  import opened Sm9Group

  const HID_ENC: byte := 2
  const MAX_ENCRYPT_RETRIES: nat := 128

  datatype Ciphertext = Ciphertext(c1: G1, c2: Bytes, c3: Bytes)

  // ---------------------------------------------------------------- key encapsulation

  predicate AllZeros(data: Bytes) {
    forall i :: 0 <= i < |data| ==> data[i] == 0
  }

  /** is_all_zeros: or-ing the bytes together. */
  method IsAllZeros(data: Bytes) returns (r: bool)
    ensures r == AllZeros(data)
  {
    var acc := false;
    for i := 0 to |data|
      invariant acc <==> !AllZeros(data[..i])
    {
      assert data[..i + 1] == data[..i] + [data[i]];
      acc := acc || data[i] != 0;
    }
    assert data[..|data|] == data;
    r := !acc;
  }

  /** KDF(C1 || w || ID, klen); a point at infinity has no encoding. */
  function Encapsulated(g: Group, sm3: Sm3, c1: G1, w: Gt, id: Bytes, klen: nat): (k: Result<Bytes>)
    requires WellSized(c1)
    ensures k.Ok? <==> c1.Affine?
    ensures k.Ok? ==> |k.value| == klen
  {
    if c1.Identity? then Err else Ok(Stream(Counter(sm3, PointBytes(c1) + g.gtBytes(w) + id), klen))
  }

  function KemAttempt(g: Group, sm3: Sm3, id: Bytes, ppube: G1, klen: nat, r: nat): (a: Attempt<(Bytes, G1)>)
    requires g.order > 2
    ensures a.Done? && a.outcome.Ok? ==> |a.outcome.value.0| == klen && a.outcome.value.1.Affine?
  {
    var c1 := ScalarMul(g, IdentityPoint(g, id, HID_ENC, ppube), r);
    var k := Encapsulated(g, sm3, c1, Times(g.order, Pair(g, ppube, 1), r), id, klen);
    if k.Err? then Done(Err) else if AllZeros(k.value) then Again else Done(Ok((k.value, c1)))
  }

  function KemAttempts(g: Group, sm3: Sm3, id: Bytes, ppube: G1, klen: nat, draws: nat -> nat)
    : (f: nat -> Attempt<(Bytes, G1)>)
    requires g.order > 2
  {
    (i: nat) => KemAttempt(g, sm3, id, ppube, klen, Scalar(g, draws(i)))
  }

  function KemEncrypt(g: Group, sm3: Sm3, id: Bytes, ppube: G1, klen: nat, draws: nat -> nat): (r: Result<(Bytes, G1)>)
    requires g.order > 2
  {
    FirstDone(KemAttempts(g, sm3, id, ppube, klen, draws), 0, MAX_ENCRYPT_RETRIES)
  }

  function KemDecrypt(g: Group, sm3: Sm3, key: EncKey, c1: G1, id: Bytes, klen: nat): (r: Result<Bytes>)
    requires g.order > 2 && WellSized(c1)
    ensures r.Ok? ==> |r.value| == klen
  {
    var k := Encapsulated(g, sm3, c1, Pair(g, c1, key.de), id, klen);
    if k.Err? || AllZeros(k.value) then Err else k
  }

  method KemEncryptImpl(g: Group, sm3: Sm3, id: Bytes, ppube: G1, klen: nat, draws: nat -> nat)
    returns (r: Result<(Bytes, G1)>)
    requires g.order > 2
    ensures r == KemEncrypt(g, sm3, id, ppube, klen, draws)
  {
    hide Times, Hash1, Scalar, AllZeros, Stream, Counter;
    ghost var f := KemAttempts(g, sm3, id, ppube, klen, draws);
    var q := IdentityPoint(g, id, HID_ENC, ppube);
    var i := 0;
    while i < MAX_ENCRYPT_RETRIES
      invariant 0 <= i <= MAX_ENCRYPT_RETRIES
      invariant FirstDone(f, i, MAX_ENCRYPT_RETRIES) == FirstDone(f, 0, MAX_ENCRYPT_RETRIES)
    {
      var e := Scalar(g, draws(i));
      var c1 := ScalarMul(g, q, e);
      var w := Times(g.order, Pair(g, ppube, 1), e);
      if c1.Identity? {
        return Err;
      }
      var k := Sm9Kdf(sm3, PointBytes(c1) + g.gtBytes(w) + id, klen);
      var zeros := IsAllZeros(k);
      if !zeros {
        return Ok((k, c1));
      }
      i := i + 1;
    }
    r := Err;
  }

  // ---------------------------------------------------------------- encryption

  /** The ciphertext under an encapsulated key K1 || K2. */
  function Seal(sm3: Sm3, message: Bytes, k: Bytes, c1: G1): (c: Ciphertext)
    requires |k| == |message| + 32
    ensures |c.c2| == |message|
  {
    var c2 := XorSeq(message, k[..|message|]);
    Ciphertext(c1, c2, Digest(sm3, k[|message|..] + c2))
  }

  function Encrypt(g: Group, sm3: Sm3, id: Bytes, ppube: G1, message: Bytes, draws: nat -> nat): (r: Result<Ciphertext>)
    requires g.order > 2
  {
    var kem := KemEncrypt(g, sm3, id, ppube, |message| + 32, draws);
    if kem.Err? then Err
    else
      KemLength(g, sm3, id, ppube, |message| + 32, draws);
      Ok(Seal(sm3, message, kem.value.0, kem.value.1))
  }

  function Open(sm3: Sm3, k: Bytes, c: Ciphertext): (r: Result<Bytes>)
    requires |k| == |c.c2| + 32
  {
    if Digest(sm3, k[|c.c2|..] + c.c2) != c.c3 then Err else Ok(XorSeq(c.c2, k[..|c.c2|]))
  }

  function Decrypt(g: Group, sm3: Sm3, key: EncKey, id: Bytes, c: Ciphertext): (r: Result<Bytes>)
    requires g.order > 2 && WellSized(c.c1)
  {
    var k := KemDecrypt(g, sm3, key, c.c1, id, |c.c2| + 32);
    if k.Err? then Err else Open(sm3, k.value, c)
  }

  /** An encapsulation that succeeds comes from one of the draws. */
  lemma KemAccepted(g: Group, sm3: Sm3, id: Bytes, ppube: G1, klen: nat, draws: nat -> nat) returns (i: nat)
    requires g.order > 2 && KemEncrypt(g, sm3, id, ppube, klen, draws).Ok?
    ensures KemAttempt(g, sm3, id, ppube, klen, Scalar(g, draws(i))) == Done(KemEncrypt(g, sm3, id, ppube, klen, draws))
    ensures |KemEncrypt(g, sm3, id, ppube, klen, draws).value.0| == klen
  {
    hide FirstDone, Scalar, KemAttempt;
    i := FirstDoneAt(KemAttempts(g, sm3, id, ppube, klen, draws), 0, MAX_ENCRYPT_RETRIES);
  }

  lemma KemLength(g: Group, sm3: Sm3, id: Bytes, ppube: G1, klen: nat, draws: nat -> nat)
    requires g.order > 2 && KemEncrypt(g, sm3, id, ppube, klen, draws).Ok?
    ensures |KemEncrypt(g, sm3, id, ppube, klen, draws).value.0| == klen
  {
    var i := KemAccepted(g, sm3, id, ppube, klen, draws);
  }

  /** Both sides derive the same key stream through the pairing. */
  lemma KemAgrees(g: Group, sm3: Sm3, s: nat, id: Bytes, klen: nat, r: nat)
    requires GroupOk(g) && s < g.order && 0 < r < g.order && ExtractEncKey(g, s, id, HID_ENC).Some?
    ensures var a := KemAttempt(g, sm3, id, MasterPublic(g, s), klen, r);
            && a != Done(Err)
            && (a.Done? ==> KemDecrypt(g, sm3, ExtractEncKey(g, s, id, HID_ENC).value, a.outcome.value.1, id, klen)
                            == Ok(a.outcome.value.0))
  {
    PairWithUserKey(g, s, id, HID_ENC, r);
    hide Times, Pair, ScalarMul, IdentityPoint, UserExponent, Stream, Counter, AllZeros, GroupOk;
  }

  lemma OpenUndoesSeal(sm3: Sm3, message: Bytes, k: Bytes, c1: G1)
    requires |k| == |message| + 32
    ensures Open(sm3, k, Seal(sm3, message, k, c1)) == Ok(message)
  {
    XorSeqTwice(message, k[..|message|]);
  }

  /** Decryption under the matching extracted key and identity returns the message, for every
      message and whatever the draws. */
  lemma DecryptUndoesEncrypt(g: Group, sm3: Sm3, s: nat, id: Bytes, message: Bytes, draws: nat -> nat)
    requires GroupOk(g) && s < g.order && ExtractEncKey(g, s, id, HID_ENC).Some?
    requires Encrypt(g, sm3, id, MasterPublic(g, s), message, draws).Ok?
    ensures var c := Encrypt(g, sm3, id, MasterPublic(g, s), message, draws).value;
            c.c1.Affine? && WellSized(c.c1)
            && Decrypt(g, sm3, ExtractEncKey(g, s, id, HID_ENC).value, id, c) == Ok(message)
  {
    var klen, ppube := |message| + 32, MasterPublic(g, s);
    var i := KemAccepted(g, sm3, id, ppube, klen, draws);
    var r := Scalar(g, draws(i));
    KemAgrees(g, sm3, s, id, klen, r);
    var k := KemEncrypt(g, sm3, id, ppube, klen, draws).value;
    hide KemEncrypt, KemDecrypt, Scalar, Open, Seal, ExtractEncKey, IdentityPoint, Times, GroupOk;
    OpenUndoesSeal(sm3, message, k.0, k.1);
    assert Seal(sm3, message, k.0, k.1).c1 == k.1 by { SealKeepsPoint(sm3, message, k.0, k.1); }
  }

  lemma SealKeepsPoint(sm3: Sm3, message: Bytes, k: Bytes, c1: G1)
    requires |k| == |message| + 32
    ensures Seal(sm3, message, k, c1).c1 == c1
  {
  }

  /** The key stream over C1, g^r and the identity that a scalar r leads to. */
  function DrawnStream(g: Group, sm3: Sm3, id: Bytes, ppube: G1, klen: nat, r: nat): (k: Bytes)
    requires g.order > 2
    ensures |k| == klen
  {
    var c1 := ScalarMul(g, IdentityPoint(g, id, HID_ENC, ppube), r);
    Stream(Counter(sm3, PointBytes(c1) + g.gtBytes(Times(g.order, Pair(g, ppube, 1), r)) + id), klen)
  }

  /** Draw i derives a key stream of zeros only. */
  predicate ZeroDraw(g: Group, sm3: Sm3, id: Bytes, ppube: G1, klen: nat, draws: nat -> nat, i: nat)
    requires g.order > 2
  {
    DrawnStream(g, sm3, id, ppube, klen, Scalar(g, draws(i))) == Zeros(klen)
  }

  ghost predicate AllZeroDraws(g: Group, sm3: Sm3, id: Bytes, ppube: G1, klen: nat, draws: nat -> nat)
    requires g.order > 2
  {
    forall i: nat :: i < MAX_ENCRYPT_RETRIES ==> ZeroDraw(g, sm3, id, ppube, klen, draws, i)
  }

  lemma DrawAt(g: Group, sm3: Sm3, s: nat, id: Bytes, klen: nat, draws: nat -> nat, i: nat)
    requires GroupOk(g) && s < g.order && ExtractEncKey(g, s, id, HID_ENC).Some?
    ensures var a := KemAttempts(g, sm3, id, MasterPublic(g, s), klen, draws)(i);
            && a != Done(Err)
            && (a.Again? <==> ZeroDraw(g, sm3, id, MasterPublic(g, s), klen, draws, i))
  {
    var r, ppube := Scalar(g, draws(i)), MasterPublic(g, s);
    KemAgrees(g, sm3, s, id, klen, r);
    hide Times, Pair, IdentityPoint, Stream, Counter, GroupOk, KemDecrypt;
    var k := DrawnStream(g, sm3, id, ppube, klen, r);
    assert AllZeros(k) <==> k == Zeros(klen);
  }

  /** Encryption to an identity whose key can be extracted fails exactly when all 128 draws
      derive zero streams. */
  lemma EncryptFailsOnlyOnZeros(g: Group, sm3: Sm3, s: nat, id: Bytes, message: Bytes, draws: nat -> nat)
    requires GroupOk(g) && s < g.order && ExtractEncKey(g, s, id, HID_ENC).Some?
    ensures Encrypt(g, sm3, id, MasterPublic(g, s), message, draws).Err? <==>
            AllZeroDraws(g, sm3, id, MasterPublic(g, s), |message| + 32, draws)
  {
    var klen, ppube := |message| + 32, MasterPublic(g, s);
    var f := KemAttempts(g, sm3, id, ppube, klen, draws);
    hide FirstDone, KemAttempts, ZeroDraw, ExtractEncKey, Seal, MasterPublic, GroupOk;
    forall i: nat
      ensures f(i) != Done(Err) && (f(i).Again? <==> ZeroDraw(g, sm3, id, ppube, klen, draws, i))
    {
      DrawAt(g, sm3, s, id, klen, draws, i);
    }
    if FirstDone(f, 0, MAX_ENCRYPT_RETRIES).Err? {
      FailedAt(f, 0, MAX_ENCRYPT_RETRIES);
    } else {
      var k := FirstDoneAt(f, 0, MAX_ENCRYPT_RETRIES);
    }
  }

  // ---------------------------------------------------------------- what a ciphertext is

  /** The key bytes over C1, the pairing value and the identity. */
  function KeyOf(g: Group, sm3: Sm3, c1: G1, w: Gt, id: Bytes, len: nat): (k: Bytes)
    requires WellSized(c1)
    ensures |k| == len
  {
    KeyBytes(sm3, PointBytes(c1) + g.gtBytes(w) + id, len)
  }

  /** Decryption answers a message if and only if C1 is not the identity, the key over C1,
      e(C1, de) and the identity is not all zeros, C2 is the message masked with its first part
      and C3 is the hash of its second part and C2. */
  lemma DecryptsExactly(g: Group, sm3: Sm3, key: EncKey, id: Bytes, c: Ciphertext, message: Bytes)
    requires g.order > 2 && WellSized(c.c1)
    ensures Decrypt(g, sm3, key, id, c) == Ok(message) <==>
            && c.c1.Affine? && |message| == |c.c2|
            && var k := KeyOf(g, sm3, c.c1, Pair(g, c.c1, key.de), id, |message| + 32);
            && k != Zeros(|message| + 32)
            && c.c2 == XorSeq(message, k[..|message|])
            && c.c3 == Digest(sm3, k[|message|..] + c.c2)
  {
    hide Pair, PointBytes, Stream, Counter, KeyBytes, Digest, XorSeq;
    if c.c1.Affine? {
      var z := PointBytes(c.c1) + g.gtBytes(Pair(g, c.c1, key.de)) + id;
      StreamIsKeyBytes(sm3, z, |c.c2| + 32);
      var k := KeyBytes(sm3, z, |c.c2| + 32);
      assert AllZeros(k) <==> k == Zeros(|c.c2| + 32);
      XorSeqTwice(c.c2, k[..|c.c2|]);
      if |message| == |c.c2| { XorSeqTwice(message, k[..|c.c2|]); }
    }
  }

  /** A ciphertext comes from one of the draws: C1 is [r]Q and the key is over C1, e(Ppub, P2)^r and
      the identity. */
  lemma EncryptedAs(g: Group, sm3: Sm3, id: Bytes, ppube: G1, message: Bytes, draws: nat -> nat) returns (i: nat)
    requires g.order > 2 && Encrypt(g, sm3, id, ppube, message, draws).Ok?
    ensures var c := Encrypt(g, sm3, id, ppube, message, draws).value;
            var r := 1 + draws(i) % (g.order - 1);
            && c.c1 == ScalarMul(g, IdentityPoint(g, id, HID_ENC, ppube), r) && c.c1.Affine? && WellSized(c.c1)
            && var k := KeyOf(g, sm3, c.c1, Times(g.order, Pair(g, ppube, 1), r), id, |message| + 32);
            && c.c2 == XorSeq(message, k[..|message|])
            && c.c3 == Digest(sm3, k[|message|..] + c.c2)
  {
    i := KemAccepted(g, sm3, id, ppube, |message| + 32, draws);
    var r := 1 + draws(i) % (g.order - 1);
    assert Scalar(g, draws(i)) == r;
    hide KemEncrypt, Scalar, Pair, Times, IdentityPoint, PointBytes, Stream, Counter, KeyBytes, Digest, XorSeq, Hash1;
    var c1 := ScalarMul(g, IdentityPoint(g, id, HID_ENC, ppube), r);
    StreamIsKeyBytes(sm3, PointBytes(c1) + g.gtBytes(Times(g.order, Pair(g, ppube, 1), r)) + id, |message| + 32);
  }

  // ---------------------------------------------------------------- serialisation

  function ToC1C3C2(c: Ciphertext): (r: Bytes)
    requires WellSized(c.c1)
  {
    PointBytes(c.c1) + c.c3 + c.c2
  }

  function ToC1C2C3(c: Ciphertext): (r: Bytes)
    requires WellSized(c.c1)
  {
    PointBytes(c.c1) + c.c2 + c.c3
  }

  /** The point a parsed ciphertext starts with: the coordinates are read whatever the prefix. */
  function ReadPoint(data: Bytes): (r: Result<G1>)
    ensures r.Ok? ==> WellSized(r.value)
  {
    if |data| < 97 || (data[0] != 4 && data[0] != 0) then Err
    else Ok(Affine(data[1..33], data[33..65]))
  }

  function FromC1C3C2(data: Bytes): (r: Result<Ciphertext>) {
    var p := ReadPoint(data);
    if p.Err? then Err else Ok(Ciphertext(p.value, data[97..], data[65..97]))
  }

  function FromC1C2C3(data: Bytes): (r: Result<Ciphertext>) {
    var p := ReadPoint(data);
    if p.Err? then Err else Ok(Ciphertext(p.value, data[65..|data| - 32], data[|data| - 32..]))
  }

  lemma ReadPointOfBytes(p: G1, rest: Bytes)
    requires WellSized(p) && |rest| >= 32
    ensures ReadPoint(PointBytes(p) + rest) == Ok(if p.Affine? then p else Affine(Zeros(32), Zeros(32)))
  {
    var data := PointBytes(p) + rest;
    if p.Affine? {
      assert data[1..33] == p.x && data[33..65] == p.y;
    } else {
      assert data[1..33] == Zeros(32) && data[33..65] == Zeros(32);
    }
  }

  /** Both orders parse back to the ciphertext, exactly when C1 is not the point at infinity. */
  lemma SerialisationRoundTrip(c: Ciphertext)
    requires WellSized(c.c1) && |c.c3| == 32
    ensures FromC1C3C2(ToC1C3C2(c)) == Ok(c) <==> c.c1.Affine?
    ensures FromC1C2C3(ToC1C2C3(c)) == Ok(c) <==> c.c1.Affine?
  {
    var p := PointBytes(c.c1);
    assert ToC1C3C2(c) == p + (c.c3 + c.c2);
    assert ToC1C2C3(c) == p + (c.c2 + c.c3);
    ReadPointOfBytes(c.c1, c.c3 + c.c2);
    ReadPointOfBytes(c.c1, c.c2 + c.c3);
    SplitTail(p, c.c3, c.c2);
    SplitTail(p, c.c2, c.c3);
  }

  lemma SplitTail(p: Bytes, a: Bytes, b: Bytes)
    ensures (p + a + b)[|p|..|p| + |a|] == a && (p + a + b)[|p| + |a|..] == b
  {
  }
}
