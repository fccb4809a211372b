/** SM9 signatures (gm-sm9-rs/src/sign.rs) over the exponent model of the pairing. */
module Sm9Sign {
  import opened Bytes
  import opened ModArith
  import opened Retry
  import opened Sm9Group

  const HID_SIGN: byte := 1
  const MAX_SIGN_RETRIES: nat := 128

  datatype SignKey = SignKey(ds: G1, ppubs: G2)
  datatype Signature = Signature(h: nat, s: G1)

  /** SignMasterKey::extract_key: refused for a public-key-only master and when H1 + s is 0. */
  function ExtractSignKey(g: Group, s: nat, id: Bytes): (r: Option<SignKey>)
    requires g.order > 2 && s < g.order
  {
    if s == 0 then None
    else
      var d := UserExponent(g, s, Hash1(g, id, HID_SIGN));
      if d.None? then None
      else Some(SignKey(ScalarMul(g, Generator(g), d.value), s))
  }

  /** w = e(P1, Ppubs)^r. */
  function Commitment(g: Group, ppubs: G2, r: nat): (w: Gt)
    requires g.order > 2
  {
    Times(g.order, Pair(g, Generator(g), ppubs), r)
  }

  /** w' = e(S, h1 P2 + Ppubs) * e(P1, Ppubs)^h. */
  function Recovered(g: Group, id: Bytes, ppubs: G2, sig: Signature): (w: Gt)
    requires g.order > 2
  {
    var p := Plus(g.order, Hash1(g, id, HID_SIGN), ppubs);
    Plus(g.order, Pair(g, sig.s, p), Commitment(g, ppubs, sig.h))
  }

  predicate Verify(g: Group, id: Bytes, ppubs: G2, message: Bytes, sig: Signature)
    requires g.order > 2
  {
    sig.s.Affine? && Hash2(g, message, g.gtBytes(Recovered(g, id, ppubs, sig))) == sig.h
  }

  function ChallengeOf(g: Group, key: SignKey, message: Bytes, r: nat): (h: nat)
    requires g.order > 2
    ensures 0 < h < g.order
  {
    Hash2(g, message, g.gtBytes(Commitment(g, key.ppubs, r)))
  }

  function SignatureAt(g: Group, key: SignKey, message: Bytes, r: nat): (sig: Signature)
    requires g.order > 2
  {
    var h := ChallengeOf(g, key, message, r);
    Signature(h, ScalarMul(g, key.ds, Minus(g.order, r, h)))
  }

  /** One pass of the signing loop; `identity` is empty when the signer does not know it, and
      the fault check is then skipped. */
  function SignAttempt(g: Group, key: SignKey, identity: Bytes, message: Bytes, r: nat): (a: Attempt<Signature>)
    requires g.order > 2
  {
    if Minus(g.order, r, ChallengeOf(g, key, message, r)) == 0 then Again
    else
      var sig := SignatureAt(g, key, message, r);
      if identity != [] && !Verify(g, identity, key.ppubs, message, sig) then Again else Done(Ok(sig))
  }

  function SignAttempts(g: Group, key: SignKey, identity: Bytes, message: Bytes, draws: nat -> nat)
    : (f: nat -> Attempt<Signature>)
    requires g.order > 2
  {
    (i: nat) => SignAttempt(g, key, identity, message, Scalar(g, draws(i)))
  }

  /** Signer::sign. */
  method Sign(g: Group, key: SignKey, identity: Bytes, message: Bytes, draws: nat -> nat)
    returns (r: Result<Signature>)
    requires g.order > 2
    ensures r == Signed(g, key, identity, message, draws)
  {
    hide Hash2, Scalar, Times, Minus, Verify;
    ghost var f := SignAttempts(g, key, identity, message, draws);
    var base := Pair(g, Generator(g), key.ppubs);
    var i := 0;
    while i < MAX_SIGN_RETRIES
      invariant 0 <= i <= MAX_SIGN_RETRIES
      invariant FirstDone(f, i, MAX_SIGN_RETRIES) == FirstDone(f, 0, MAX_SIGN_RETRIES)
    {
      var k := Scalar(g, draws(i));
      var h := Hash2(g, message, g.gtBytes(Times(g.order, base, k)));
      var l := Minus(g.order, k, h);
      if l != 0 {
        var sig := Signature(h, ScalarMul(g, key.ds, l));
        if identity == [] || Verify(g, identity, key.ppubs, message, sig) {
          return Ok(sig);
        }
      }
      i := i + 1;
    }
    r := Err;
  }

  /** A signing key is extracted if and only if the master secret s is not 0 and H1 + s is not 0
      modulo N; it is then [d]P1 for the d with d (H1 + s) = s, beside [s]P2. */
  lemma SignKeyExactly(g: Group, s: nat, id: Bytes)
    requires GroupOk(g) && s < g.order
    ensures var key, t := ExtractSignKey(g, s, id), (s + 1 + g.h1(id, HID_SIGN) % (g.order - 1)) % g.order;
            && (key.Some? <==> s != 0 && t != 0)
            && (key.Some? ==> Log(g, key.value.ds) * t % g.order == s && key.value.ppubs == s)
  {
    var h := Hash1(g, id, HID_SIGN);
    var t := Plus(g.order, s, h);
    assert s + 1 + g.h1(id, HID_SIGN) % (g.order - 1) == s + h;
    if s != 0 && t != 0 {
      ExtractionCancels(g, s, h, 1);
      var d := UserExponent(g, s, h).value;
      GeneratorTimes(g, d);
      LogOfPoint(g, d);
      TimesOne(g.order, t);
      TimesOne(g.order, s);
      TimesCommutes(g.order, t, d);
    }
  }

  // ---------------------------------------------------------------- correctness

  /** l d (h1 + s) + s h == s r when l == r - h and d == s / (h1 + s). */
  lemma CommitmentRecovered(g: Group, s: nat, h1: nat, r: nat, h: nat)
    requires GroupOk(g) && s < g.order && h1 < g.order && UserExponent(g, s, h1).Some?
    ensures var n, d := g.order, UserExponent(g, s, h1).value;
            Plus(n, Times(n, Times(n, d, Minus(n, r, h)), Plus(n, h1, s)), Times(n, s, h)) == Times(n, s, r)
  {
    var n, d, l := g.order, UserExponent(g, s, h1).value, Minus(g.order, r, h);
    var t := Plus(n, h1, s);
    assert t == Plus(n, s, h1);
    ExtractionCancels(g, s, h1, l);
    Reorder(d, l, t, n);
    assert Times(n, Times(n, d, l), t) == Times(n, l, s);
    Recombine(s, r, h, n);
  }

  lemma Reorder(d: int, l: int, t: int, n: int)
    requires n > 0
    ensures (d * l % n) * t % n == (l * t % n) * d % n
  {
    ModMulLeft(d * l, t, n);
    ModMulLeft(l * t, d, n);
    assert (d * l) * t == (l * t) * d;
  }

  lemma Recombine(s: int, r: int, h: int, n: int)
    requires n > 0
    ensures (((r - h) % n) * s % n + s * h % n) % n == s * r % n
  {
    ModMulLeft(r - h, s, n);
    ModAddBoth((r - h) * s, s * h, n);
    assert (r - h) * s + s * h == s * r;
  }

  /** What verification recomputes from a signature made with exponent r. */
  lemma RecoversCommitment(g: Group, s: nat, id: Bytes, message: Bytes, r: nat)
    requires GroupOk(g) && s < g.order && ExtractSignKey(g, s, id).Some?
    ensures var key := ExtractSignKey(g, s, id).value;
            Recovered(g, id, key.ppubs, SignatureAt(g, key, message, r)) == Commitment(g, key.ppubs, r)
  {
    var key := ExtractSignKey(g, s, id).value;
    var h1 := Hash1(g, id, HID_SIGN);
    var d := UserExponent(g, s, h1).value;
    var h := ChallengeOf(g, key, message, r);
    hide Times, Plus, Minus, Hash1, Hash2, UserExponent;
    GeneratorTimes(g, d);
    LogOfPoint(g, d);
    LogOfPoint(g, Times(g.order, d, Minus(g.order, r, h)));
    GeneratorPair(g, s);
    CommitmentRecovered(g, s, h1, r, h);
  }

  /** S is [l d]P1 with both factors non-zero. */
  lemma SignatureNotIdentity(g: Group, s: nat, id: Bytes, message: Bytes, r: nat)
    requires GroupOk(g) && s < g.order && ExtractSignKey(g, s, id).Some?
    requires var key := ExtractSignKey(g, s, id).value;
             Minus(g.order, r, ChallengeOf(g, key, message, r)) != 0
    ensures SignatureAt(g, ExtractSignKey(g, s, id).value, message, r).s.Affine?
  {
    var key := ExtractSignKey(g, s, id).value;
    var h1 := Hash1(g, id, HID_SIGN);
    var d := UserExponent(g, s, h1).value;
    var l := Minus(g.order, r, ChallengeOf(g, key, message, r));
    UserExponentNonZero(g, s, h1);
    hide Times, Plus, Minus, Hash1, Hash2, UserExponent;
    GeneratorTimes(g, d);
    LogOfPoint(g, d);
    NoZeroDivisors(g, d, l);
  }

  /** Every r whose l is not zero yields a signature that verifies. */
  lemma SignatureVerifies(g: Group, s: nat, id: Bytes, message: Bytes, r: nat)
    requires GroupOk(g) && s < g.order && ExtractSignKey(g, s, id).Some?
    requires var key := ExtractSignKey(g, s, id).value;
             Minus(g.order, r, ChallengeOf(g, key, message, r)) != 0
    ensures var key := ExtractSignKey(g, s, id).value;
            Verify(g, id, key.ppubs, message, SignatureAt(g, key, message, r))
  {
    hide Times, Plus, Minus, Hash1, Hash2, UserExponent, Recovered, Commitment, ExtractSignKey;
    RecoversCommitment(g, s, id, message, r);
    SignatureNotIdentity(g, s, id, message, r);
  }

  /** With the matching identity the fault check never asks for another attempt: an attempt is
      repeated exactly when r equals its own challenge. */
  lemma FaultCheckSilent(g: Group, s: nat, id: Bytes, message: Bytes, r: nat)
    requires GroupOk(g) && s < g.order && ExtractSignKey(g, s, id).Some? && 0 < r < g.order
    ensures var key := ExtractSignKey(g, s, id).value;
            && SignAttempt(g, key, id, message, r) == SignAttempt(g, key, [], message, r)
            && (SignAttempt(g, key, id, message, r).Again? <==> r == ChallengeOf(g, key, message, r))
  {
    var key := ExtractSignKey(g, s, id).value;
    var h := ChallengeOf(g, key, message, r);
    MinusZero(g.order, r, h);
    hide Times, Plus, Minus, Verify, ChallengeOf, SignatureAt, ExtractSignKey;
    if r != h { SignatureVerifies(g, s, id, message, r); }
  }

  lemma MinusZero(n: nat, a: nat, b: nat)
    requires a < n && b < n
    ensures Minus(n, a, b) == 0 <==> a == b
  {
    if a < b { ModUnique(a - b, -1, a - b + n, n); }
  }

  /** The signing loop on a stream of draws. */
  function Signed(g: Group, key: SignKey, identity: Bytes, message: Bytes, draws: nat -> nat): (r: Result<Signature>)
    requires g.order > 2
  {
    FirstDone(SignAttempts(g, key, identity, message, draws), 0, MAX_SIGN_RETRIES)
  }

  /** Draw i is rejected: r equals its own challenge. */
  predicate Rejected(g: Group, key: SignKey, message: Bytes, draws: nat -> nat, i: nat)
    requires g.order > 2
  {
    Scalar(g, draws(i)) == ChallengeOf(g, key, message, Scalar(g, draws(i)))
  }

  lemma AttemptAt(g: Group, s: nat, id: Bytes, message: Bytes, draws: nat -> nat, i: nat)
    requires GroupOk(g) && s < g.order && ExtractSignKey(g, s, id).Some?
    ensures var key := ExtractSignKey(g, s, id).value;
            var a := SignAttempts(g, key, id, message, draws)(i);
            && a == SignAttempts(g, key, [], message, draws)(i)
            && (a.Again? <==> Rejected(g, key, message, draws, i))
            && a != Done(Err)
            && (a.Done? ==> Verify(g, id, key.ppubs, message, a.outcome.value))
  {
    var key, r := ExtractSignKey(g, s, id).value, Scalar(g, draws(i));
    FaultCheckSilent(g, s, id, message, r);
    hide Minus, Verify, ChallengeOf, SignatureAt, ExtractSignKey, Scalar;
    if SignAttempt(g, key, id, message, r).Done? { SignatureVerifies(g, s, id, message, r); }
  }

  /** Whatever the draws: a signature that Sign returns verifies for the key's identity, the
      fault check does not change which one is returned, and signing fails exactly when all
      128 draws are rejected. */
  lemma SigningSound(g: Group, s: nat, id: Bytes, message: Bytes, draws: nat -> nat)
    requires GroupOk(g) && s < g.order && ExtractSignKey(g, s, id).Some?
    ensures var key := ExtractSignKey(g, s, id).value;
            var r := Signed(g, key, id, message, draws);
            && r == Signed(g, key, [], message, draws)
            && (r.Ok? ==> Verify(g, id, key.ppubs, message, r.value))
            && (r.Err? <==> forall i: nat :: i < MAX_SIGN_RETRIES ==> Rejected(g, key, message, draws, i))
  {
    var key := ExtractSignKey(g, s, id).value;
    var f, f' := SignAttempts(g, key, id, message, draws), SignAttempts(g, key, [], message, draws);
    hide FirstDone, SignAttempts, Verify, ExtractSignKey, Rejected, GroupOk;
    forall i: nat
      ensures f(i) == f'(i) && (f(i).Again? <==> Rejected(g, key, message, draws, i)) && f(i) != Done(Err)
    {
      AttemptAt(g, s, id, message, draws, i);
    }
    SameOutcome(f, f', 0, MAX_SIGN_RETRIES);
    if FirstDone(f, 0, MAX_SIGN_RETRIES).Ok? {
      var k := FirstDoneAt(f, 0, MAX_SIGN_RETRIES);
      AttemptAt(g, s, id, message, draws, k);
    } else {
      FailedAt(f, 0, MAX_SIGN_RETRIES);
    }
  }

  /** Checked against any identity, a signature recovers its commitment exactly when that
      identity hashes to the scalar of the key's own identity. */
  lemma RecoversExactly(g: Group, s: nat, id: Bytes, other: Bytes, message: Bytes, r: nat)
    requires GroupOk(g) && s < g.order && ExtractSignKey(g, s, id).Some?
    requires var key := ExtractSignKey(g, s, id).value;
             Minus(g.order, r, ChallengeOf(g, key, message, r)) != 0
    ensures var key := ExtractSignKey(g, s, id).value;
            Recovered(g, other, key.ppubs, SignatureAt(g, key, message, r)) == Commitment(g, key.ppubs, r)
            <==> g.h1(other, HID_SIGN) % (g.order - 1) == g.h1(id, HID_SIGN) % (g.order - 1)
  {
    var key := ExtractSignKey(g, s, id).value;
    var n, h1, h1' := g.order, Hash1(g, id, HID_SIGN), Hash1(g, other, HID_SIGN);
    var sig := SignatureAt(g, key, message, r);
    var d, l := UserExponent(g, s, h1).value, Minus(n, r, sig.h);
    UserExponentNonZero(g, s, h1);
    RecoversCommitment(g, s, id, message, r);
    assert h1 == h1' <==> g.h1(other, HID_SIGN) % (g.order - 1) == g.h1(id, HID_SIGN) % (g.order - 1);
    hide Times, Plus, Minus, Hash1, Hash2, UserExponent;
    GeneratorTimes(g, d);
    LogOfPoint(g, d);
    NoZeroDivisors(g, d, l);
    LogOfPoint(g, Times(n, d, l));
    PlusInjective(n, s, h1, h1');
    var x, y := Plus(n, h1, s), Plus(n, h1', s);
    TimesInjective(g, Times(n, d, l), x, y);
    var c := Commitment(g, s, sig.h);
    PlusInjective(n, c, Times(n, Times(n, d, l), x), Times(n, Times(n, d, l), y));
  }

  /** The two hash values agree as challenges. */
  predicate SameChallenge(g: Group, m: Bytes, w: Gt, m': Bytes, w': Gt)
    requires g.order > 2
  {
    g.h2(m, g.gtBytes(w)) % (g.order - 1) == g.h2(m', g.gtBytes(w')) % (g.order - 1)
  }

  lemma CommitmentIs(g: Group, s: nat, r: nat)
    requires GroupOk(g) && s < g.order
    ensures Commitment(g, s, r) == s * r % g.order
  {
    GeneratorPair(g, s);
  }

  /** When a signature on `message` made with exponent r is accepted, for any message and any
      identity: if and only if H2 of that message and the recovered value agrees with H2 of the
      signed message and w = e(P1, Ppubs)^r. The recovered value is w if and only if H1 gives the
      identity the scalar of the signer's. */
  lemma AcceptedExactly(g: Group, s: nat, id: Bytes, other: Bytes, message: Bytes, message': Bytes, r: nat)
    requires GroupOk(g) && s < g.order && ExtractSignKey(g, s, id).Some? && 0 < r < g.order
    requires r != 1 + g.h2(message, g.gtBytes(s * r % g.order)) % (g.order - 1)
    ensures var key, w := ExtractSignKey(g, s, id).value, s * r % g.order;
            var sig := SignatureAt(g, key, message, r);
            var w' := Recovered(g, other, key.ppubs, sig);
            && (Verify(g, other, key.ppubs, message', sig) <==> SameChallenge(g, message', w', message, w))
            && (w' == w <==> g.h1(other, HID_SIGN) % (g.order - 1) == g.h1(id, HID_SIGN) % (g.order - 1))
            && (Verify(g, id, key.ppubs, message', sig) <==> SameChallenge(g, message', w, message, w))
  {
    var key := ExtractSignKey(g, s, id).value;
    CommitmentIs(g, s, r);
    var h := ChallengeOf(g, key, message, r);
    assert h == 1 + g.h2(message, g.gtBytes(s * r % g.order)) % (g.order - 1);
    MinusZero(g.order, r, h);
    var sig := SignatureAt(g, key, message, r);
    assert sig.h == h;
    SignatureNotIdentity(g, s, id, message, r);
    RecoversCommitment(g, s, id, message, r);
    RecoversExactly(g, s, id, other, message, r);
    hide Times, Plus, Minus, Hash1, UserExponent, Recovered, Commitment, ExtractSignKey, SignatureAt,
      ChallengeOf, GroupOk;
  }

  /** Nothing else is accepted: S is not the identity and h is the challenge recomputed. */
  lemma AcceptedInRange(g: Group, id: Bytes, ppubs: G2, message: Bytes, sig: Signature)
    requires GroupOk(g) && ppubs < g.order && Verify(g, id, ppubs, message, sig)
    ensures sig.s.Affine? && 0 < sig.h < g.order
    ensures var h1 := 1 + g.h1(id, HID_SIGN) % (g.order - 1);
            var w := Plus(g.order, Pair(g, sig.s, Plus(g.order, h1, ppubs)), ppubs * sig.h % g.order);
            sig.h == 1 + g.h2(message, g.gtBytes(w)) % (g.order - 1)
  {
    CommitmentIs(g, ppubs, sig.h);
    hide Plus, Pair, Commitment;
  }

  /** So it is with every signature that Sign returns, for the exponent of one of its draws. */
  lemma SignedAcceptedExactly(g: Group, s: nat, id: Bytes, message: Bytes, message': Bytes, draws: nat -> nat)
    returns (i: nat)
    requires GroupOk(g) && s < g.order && ExtractSignKey(g, s, id).Some?
    requires Signed(g, ExtractSignKey(g, s, id).value, id, message, draws).Ok?
    ensures var key := ExtractSignKey(g, s, id).value;
            var sig := Signed(g, key, id, message, draws).value;
            var w := s * (1 + draws(i) % (g.order - 1)) % g.order;
            && i < MAX_SIGN_RETRIES
            && sig.h == 1 + g.h2(message, g.gtBytes(w)) % (g.order - 1)
            && (Verify(g, id, key.ppubs, message', sig) <==> SameChallenge(g, message', w, message, w))
  {
    var key := ExtractSignKey(g, s, id).value;
    hide FirstDone, SignAttempts, ExtractSignKey, GroupOk, Verify, SameChallenge, SignatureAt;
    i := FirstDoneAt(SignAttempts(g, key, id, message, draws), 0, MAX_SIGN_RETRIES);
    var r := 1 + draws(i) % (g.order - 1);
    AttemptDone(g, s, id, message, draws, i);
    AcceptedExactly(g, s, id, id, message, message', r);
  }

  /** A draw that is not rejected gives the signature of its exponent. */
  lemma AttemptDone(g: Group, s: nat, id: Bytes, message: Bytes, draws: nat -> nat, i: nat)
    requires GroupOk(g) && s < g.order && ExtractSignKey(g, s, id).Some?
    requires SignAttempts(g, ExtractSignKey(g, s, id).value, id, message, draws)(i).Done?
    ensures var key, r := ExtractSignKey(g, s, id).value, 1 + draws(i) % (g.order - 1);
            var h := 1 + g.h2(message, g.gtBytes(s * r % g.order)) % (g.order - 1);
            && SignAttempts(g, key, id, message, draws)(i) == Done(Ok(SignatureAt(g, key, message, r)))
            && SignatureAt(g, key, message, r).h == h && r != h
  {
    var key, r := ExtractSignKey(g, s, id).value, 1 + draws(i) % (g.order - 1);
    assert Scalar(g, draws(i)) == r;
    ChallengeIs(g, s, id, message, r);
    FaultCheckSilent(g, s, id, message, r);
    hide Times, Plus, Minus, Hash1, Hash2, UserExponent, Verify, ExtractSignKey, ChallengeOf, GroupOk;
  }

  lemma ChallengeIs(g: Group, s: nat, id: Bytes, message: Bytes, r: nat)
    requires GroupOk(g) && s < g.order && ExtractSignKey(g, s, id).Some?
    ensures ChallengeOf(g, ExtractSignKey(g, s, id).value, message, r)
            == 1 + g.h2(message, g.gtBytes(s * r % g.order)) % (g.order - 1)
  {
    CommitmentIs(g, s, r);
    hide Times, Commitment, UserExponent, Hash1;
  }
}
