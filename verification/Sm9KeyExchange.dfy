/** The identity-based key exchange of gm-sm9-rs/src/key_exchange.rs. */
module Sm9KeyExchange {
  import opened Bytes
  import opened Kdf
  import ModArith
  import opened Sm9Group

  const HID_EXCHANGE: byte := 3

  datatype InitiatorState = InitiatorState(r: nat, point: G1)
  datatype ResponderOutput = ResponderOutput(point: G1, sharedKey: Bytes, sb: Option<Bytes>)
  datatype InitiatorOutput = InitiatorOutput(sharedKey: Bytes, sa: Bytes)

  /** What the two sides must have in common. */
  datatype Secrets = Secrets(g1: Gt, g2: Gt, g3: Gt)
  datatype Names = Names(idA: Bytes, idB: Bytes, ra: G1, rb: G1)

  predicate Sized(n: Names) {
    WellSized(n.ra) && WellSized(n.rb)
  }

  // ---------------------------------------------------------------- derived values

  function SharedKey(g: Group, sm3: Sm3, n: Names, s: Secrets, klen: nat): (k: Bytes)
    requires Sized(n)
    ensures |k| == klen
  {
    Stream(Counter(sm3, n.idA + n.idB + PointBytes(n.ra) + PointBytes(n.rb)
                        + g.gtBytes(s.g1) + g.gtBytes(s.g2) + g.gtBytes(s.g3)), klen)
  }

  function InnerData(g: Group, n: Names, s: Secrets): (r: Bytes)
    requires Sized(n)
  {
    g.gtBytes(s.g2) + g.gtBytes(s.g3) + n.idA + n.idB + PointBytes(n.ra) + PointBytes(n.rb)
  }

  function OuterData(g: Group, sm3: Sm3, role: byte, n: Names, s: Secrets): (r: Bytes)
    requires Sized(n)
  {
    [role] + g.gtBytes(s.g1) + Digest(sm3, InnerData(g, n, s))
  }

  /** S_B for 0x82 and S_A for 0x83. */
  function Confirmation(g: Group, sm3: Sm3, role: byte, n: Names, s: Secrets): (r: Bytes)
    requires Sized(n)
    ensures |r| == 32
  {
    Digest(sm3, OuterData(g, sm3, role, n, s))
  }

  /** constant_time_eq: the differences are or-ed together. */
  method ConstantTimeEq(a: Bytes, b: Bytes) returns (r: bool)
    ensures r <==> a == b
  {
    if |a| != |b| {
      return false;
    }
    var same := true;
    for i := 0 to |a|
      invariant same <==> a[..i] == b[..i]
    {
      assert a[..i + 1] == a[..i] + [a[i]] && b[..i + 1] == b[..i] + [b[i]];
      same := same && a[i] == b[i];
    }
    assert a[..|a|] == a && b[..|b|] == b;
    r := same;
  }

  /** kdf_key_exchange: its own counter loop over the seven parts. */
  method KdfKeyExchange(g: Group, sm3: Sm3, idA: Bytes, idB: Bytes, ra: G1, rb: G1, g1: Gt, g2: Gt, g3: Gt, klen: nat)
    returns (k: Bytes)
    requires WellSized(ra) && WellSized(rb)
    ensures k == SharedKey(g, sm3, Names(idA, idB, ra, rb), Secrets(g1, g2, g3), klen)
  {
    hide PointBytes, BE, Stream;
    k := [];
    var counter := 1;
    var raBytes, rbBytes := PointBytes(ra), PointBytes(rb);
    var g1Bytes, g2Bytes, g3Bytes := g.gtBytes(g1), g.gtBytes(g2), g.gtBytes(g3);
    ghost var z := idA + idB + raBytes + rbBytes + g1Bytes + g2Bytes + g3Bytes;
    ghost var f, digests: nat, wraps: nat := Counter(sm3, z), 0, 0;
    while |k| < klen
      invariant 0 <= counter < 0x1_0000_0000
      invariant digests + 1 == counter + wraps * 0x1_0000_0000
      invariant |k| == 32 * digests && k == Concat(f, digests)
    {
      var block := Digest(sm3, idA + idB + raBytes + rbBytes + g1Bytes + g2Bytes + g3Bytes + BE(counter, 4));
      assert block == f(digests) by { BEWraps(digests + 1, counter, wraps); }
      k := k + block;
      if counter == 0xFFFF_FFFF {
        counter, wraps := 0, wraps + 1;
      } else {
        counter := counter + 1;
      }
      digests := digests + 1;
    }
    StreamCut(f, digests, klen);
    k := k[..klen];
  }

  /** sm3_multi: one hasher, updated with one chunk after the other. */
  method Sm3Multi(sm3: Sm3, chunks: seq<Bytes>) returns (r: Bytes)
    ensures r == Digest(sm3, Flatten(chunks))
  {
    hide Digest;
    var absorbed := [];
    for i := 0 to |chunks|
      invariant absorbed == Flatten(chunks[..i])
    {
      FlattenAppend(chunks[..i], chunks[i]);
      assert chunks[..i + 1] == chunks[..i] + [chunks[i]];
      absorbed := absorbed + chunks[i];
    }
    assert chunks[..|chunks|] == chunks;
    r := Digest(sm3, absorbed);
  }

  lemma FlattenThree(a: Bytes, b: Bytes, c: Bytes)
    ensures Flatten([a, b, c]) == a + b + c
  {
    assert [a, b, c][1..] == [b, c] && [b, c][1..] == [c] && [c][1..] == [];
    assert Flatten([c]) == c;
    assert Flatten([b, c]) == b + c;
  }

  lemma FlattenSix(a: Bytes, b: Bytes, c: Bytes, d: Bytes, e: Bytes, f: Bytes)
    ensures Flatten([a, b, c, d, e, f]) == a + b + c + d + e + f
  {
    FlattenThree(d, e, f);
    assert [a, b, c, d, e, f][1..] == [b, c, d, e, f] && [b, c, d, e, f][1..] == [c, d, e, f];
    assert [c, d, e, f][1..] == [d, e, f];
    assert Flatten([c, d, e, f]) == c + (d + e + f);
    assert Flatten([b, c, d, e, f]) == b + (c + (d + e + f));
  }

  /** compute_sb and compute_sa. */
  method ComputeConfirmation(g: Group, sm3: Sm3, role: byte, n: Names, s: Secrets) returns (r: Bytes)
    requires Sized(n)
    ensures r == Confirmation(g, sm3, role, n, s)
  {
    hide PointBytes, Digest, Flatten;
    var g1, g2, g3 := g.gtBytes(s.g1), g.gtBytes(s.g2), g.gtBytes(s.g3);
    var ra, rb := PointBytes(n.ra), PointBytes(n.rb);
    var inner := Sm3Multi(sm3, [g2, g3, n.idA, n.idB, ra, rb]);
    FlattenSix(g2, g3, n.idA, n.idB, ra, rb);
    r := Sm3Multi(sm3, [[role], g1, inner]);
    FlattenThree([role], g1, inner);
  }

  /** verify_sa. */
  method VerifyConfirmation(g: Group, sm3: Sm3, n: Names, s: Secrets, sa: Bytes) returns (ok: bool)
    requires Sized(n)
    ensures ok <==> VerifySa(g, sm3, n, s, sa)
  {
    hide Confirmation;
    var expected := ComputeConfirmation(g, sm3, 0x83, n, s);
    ok := ConstantTimeEq(expected, sa);
  }

  // ---------------------------------------------------------------- the three steps

  function InitiatorBegin(g: Group, idB: Bytes, ppub: G1, r: nat): (st: InitiatorState)
    requires g.order > 2
    ensures WellSized(st.point)
  {
    InitiatorState(r, ScalarMul(g, IdentityPoint(g, idB, HID_EXCHANGE, ppub), r))
  }

  function ResponderSecrets(g: Group, ppub: G1, de: G2, ra: G1, r: nat): (s: Secrets)
    requires g.order > 2
  {
    var g1 := Pair(g, ra, de);
    Secrets(g1, Times(g.order, Pair(g, ppub, 1), r), Times(g.order, g1, r))
  }

  function ResponderProcess(g: Group, sm3: Sm3, idA: Bytes, idB: Bytes, ppub: G1, key: EncKey, ra: G1,
                            klen: nat, needConfirm: bool, r: nat): (out: Result<ResponderOutput>)
    requires g.order > 2 && WellSized(ra)
    ensures out.Err? <==> ra.Identity?
  {
    var rb := ScalarMul(g, IdentityPoint(g, idA, HID_EXCHANGE, ppub), r);
    if ra.Identity? then Err
    else
      var n, s := Names(idA, idB, ra, rb), ResponderSecrets(g, ppub, key.de, ra, r);
      Ok(ResponderOutput(rb, SharedKey(g, sm3, n, s, klen),
                         if needConfirm then Some(Confirmation(g, sm3, 0x82, n, s)) else None))
  }

  function InitiatorSecrets(g: Group, key: EncKey, rb: G1, r: nat): (s: Secrets)
    requires g.order > 2
  {
    var g2 := Pair(g, rb, key.de);
    Secrets(Times(g.order, Pair(g, key.ppube, 1), r), g2, Times(g.order, g2, r))
  }

  function InitiatorFinish(g: Group, sm3: Sm3, st: InitiatorState, rb: G1, key: EncKey, idA: Bytes, idB: Bytes,
                           klen: nat, sb: Option<Bytes>): (out: Result<InitiatorOutput>)
    requires g.order > 2 && WellSized(st.point) && WellSized(rb)
  {
    if rb.Identity? then Err
    else
      var n, s := Names(idA, idB, st.point, rb), InitiatorSecrets(g, key, rb, st.r);
      if sb.Some? && sb.value != Confirmation(g, sm3, 0x82, n, s) then Err
      else Ok(InitiatorOutput(SharedKey(g, sm3, n, s, klen), Confirmation(g, sm3, 0x83, n, s)))
  }

  /** responder_process. */
  method Respond(g: Group, sm3: Sm3, idA: Bytes, idB: Bytes, ppub: G1, key: EncKey, ra: G1, klen: nat,
                 needConfirm: bool, r: nat) returns (out: Result<ResponderOutput>)
    requires g.order > 2 && WellSized(ra)
    ensures out == ResponderProcess(g, sm3, idA, idB, ppub, key, ra, klen, needConfirm, r)
  {
    hide Times, Hash1, SharedKey, Confirmation;
    var rb := ScalarMul(g, IdentityPoint(g, idA, HID_EXCHANGE, ppub), r);
    if ra.Identity? {
      return Err;
    }
    var g1 := Pair(g, ra, key.de);
    var g2 := Times(g.order, Pair(g, ppub, 1), r);
    var g3 := Times(g.order, g1, r);
    var sharedKey := KdfKeyExchange(g, sm3, idA, idB, ra, rb, g1, g2, g3, klen);
    var sb: Option<Bytes> := None;
    if needConfirm {
      var value := ComputeConfirmation(g, sm3, 0x82, Names(idA, idB, ra, rb), Secrets(g1, g2, g3));
      sb := Some(value);
    }
    out := Ok(ResponderOutput(rb, sharedKey, sb));
  }

  /** initiator_finish: the confirmation is checked before the key is derived. */
  method Finish(g: Group, sm3: Sm3, st: InitiatorState, rb: G1, key: EncKey, idA: Bytes, idB: Bytes, klen: nat,
                sb: Option<Bytes>) returns (out: Result<InitiatorOutput>)
    requires g.order > 2 && WellSized(st.point) && WellSized(rb)
    ensures out == InitiatorFinish(g, sm3, st, rb, key, idA, idB, klen, sb)
  {
    hide Times, SharedKey, Confirmation;
    if rb.Identity? {
      return Err;
    }
    var g1 := Times(g.order, Pair(g, key.ppube, 1), st.r);
    var g2 := Pair(g, rb, key.de);
    var g3 := Times(g.order, g2, st.r);
    var n, s := Names(idA, idB, st.point, rb), Secrets(g1, g2, g3);
    if sb.Some? {
      var expected := ComputeConfirmation(g, sm3, 0x82, n, s);
      var same := ConstantTimeEq(expected, sb.value);
      if !same {
        return Err;
      }
    }
    var sharedKey := KdfKeyExchange(g, sm3, idA, idB, st.point, rb, g1, g2, g3, klen);
    var sa := ComputeConfirmation(g, sm3, 0x83, n, s);
    out := Ok(InitiatorOutput(sharedKey, sa));
  }

  predicate VerifySa(g: Group, sm3: Sm3, n: Names, s: Secrets, sa: Bytes)
    requires Sized(n)
  {
    sa == Confirmation(g, sm3, 0x83, n, s)
  }

  // ---------------------------------------------------------------- what a confirmation covers

  /** gt_to_bytes writes every element with the same number of bytes. */
  ghost predicate GtSized(g: Group) {
    forall x: Gt :: |g.gtBytes(x)| == 384
  }

  /** The same serialised g2 and g3, the same points, the same identities one after the other. */
  predicate SameInner(g: Group, n: Names, s: Secrets, n': Names, s': Secrets) {
    && g.gtBytes(s.g2) == g.gtBytes(s'.g2) && g.gtBytes(s.g3) == g.gtBytes(s'.g3)
    && n.idA + n.idB == n'.idA + n'.idB && n.ra == n'.ra && n.rb == n'.rb
  }

  lemma PointBytesInjective(p: G1, q: G1)
    requires WellSized(p) && WellSized(q) && PointBytes(p) == PointBytes(q)
    ensures p == q
  {
    assert PointBytes(p)[0] == PointBytes(q)[0];
    if p.Affine? && q.Affine? {
      assert [4] + p.x + p.y == ([4] + p.x) + p.y && [4] + q.x + q.y == ([4] + q.x) + q.y;
      SplitEqual([4] + p.x, p.y, [4] + q.x, q.y);
      SplitEqual([4], p.x, [4], q.x);
    }
  }

  /** Four fixed-size parts around one of any size. */
  lemma FiveParts(a: Bytes, b: Bytes, m: Bytes, c: Bytes, d: Bytes,
                  a': Bytes, b': Bytes, m': Bytes, c': Bytes, d': Bytes)
    requires |a| == |a'| && |b| == |b'| && |c| == |c'| && |d| == |d'|
    requires a + b + m + c + d == a' + b' + m' + c' + d'
    ensures a == a' && b == b' && m == m' && c == c' && d == d'
  {
    assert |m| == |m'|;
    SplitEqual(a + b + m + c, d, a' + b' + m' + c', d');
    SplitEqual(a + b + m, c, a' + b' + m', c');
    SplitEqual(a + b, m, a' + b', m');
    SplitEqual(a, b, a', b');
  }

  lemma InnerCovers(g: Group, n: Names, s: Secrets, n': Names, s': Secrets)
    requires GtSized(g) && Sized(n) && Sized(n')
    ensures InnerData(g, n, s) == InnerData(g, n', s') <==> SameInner(g, n, s, n', s')
  {
    hide PointBytes, WellSized;
    var a, b, c, d := g.gtBytes(s.g2), g.gtBytes(s.g3), PointBytes(n.ra), PointBytes(n.rb);
    var a', b', c', d' := g.gtBytes(s'.g2), g.gtBytes(s'.g3), PointBytes(n'.ra), PointBytes(n'.rb);
    assert InnerData(g, n, s) == a + b + (n.idA + n.idB) + c + d;
    assert InnerData(g, n', s') == a' + b' + (n'.idA + n'.idB) + c' + d';
    if InnerData(g, n, s) == InnerData(g, n', s') {
      FiveParts(a, b, n.idA + n.idB, c, d, a', b', n'.idA + n'.idB, c', d');
      PointBytesInjective(n.ra, n'.ra);
      PointBytesInjective(n.rb, n'.rb);
    }
  }

  /** Up to hash collisions a confirmation value stands for the role, the three secrets, both
      points and the two identities written one after the other, and for nothing else: where one
      identity ends and the other begins is not covered. */
  lemma ConfirmationCovers(g: Group, sm3: Sm3, role: byte, n: Names, s: Secrets, role': byte, n': Names, s': Secrets)
    requires GtSized(g) && Sized(n) && Sized(n')
    requires Apart(sm3, InnerData(g, n, s), InnerData(g, n', s'))
    requires Apart(sm3, OuterData(g, sm3, role, n, s), OuterData(g, sm3, role', n', s'))
    ensures Confirmation(g, sm3, role, n, s) == Confirmation(g, sm3, role', n', s')
            <==> role == role' && g.gtBytes(s.g1) == g.gtBytes(s'.g1) && SameInner(g, n, s, n', s')
  {
    hide PointBytes, WellSized, Digest, InnerData;
    InnerCovers(g, n, s, n', s');
    if OuterData(g, sm3, role, n, s) == OuterData(g, sm3, role', n', s') {
      var a, a' := g.gtBytes(s.g1), g.gtBytes(s'.g1);
      SplitEqual([role] + a, Digest(sm3, InnerData(g, n, s)), [role'] + a', Digest(sm3, InnerData(g, n', s')));
      SplitEqual([role], a, [role'], a');
    }
  }

  /** The initiator finishes if and only if the responder's point is not the identity and S_B, if one
      was sent, is the nested hash under 0x82; it answers with the same hash under 0x83. */
  lemma FinishesExactly(g: Group, sm3: Sm3, st: InitiatorState, rb: G1, key: EncKey, idA: Bytes, idB: Bytes, klen: nat,
                        sb: Option<Bytes>)
    requires g.order > 2 && WellSized(st.point) && WellSized(rb)
    ensures var out, s := InitiatorFinish(g, sm3, st, rb, key, idA, idB, klen, sb), InitiatorSecrets(g, key, rb, st.r);
            var inner := Digest(sm3, g.gtBytes(s.g2) + g.gtBytes(s.g3) + idA + idB + PointBytes(st.point)
                                     + PointBytes(rb));
            && (out.Ok? <==> rb.Affine? && (sb.Some? ==> sb.value == Digest(sm3, [0x82] + g.gtBytes(s.g1) + inner)))
            && (out.Ok? ==> out.value.sa == Digest(sm3, [0x83] + g.gtBytes(s.g1) + inner))
  {
    hide PointBytes, Digest, SharedKey, InitiatorSecrets;
  }

  /** The responder sends that hash under 0x82 if and only if it was asked to. */
  lemma RespondsWith(g: Group, sm3: Sm3, idA: Bytes, idB: Bytes, ppub: G1, key: EncKey, ra: G1, klen: nat,
                     needConfirm: bool, r: nat)
    requires g.order > 2 && WellSized(ra) && ra.Affine?
    ensures var out := ResponderProcess(g, sm3, idA, idB, ppub, key, ra, klen, needConfirm, r).value;
            var s := ResponderSecrets(g, ppub, key.de, ra, r);
            && WellSized(out.point) && (out.sb.Some? <==> needConfirm)
            && var inner := Digest(sm3, g.gtBytes(s.g2) + g.gtBytes(s.g3) + idA + idB + PointBytes(ra)
                                        + PointBytes(out.point));
            (needConfirm ==> out.sb == Some(Digest(sm3, [0x82] + g.gtBytes(s.g1) + inner)))
  {
    hide PointBytes, Digest, SharedKey, ResponderSecrets, Times, Hash1;
  }

  // ---------------------------------------------------------------- what a shared key covers

  /** The first string that a shared key is hashed from. */
  function KeyData(g: Group, n: Names, s: Secrets): (r: Bytes)
    requires Sized(n)
  {
    n.idA + n.idB + PointBytes(n.ra) + PointBytes(n.rb) + g.gtBytes(s.g1) + g.gtBytes(s.g2) + g.gtBytes(s.g3)
    + [0, 0, 0, 1]
  }

  /** Five fixed-size parts and a tail after one of any size. */
  lemma SixParts(m: Bytes, a: Bytes, b: Bytes, c: Bytes, d: Bytes, e: Bytes, z: Bytes,
                 m': Bytes, a': Bytes, b': Bytes, c': Bytes, d': Bytes, e': Bytes)
    requires |a| == |a'| && |b| == |b'| && |c| == |c'| && |d| == |d'| && |e| == |e'|
    requires m + a + b + c + d + e + z == m' + a' + b' + c' + d' + e' + z
    ensures m == m' && a == a' && b == b' && c == c' && d == d' && e == e'
  {
    assert |m| == |m'|;
    SplitEqual(m + a + b + c + d + e, z, m' + a' + b' + c' + d' + e', z);
    SplitEqual(m + a + b + c + d, e, m' + a' + b' + c' + d', e');
    SplitEqual(m + a + b + c, d, m' + a' + b' + c', d');
    SplitEqual(m + a + b, c, m' + a' + b', c');
    SplitEqual(m + a, b, m' + a', b');
    SplitEqual(m, a, m', a');
  }

  lemma KeyDataCovers(g: Group, n: Names, s: Secrets, n': Names, s': Secrets)
    requires GtSized(g) && Sized(n) && Sized(n')
    ensures KeyData(g, n, s) == KeyData(g, n', s')
            <==> g.gtBytes(s.g1) == g.gtBytes(s'.g1) && SameInner(g, n, s, n', s')
  {
    hide PointBytes, WellSized;
    if KeyData(g, n, s) == KeyData(g, n', s') {
      SixParts(n.idA + n.idB, PointBytes(n.ra), PointBytes(n.rb), g.gtBytes(s.g1), g.gtBytes(s.g2), g.gtBytes(s.g3),
               [0, 0, 0, 1],
               n'.idA + n'.idB, PointBytes(n'.ra), PointBytes(n'.rb), g.gtBytes(s'.g1), g.gtBytes(s'.g2),
               g.gtBytes(s'.g3));
      PointBytesInjective(n.ra, n'.ra);
      PointBytesInjective(n.rb, n'.rb);
    }
  }

  /** A shared key of at least 32 bytes begins with the hash of that string. */
  lemma KeyBegins(g: Group, sm3: Sm3, n: Names, s: Secrets, klen: nat)
    requires Sized(n) && klen >= 32
    ensures SharedKey(g, sm3, n, s, klen)[..32] == Digest(sm3, KeyData(g, n, s))
  {
    hide PointBytes, Digest, Stream, Counter;
    FirstDigest(sm3, n.idA + n.idB + PointBytes(n.ra) + PointBytes(n.rb) + g.gtBytes(s.g1) + g.gtBytes(s.g2)
                     + g.gtBytes(s.g3), klen);
  }

  /** Up to a collision on the first hash, the keys that a responder and an initiator output are
      equal, at 32 bytes or more, if and only if they used the same serialised g1, g2 and g3, the
      same points and the same identities written one after the other. */
  lemma KeyCovers(g: Group, sm3: Sm3, idA: Bytes, idB: Bytes, ppub: G1, keyB: EncKey, ra: G1, needConfirm: bool,
                  rB: nat, idA': Bytes, idB': Bytes, keyA: EncKey, st: InitiatorState, rb: G1,
                  sb: Option<Bytes>, klen: nat)
    requires g.order > 2 && GtSized(g) && klen >= 32 && WellSized(ra) && WellSized(st.point) && WellSized(rb)
    requires ResponderProcess(g, sm3, idA, idB, ppub, keyB, ra, klen, needConfirm, rB).Ok?
    requires InitiatorFinish(g, sm3, st, rb, keyA, idA', idB', klen, sb).Ok?
    requires var point := ResponderProcess(g, sm3, idA, idB, ppub, keyB, ra, klen, needConfirm, rB).value.point;
             && WellSized(point)
             && Apart(sm3, KeyData(g, Names(idA, idB, ra, point), ResponderSecrets(g, ppub, keyB.de, ra, rB)),
                      KeyData(g, Names(idA', idB', st.point, rb), InitiatorSecrets(g, keyA, rb, st.r)))
    ensures var outB := ResponderProcess(g, sm3, idA, idB, ppub, keyB, ra, klen, needConfirm, rB).value;
            var outA := InitiatorFinish(g, sm3, st, rb, keyA, idA', idB', klen, sb).value;
            var s, s' := ResponderSecrets(g, ppub, keyB.de, ra, rB), InitiatorSecrets(g, keyA, rb, st.r);
            outB.sharedKey == outA.sharedKey <==>
            && idA + idB == idA' + idB' && ra == st.point && outB.point == rb
            && g.gtBytes(s.g1) == g.gtBytes(s'.g1) && g.gtBytes(s.g2) == g.gtBytes(s'.g2)
            && g.gtBytes(s.g3) == g.gtBytes(s'.g3)
  {
    var point := ResponderProcess(g, sm3, idA, idB, ppub, keyB, ra, klen, needConfirm, rB).value.point;
    var n, n' := Names(idA, idB, ra, point), Names(idA', idB', st.point, rb);
    var s, s' := ResponderSecrets(g, ppub, keyB.de, ra, rB), InitiatorSecrets(g, keyA, rb, st.r);
    hide ScalarMul, IdentityPoint, WellSized, Confirmation, ResponderSecrets, InitiatorSecrets, KeyData, Digest;
    KeyDataCovers(g, n, s, n', s');
    KeyBegins(g, sm3, n, s, klen);
    KeyBegins(g, sm3, n', s', klen);
    if SameInner(g, n, s, n', s') && g.gtBytes(s.g1) == g.gtBytes(s'.g1) { SameKey(g, sm3, n, s, n', s', klen); }
    hide SharedKey;
  }

  lemma SameKey(g: Group, sm3: Sm3, n: Names, s: Secrets, n': Names, s': Secrets, klen: nat)
    requires Sized(n) && Sized(n') && SameInner(g, n, s, n', s') && g.gtBytes(s.g1) == g.gtBytes(s'.g1)
    ensures SharedKey(g, sm3, n, s, klen) == SharedKey(g, sm3, n', s', klen)
  {
    hide PointBytes, Stream, Counter;
  }

  // ---------------------------------------------------------------- agreement

  /** The parties' keys under one master secret, extracted for key exchange. */
  ghost predicate Setup(g: Group, s: nat, idA: Bytes, idB: Bytes) {
    && GroupOk(g) && s < g.order
    && ExtractEncKey(g, s, idA, HID_EXCHANGE).Some?
    && ExtractEncKey(g, s, idB, HID_EXCHANGE).Some?
  }

  /** g1, g2 and g3 computed by the two sides coincide, and neither point is the identity. */
  lemma SecretsCoincide(g: Group, s: nat, idA: Bytes, idB: Bytes, rA: nat, rB: nat)
    requires Setup(g, s, idA, idB) && 0 < rA < g.order && 0 < rB < g.order
    ensures var ppub := MasterPublic(g, s);
            var keyA, keyB := ExtractEncKey(g, s, idA, HID_EXCHANGE).value,
                              ExtractEncKey(g, s, idB, HID_EXCHANGE).value;
            var ra := ScalarMul(g, IdentityPoint(g, idB, HID_EXCHANGE, ppub), rA);
            var rb := ScalarMul(g, IdentityPoint(g, idA, HID_EXCHANGE, ppub), rB);
            && ra.Affine? && rb.Affine?
            && ResponderSecrets(g, ppub, keyB.de, ra, rB) == InitiatorSecrets(g, keyA, rb, rA)
  {
    PairWithUserKey(g, s, idB, HID_EXCHANGE, rA);
    PairWithUserKey(g, s, idA, HID_EXCHANGE, rB);
    TimesTwice(g.order, Pair(g, MasterPublic(g, s), 1), rA, rB);
    hide Times, Pair, IdentityPoint, ScalarMul, UserExponent, Hash1, GroupOk;
  }

  /** What the three secrets are: e(Ppub, P2) raised to rA, to rB and to their product. */
  lemma SecretsAre(g: Group, s: nat, idA: Bytes, idB: Bytes, rA: nat, rB: nat)
    requires Setup(g, s, idA, idB) && 0 < rA < g.order && 0 < rB < g.order
    ensures var ppub := MasterPublic(g, s);
            var keyB := ExtractEncKey(g, s, idB, HID_EXCHANGE).value;
            var ra := ScalarMul(g, IdentityPoint(g, idB, HID_EXCHANGE, ppub), rA);
            ResponderSecrets(g, ppub, keyB.de, ra, rB)
            == Secrets(s * rA % g.order, s * rB % g.order, s * (rA * rB) % g.order)
  {
    MasterPublicLog(g, s);
    PairWithUserKey(g, s, idB, HID_EXCHANGE, rA);
    ModArith.ModMulLeft(s * rA, rB, g.order);
    Associates(s, rA, rB);
    hide Pair, IdentityPoint, ScalarMul, UserExponent, Hash1, GroupOk, MasterPublic;
  }

  lemma Associates(a: nat, b: nat, c: nat)
    ensures (a * b) * c == a * (b * c)
  {
  }

  lemma TimesTwice(n: nat, e: nat, a: nat, b: nat)
    requires n > 0
    ensures Times(n, Times(n, e, a), b) == Times(n, Times(n, e, b), a)
  {
    ModArith.ModMulLeft(e * a, b, n);
    ModArith.ModMulLeft(e * b, a, n);
    assert (e * a) * b == (e * b) * a;
  }

  /** The run A -> B -> A, with or without key confirmation: both steps succeed, the shared keys
      are equal whatever their length, B's confirmation is accepted by A and A's by B. */
  lemma ExchangeAgrees(g: Group, sm3: Sm3, s: nat, idA: Bytes, idB: Bytes, rA: nat, rB: nat, klen: nat, confirm: bool)
    requires Setup(g, s, idA, idB) && 0 < rA < g.order && 0 < rB < g.order
    ensures var ppub := MasterPublic(g, s);
            var keyA, keyB := ExtractEncKey(g, s, idA, HID_EXCHANGE).value,
                              ExtractEncKey(g, s, idB, HID_EXCHANGE).value;
            var a := InitiatorBegin(g, idB, ppub, rA);
            var outB := ResponderProcess(g, sm3, idA, idB, ppub, keyB, a.point, klen, confirm, rB);
            && outB.Ok?
            && WellSized(outB.value.point)
            && var outA := InitiatorFinish(g, sm3, a, outB.value.point, keyA, idA, idB, klen, outB.value.sb);
            && outA.Ok?
            && outA.value.sharedKey == outB.value.sharedKey
            && VerifySa(g, sm3, Names(idA, idB, a.point, outB.value.point),
                        ResponderSecrets(g, ppub, keyB.de, a.point, rB), outA.value.sa)
  {
    SecretsCoincide(g, s, idA, idB, rA, rB);
    hide Times, IdentityPoint, UserExponent, Hash1, GroupOk, SharedKey, Confirmation,
      ResponderSecrets, InitiatorSecrets;
  }

  /** With keys extracted under some other hid the two sides reach the same g1, g2 and g3 exactly
      when H1 gives each identity the same scalar under both. */
  lemma OtherHidAgreesExactly(g: Group, s: nat, idA: Bytes, idB: Bytes, hid: byte, rA: nat, rB: nat)
    requires GroupOk(g) && s < g.order && 0 < rA < g.order && 0 < rB < g.order
    requires ExtractEncKey(g, s, idA, hid).Some? && ExtractEncKey(g, s, idB, hid).Some?
    ensures var ppub := MasterPublic(g, s);
            var keyA, keyB := ExtractEncKey(g, s, idA, hid).value, ExtractEncKey(g, s, idB, hid).value;
            var ra := ScalarMul(g, IdentityPoint(g, idB, HID_EXCHANGE, ppub), rA);
            var rb := ScalarMul(g, IdentityPoint(g, idA, HID_EXCHANGE, ppub), rB);
            ResponderSecrets(g, ppub, keyB.de, ra, rB) == InitiatorSecrets(g, keyA, rb, rA)
            <==> && g.h1(idB, HID_EXCHANGE) % (g.order - 1) == g.h1(idB, hid) % (g.order - 1)
                 && g.h1(idA, HID_EXCHANGE) % (g.order - 1) == g.h1(idA, hid) % (g.order - 1)
  {
    PairAcrossHids(g, s, idB, HID_EXCHANGE, hid, rA);
    PairAcrossHids(g, s, idA, HID_EXCHANGE, hid, rB);
    TimesTwice(g.order, Pair(g, MasterPublic(g, s), 1), rA, rB);
    hide Times, Pair, IdentityPoint, ScalarMul, UserExponent, Hash1, GroupOk;
  }
}
