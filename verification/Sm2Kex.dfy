/** The three-message SM2 key exchange session of gm-crypto/src/sm2_kex.rs. */
module Sm2Kex {
  import opened Bytes
  import opened Kdf
  import opened Sm2Curve

  type Id = b: Bytes | |b| == 16 witness seq(16, _ => 0)
  type EncodedPoint = b: Bytes | |b| == 64 witness seq(64, _ => 0)
  type Hash = b: Bytes | |b| == 32 witness seq(32, _ => 0)
  type PublicKey = Bytes
  type SecretKey = nat

  /** SM3, the curve and the signature scheme. `sign` is None when the signing key is refused;
      `verify` covers the key, the signature encoding and the signature itself. */
  datatype Suite = Suite(
    sm3: Sm3,
    curve: Curve,
    publicOf: SecretKey -> PublicKey,
    sign: (SecretKey, Bytes) -> Option<Bytes>,
    verify: (PublicKey, Bytes, Bytes) -> bool)

  datatype Msg = Msg(
    kind: nat,
    sender: Id,
    point: EncodedPoint,
    signature: Option<Bytes>,
    confirmation: Option<Hash>)

  datatype KexResult = KexResult(sharedSecret: Hash, sessionKey: Hash, s: Hash)
  datatype KexState = Init | WaitForResponse | WaitForConfirmation | Completed | Failed
  datatype Peer = Peer(id: Id, point: EncodedPoint, key: PublicKey)

  datatype Session = Session(
    secret: SecretKey,
    id: Id,
    r: nat,
    point: EncodedPoint,
    initiator: bool,
    state: KexState,
    peer: Option<Peer>,
    result: Option<KexResult>)

  // ---------------------------------------------------------------- values

  /** validate_user_id: 1 to 16 bytes, padded with zeros. */
  function ValidateUserId(id: Bytes): (r: Result<Id>)
    ensures r.Ok? <==> 1 <= |id| <= 16
    ensures r.Ok? ==> id <= r.value && forall i :: |id| <= i < 16 ==> r.value[i] == 0
  {
    if id == [] || |id| > 16 then Err else Ok(id + Zeros(16 - |id|))
  }

  function Encode(c: Curve, k: nat): (r: EncodedPoint) {
    X(c, k) + Y(c, k)
  }

  function Find(c: Curve, p: EncodedPoint): (k: Option<nat>) {
    c.find(p[..32], p[32..])
  }

  predicate ValidPoint(c: Curve, p: EncodedPoint)
    requires c.order > 1
  {
    Find(c, p).Some? && Find(c, p).value % c.order != 0
  }

  /** [r]P as 64 coordinate bytes; the identity has none. */
  function SharedPoint(c: Curve, r: nat, p: EncodedPoint): (v: Result<EncodedPoint>)
    requires c.order > 1
  {
    var k := Find(c, p);
    if k.None? then Err
    else if Times(c, r, k.value) == 0 then Err
    else Ok(Encode(c, Times(c, r, k.value)))
  }

  /** The identities and ephemeral points of one exchange, in protocol order. */
  datatype Transcript = Transcript(idA: Id, idB: Id, r1: EncodedPoint, r2: EncodedPoint)

  function Flat(t: Transcript): (r: Bytes)
    ensures |r| == 160
  {
    t.idA + t.idB + t.r1 + t.r2
  }

  /** The signed data determines the transcript. */
  lemma FlatInjective(t: Transcript, t': Transcript)
    requires Flat(t) == Flat(t')
    ensures t == t'
  {
    SplitEqual(t.idA + t.idB + t.r1, t.r2, t'.idA + t'.idB + t'.r1, t'.r2);
    SplitEqual(t.idA + t.idB, t.r1, t'.idA + t'.idB, t'.r1);
    SplitEqual(t.idA, t.idB, t'.idA, t'.idB);
  }

  function SharedSecret(sm3: Sm3, v: EncodedPoint, t: Transcript): (k: Hash) {
    Stream(Counter(sm3, v + Flat(t)), 32)
  }

  /** "session-key" in ASCII. */
  const SESSION_LABEL: Bytes := [115, 101, 115, 115, 105, 111, 110, 45, 107, 101, 121]

  function SessionKey(sm3: Sm3, k: Hash): (r: Hash) {
    Stream(Counter(sm3, k + SESSION_LABEL), 32)
  }

  /** SM3(ID || SM3(R1 || R2 || x || y || K)). */
  function Confirmation(sm3: Sm3, id: Id, t: Transcript, v: EncodedPoint, k: Hash): (r: Hash) {
    Digest(sm3, id + Digest(sm3, t.r1 + t.r2 + v + k))
  }

  /** What a session with this identity keeps for transcript t and shared point v. */
  function ResultFor(sm3: Sm3, id: Id, t: Transcript, v: EncodedPoint): (r: KexResult) {
    var k := SharedSecret(sm3, v, t);
    KexResult(k, SessionKey(sm3, k), Confirmation(sm3, id, t, v, k))
  }

  // ---------------------------------------------------------------- steps on session values

  /** The transcript as this session sees it. */
  function TranscriptOf(s: Session, p: Peer): (t: Transcript) {
    if s.initiator then Transcript(s.id, p.id, s.point, p.point) else Transcript(p.id, s.id, p.point, s.point)
  }

  function NewSession(c: Suite, secret: SecretKey, userId: Bytes, r: nat, initiator: bool): (res: Result<Session>) {
    var id := ValidateUserId(userId);
    if id.Err? then Err
    else Ok(Session(secret, id.value, r, Encode(c.curve, r), initiator, Init, None, None))
  }

  function GenerateMsg1(s: Session): (r: Result<Msg>) {
    if !s.initiator || s.state != Init then Err
    else Ok(Msg(1, s.id, s.point, None, None))
  }

  function ProcessMsg1(c: Suite, s: Session, msg: Msg, key: PublicKey): (r: (Session, Result<Msg>))
    requires c.curve.order > 1
  {
    if s.initiator || s.state != Init || msg.kind != 1 || !ValidPoint(c.curve, msg.point) then (s, Err)
    else
      var p := Peer(msg.sender, msg.point, key);
      var sig := c.sign(s.secret, Flat(TranscriptOf(s, p)));
      if sig.None? then (s.(peer := Some(p)), Err)
      else (s.(peer := Some(p), state := WaitForConfirmation), Ok(Msg(2, s.id, s.point, Some(sig.value), None)))
  }

  /** The peer is stored before its signature is checked. */
  function ProcessMsg2(c: Suite, s: Session, msg: Msg, key: PublicKey): (r: (Session, Result<Msg>))
    requires c.curve.order > 1
  {
    if !s.initiator || s.state != Init || msg.kind != 2 || msg.signature.None? || !ValidPoint(c.curve, msg.point)
    then (s, Err)
    else
      var p := Peer(msg.sender, msg.point, key);
      var t := TranscriptOf(s, p);
      var v := SharedPoint(c.curve, s.r, p.point);
      if !c.verify(key, Flat(t), msg.signature.value) || v.Err? then (s.(peer := Some(p)), Err)
      else
        var res := ResultFor(c.sm3, s.id, t, v.value);
        (s.(peer := Some(p), state := Completed, result := Some(res)),
         Ok(Msg(3, s.id, seq(64, _ => 0), None, Some(res.s))))
  }

  function ProcessMsg3(c: Suite, s: Session, msg: Msg): (r: (Session, Result<()>))
    requires c.curve.order > 1
  {
    if s.initiator || s.state != WaitForConfirmation || msg.kind != 3 || s.peer.None? then (s, Err)
    else
      var p := s.peer.value;
      var t := TranscriptOf(s, p);
      var v := SharedPoint(c.curve, s.r, p.point);
      if v.Err? then (s, Err)
      else
        var k := SharedSecret(c.sm3, v.value, t);
        if msg.confirmation != Some(Confirmation(c.sm3, p.id, t, v.value, k)) then (s, Err)
        else (s.(state := Completed, result := Some(ResultFor(c.sm3, s.id, t, v.value))), Ok(()))
  }

  // ---------------------------------------------------------------- the mutable session

  class KexSession {
    const c: Suite
    const secret: SecretKey
    const id: Id
    const r: nat
    const point: EncodedPoint
    const initiator: bool
    var state: KexState
    var peer: Option<Peer>
    var result: Option<KexResult>

    ghost function View(): (s: Session)
      reads this
    {
      Session(secret, id, r, point, initiator, state, peer, result)
    }

    constructor (c: Suite, secret: SecretKey, id: Id, r: nat, initiator: bool)
      ensures this.c == c
      ensures View() == Session(secret, id, r, Encode(c.curve, r), initiator, Init, None, None)
    {
      this.c, this.secret, this.id, this.r, this.initiator := c, secret, id, r, initiator;
      this.point := Encode(c.curve, r);
      state, peer, result := Init, None, None;
    }

    method GenerateFirst() returns (m: Result<Msg>)
      ensures m == GenerateMsg1(View())
    {
      if !initiator {
        return Err;
      }
      if state != Init {
        return Err;
      }
      m := Ok(Msg(1, id, point, None, None));
    }

    method ReceiveFirst(msg: Msg, key: PublicKey) returns (m: Result<Msg>)
      requires c.curve.order > 1
      modifies this
      ensures (View(), m) == ProcessMsg1(c, old(View()), msg, key)
    {
      hide ValidPoint;
      if initiator || state != Init || msg.kind != 1 {
        return Err;
      }
      if !ValidPoint(c.curve, msg.point) {
        return Err;
      }
      peer := Some(Peer(msg.sender, msg.point, key));
      var signedData := msg.sender + id + msg.point + point;
      var sig := c.sign(secret, signedData);
      if sig.None? {
        return Err;
      }
      state := WaitForConfirmation;
      m := Ok(Msg(2, id, point, Some(sig.value), None));
    }

    /** compute_shared_secret_and_confirmation, for the stored peer. */
    method ComputeSecret(peerPoint: EncodedPoint) returns (m: Result<(Hash, Hash)>)
      requires c.curve.order > 1 && peer.Some? && peer.value.point == peerPoint
      ensures var v, t := SharedPoint(c.curve, r, peerPoint), TranscriptOf(View(), peer.value);
              m == if v.Err? then Err
                   else Ok((SharedSecret(c.sm3, v.value, t),
                            Confirmation(c.sm3, id, t, v.value, SharedSecret(c.sm3, v.value, t))))
    {
      hide SharedPoint, Stream, Counter, Digest;
      var v := SharedPoint(c.curve, r, peerPoint);
      if v.Err? {
        return Err;
      }
      var xy := v.value;
      ghost var t := TranscriptOf(View(), peer.value);
      var input: Bytes;
      if initiator {
        input := xy + id + peer.value.id + point + peerPoint;
      } else {
        input := xy + peer.value.id + id + peer.value.point + point;
      }
      assert input == xy + Flat(t);
      var secretKey := Sm2Kdf(c.sm3, input, 32);
      var k := secretKey.value;
      var inner: Bytes;
      if initiator {
        inner := Digest(c.sm3, point + peerPoint + xy + k);
      } else {
        inner := Digest(c.sm3, peer.value.point + point + xy + k);
      }
      m := Ok((k, Digest(c.sm3, id + inner)));
    }

    method ReceiveSecond(msg: Msg, key: PublicKey) returns (m: Result<Msg>)
      requires c.curve.order > 1
      modifies this
      ensures (View(), m) == ProcessMsg2(c, old(View()), msg, key)
    {
      hide ValidPoint, SharedPoint, SharedSecret, Confirmation, Stream, Counter;
      if !initiator || state != Init || msg.kind != 2 || msg.signature.None? {
        return Err;
      }
      if !ValidPoint(c.curve, msg.point) {
        return Err;
      }
      peer := Some(Peer(msg.sender, msg.point, key));
      var signedData := id + msg.sender + point + msg.point;
      if !c.verify(key, signedData, msg.signature.value) {
        return Err;
      }
      var computed := ComputeSecret(msg.point);
      if computed.Err? {
        return Err;
      }
      var sessionKey := Sm2Kdf(c.sm3, computed.value.0 + SESSION_LABEL, 32);
      state := Completed;
      result := Some(KexResult(computed.value.0, sessionKey.value, computed.value.1));
      m := Ok(Msg(3, id, seq(64, _ => 0), None, Some(computed.value.1)));
    }

    method ReceiveThird(msg: Msg) returns (m: Result<()>)
      requires c.curve.order > 1
      modifies this
      ensures (View(), m) == ProcessMsg3(c, old(View()), msg)
    {
      hide ValidPoint, SharedPoint, Stream, Counter, Digest;
      if initiator || state != WaitForConfirmation || msg.kind != 3 || peer.None? {
        return Err;
      }
      var computed := ComputeSecret(peer.value.point);
      if computed.Err? {
        return Err;
      }
      var xy := SharedPoint(c.curve, r, peer.value.point).value;
      var k := computed.value.0;
      var inner := Digest(c.sm3, peer.value.point + point + xy + k);
      var expected := Digest(c.sm3, peer.value.id + inner);
      if msg.confirmation.None? || msg.confirmation.value != expected {
        return Err;
      }
      var sessionKey := Sm2Kdf(c.sm3, k + SESSION_LABEL, 32);
      state := Completed;
      result := Some(KexResult(k, sessionKey.value, computed.value.1));
      m := Ok(());
    }
  }
}
