/** SM2 key exchange sessions over whole runs: one session under arbitrary calls, and any number
    of sessions over a network that delivers whatever it likes. */
module Sm2KexRuns {
  import opened Bytes
  import opened Kdf
  import opened Sm2Curve
  import opened Sm2Kex

  // ---------------------------------------------------------------- one session

  datatype Call = One(msg: Msg, key: PublicKey) | Two(msg: Msg, key: PublicKey) | Three(msg: Msg)

  datatype Outcome = Outcome(session: Session, ok: bool)

  function Do(c: Suite, s: Session, call: Call): (o: Outcome)
    requires c.curve.order > 1
  {
    match call
    case One(m, key) => var r := ProcessMsg1(c, s, m, key); Outcome(r.0, r.1.Ok?)
    case Two(m, key) => var r := ProcessMsg2(c, s, m, key); Outcome(r.0, r.1.Ok?)
    case Three(m) => var r := ProcessMsg3(c, s, m); Outcome(r.0, r.1.Ok?)
  }

  function Run(c: Suite, s: Session, calls: seq<Call>): (r: Session)
    requires c.curve.order > 1
    decreases |calls|
  {
    if calls == [] then s else Run(c, Do(c, s, calls[0]).session, calls[1..])
  }

  /** The shared point a session computes with its peer's. */
  function PointWith(c: Suite, s: Session, p: Peer): (v: Result<EncodedPoint>)
    requires c.curve.order > 1
  {
    SharedPoint(c.curve, s.r, p.point)
  }

  /** What holds of a session in every reachable state. */
  ghost predicate Inv(c: Suite, s: Session)
    requires c.curve.order > 1
  {
    && s.state != WaitForResponse && s.state != Failed
    && (s.result.Some? <==> s.state == Completed)
    && (s.state == WaitForConfirmation ==> !s.initiator && s.peer.Some?)
    && (s.state == Completed ==>
          && s.peer.Some? && PointWith(c, s, s.peer.value).Ok?
          && s.result
              == Some(ResultFor(c.sm3, s.id, TranscriptOf(s, s.peer.value), PointWith(c, s, s.peer.value).value)))
  }

  /** The identity of a session never changes. */
  predicate SameParty(s: Session, s': Session) {
    s'.secret == s.secret && s'.id == s.id && s'.r == s.r && s'.point == s.point && s'.initiator == s.initiator
  }

  lemma CallKeepsInv(c: Suite, s: Session, call: Call)
    requires c.curve.order > 1 && Inv(c, s)
    ensures Inv(c, Do(c, s, call).session) && SameParty(s, Do(c, s, call).session)
  {
    hide SharedPoint, ResultFor, ValidPoint, Flat, SharedSecret, Confirmation;
  }

  /** A call that fails leaves the state and the result alone; it can only have recorded a peer,
      and only in the initial state. */
  lemma FailureKeepsState(c: Suite, s: Session, call: Call)
    requires c.curve.order > 1 && !Do(c, s, call).ok
    ensures var s' := Do(c, s, call).session;
            && s' == s.(peer := s'.peer)
            && (s'.peer != s.peer ==> s.state == Init && !call.Three?)
  {
    hide SharedPoint, ResultFor, ValidPoint, Flat, SharedSecret, Confirmation;
  }

  /** In every state reached from a new session, by any calls, the invariant holds. */
  lemma {:induction false} ReachableInv(c: Suite, s: Session, calls: seq<Call>)
    requires c.curve.order > 1 && Inv(c, s)
    ensures Inv(c, Run(c, s, calls)) && SameParty(s, Run(c, s, calls))
    decreases |calls|
  {
    if calls != [] {
      CallKeepsInv(c, s, calls[0]);
      hide Do, Inv;
      ReachableInv(c, Do(c, s, calls[0]).session, calls[1..]);
    }
  }

  lemma NewSessionInv(c: Suite, secret: SecretKey, userId: Bytes, r: nat, initiator: bool)
    requires c.curve.order > 1 && NewSession(c, secret, userId, r, initiator).Ok?
    ensures Inv(c, NewSession(c, secret, userId, r, initiator).value)
  {
  }

  /** Once completed, every later call fails and nothing changes. */
  lemma {:induction false} CompletedIsFinal(c: Suite, s: Session, calls: seq<Call>)
    requires c.curve.order > 1 && s.state == Completed
    ensures Run(c, s, calls) == s
    ensures forall i :: 0 <= i < |calls| ==> !Do(c, s, calls[i]).ok
    decreases |calls|
  {
    hide SharedPoint, ResultFor, ValidPoint, Flat, SharedSecret, Confirmation;
    if calls != [] { CompletedIsFinal(c, s, calls[1..]); }
  }

  /** The confirmation a responder recomputes from its own transcript. */
  function Recomputed(c: Suite, s: Session, p: Peer): (h: Option<Hash>)
    requires c.curve.order > 1
  {
    var v, t := PointWith(c, s, p), TranscriptOf(s, p);
    if v.Err? then None else Some(Confirmation(c.sm3, p.id, t, v.value, SharedSecret(c.sm3, v.value, t)))
  }

  /** A responder completes exactly on a third message whose confirmation is the recomputed one,
      while waiting for it. */
  lemma ResponderCompletesExactly(c: Suite, s: Session, call: Call)
    requires c.curve.order > 1 && Inv(c, s) && !s.initiator && s.state != Completed
    ensures Do(c, s, call).session.state == Completed <==>
            && call.Three? && call.msg.kind == 3 && s.state == WaitForConfirmation
            && call.msg.confirmation.Some? && call.msg.confirmation == Recomputed(c, s, s.peer.value)
  {
    hide SharedPoint, ValidPoint, Flat, SharedSecret, Confirmation;
  }

  // ---------------------------------------------------------------- what the results cover

  /** What a completed session hashes: the shared point, then A_ID, B_ID, R1 and R2. */
  function KeyInput(s: Session, p: Peer, v: EncodedPoint): (r: Bytes) {
    (if s.initiator then v + s.id + p.id + s.point + p.point else v + p.id + s.id + p.point + s.point) + [0, 0, 0, 1]
  }

  /** R1, R2, the shared point and the shared secret. */
  function InnerInput(s: Session, p: Peer, v: EncodedPoint, k: Hash): (r: Bytes) {
    (if s.initiator then s.point + p.point else p.point + s.point) + v + k
  }

  /** The three values of a completed session, as hashes. */
  lemma CompletedResult(c: Suite, s: Session)
    requires c.curve.order > 1 && Inv(c, s) && s.state == Completed
    ensures s.peer.Some? && s.result.Some? && SharedPoint(c.curve, s.r, s.peer.value.point).Ok?
    ensures var p, r, v := s.peer.value, s.result.value, SharedPoint(c.curve, s.r, s.peer.value.point).value;
            && r.sharedSecret == Digest(c.sm3, KeyInput(s, p, v))
            && r.sessionKey
               == Digest(c.sm3, r.sharedSecret + [115, 101, 115, 115, 105, 111, 110, 45, 107, 101, 121] + [0, 0, 0, 1])
            && r.s == Digest(c.sm3, s.id + Digest(c.sm3, InnerInput(s, p, v, r.sharedSecret)))
  {
    var p, r, v := s.peer.value, s.result.value, SharedPoint(c.curve, s.r, s.peer.value.point).value;
    hide SharedPoint, Stream, Counter, Digest;
    var t := TranscriptOf(s, p);
    FirstDigest(c.sm3, v + Flat(t), 32);
    assert v + Flat(t) + [0, 0, 0, 1] == KeyInput(s, p, v);
    FirstDigest(c.sm3, r.sharedSecret + SESSION_LABEL, 32);
  }

  lemma KeyInputCovers(s: Session, p: Peer, v: EncodedPoint, s': Session, p': Peer, v': EncodedPoint)
    ensures KeyInput(s, p, v) == KeyInput(s', p', v') <==> v == v' && TranscriptOf(s, p) == TranscriptOf(s', p')
  {
    var t, t' := TranscriptOf(s, p), TranscriptOf(s', p');
    assert KeyInput(s, p, v) == v + (Flat(t) + [0, 0, 0, 1]);
    assert KeyInput(s', p', v') == v' + (Flat(t') + [0, 0, 0, 1]);
    hide KeyInput, Flat;
    if v + (Flat(t) + [0, 0, 0, 1]) == v' + (Flat(t') + [0, 0, 0, 1]) {
      SplitEqual(v, Flat(t) + [0, 0, 0, 1], v', Flat(t') + [0, 0, 0, 1]);
      SplitEqual(Flat(t), [0, 0, 0, 1], Flat(t'), [0, 0, 0, 1]);
      FlatInjective(t, t');
    }
  }

  /** Up to collisions of SM3 on what the two hashed, two completed sessions hold the same shared
      secret if and only if their transcripts and their shared points are the same; and the same
      session key if and only if they hold the same shared secret. */
  lemma SecretCovers(c: Suite, a: Session, b: Session)
    requires c.curve.order > 1 && Inv(c, a) && Inv(c, b) && a.state == Completed && b.state == Completed
    requires Apart(c.sm3, KeyInput(a, a.peer.value, SharedPoint(c.curve, a.r, a.peer.value.point).value),
                   KeyInput(b, b.peer.value, SharedPoint(c.curve, b.r, b.peer.value.point).value))
    ensures a.result.value.sharedSecret == b.result.value.sharedSecret <==>
            && TranscriptOf(a, a.peer.value) == TranscriptOf(b, b.peer.value)
            && SharedPoint(c.curve, a.r, a.peer.value.point) == SharedPoint(c.curve, b.r, b.peer.value.point)
    ensures Apart(c.sm3, a.result.value.sharedSecret + SESSION_LABEL + [0, 0, 0, 1],
                  b.result.value.sharedSecret + SESSION_LABEL + [0, 0, 0, 1]) ==>
            (a.result.value.sessionKey == b.result.value.sessionKey
             <==> a.result.value.sharedSecret == b.result.value.sharedSecret)
  {
    CompletedResult(c, a);
    CompletedResult(c, b);
    var v := SharedPoint(c.curve, a.r, a.peer.value.point).value;
    var v' := SharedPoint(c.curve, b.r, b.peer.value.point).value;
    hide SharedPoint, Digest, Inv, KeyInput, InnerInput, TranscriptOf;
    KeyInputCovers(a, a.peer.value, v, b, b.peer.value, v');
    var k, k' := a.result.value.sharedSecret, b.result.value.sharedSecret;
    if k + SESSION_LABEL + [0, 0, 0, 1] == k' + SESSION_LABEL + [0, 0, 0, 1] {
      SplitEqual(k + SESSION_LABEL, [0, 0, 0, 1], k' + SESSION_LABEL, [0, 0, 0, 1]);
      SplitEqual(k, SESSION_LABEL, k', SESSION_LABEL);
    }
  }

  lemma InnerInputCovers(s: Session, p: Peer, v: EncodedPoint, k: Hash,
                         s': Session, p': Peer, v': EncodedPoint, k': Hash)
    ensures InnerInput(s, p, v, k) == InnerInput(s', p', v', k') <==>
            && v == v' && k == k' && TranscriptOf(s, p).r1 == TranscriptOf(s', p').r1
            && TranscriptOf(s, p).r2 == TranscriptOf(s', p').r2
  {
    var t, t' := TranscriptOf(s, p), TranscriptOf(s', p');
    assert InnerInput(s, p, v, k) == t.r1 + t.r2 + v + k;
    assert InnerInput(s', p', v', k') == t'.r1 + t'.r2 + v' + k';
    hide InnerInput, TranscriptOf;
    if t.r1 + t.r2 + v + k == t'.r1 + t'.r2 + v' + k' {
      SplitEqual(t.r1 + t.r2 + v, k, t'.r1 + t'.r2 + v', k');
      SplitEqual(t.r1 + t.r2, v, t'.r1 + t'.r2, v');
      SplitEqual(t.r1, t.r2, t'.r1, t'.r2);
    }
  }

  /** In the same way the confirmation values of two completed sessions are the same if and only if
      identity, R1, R2, shared point and shared secret are. */
  lemma ConfirmationCovers(c: Suite, a: Session, b: Session)
    requires c.curve.order > 1 && Inv(c, a) && Inv(c, b) && a.state == Completed && b.state == Completed
    requires var x := InnerInput(a, a.peer.value, SharedPoint(c.curve, a.r, a.peer.value.point).value,
                                 a.result.value.sharedSecret);
             var y := InnerInput(b, b.peer.value, SharedPoint(c.curve, b.r, b.peer.value.point).value,
                                 b.result.value.sharedSecret);
             Apart(c.sm3, x, y) && Apart(c.sm3, a.id + Digest(c.sm3, x), b.id + Digest(c.sm3, y))
    ensures a.result.value.s == b.result.value.s <==>
            && a.id == b.id && a.result.value.sharedSecret == b.result.value.sharedSecret
            && TranscriptOf(a, a.peer.value).r1 == TranscriptOf(b, b.peer.value).r1
            && TranscriptOf(a, a.peer.value).r2 == TranscriptOf(b, b.peer.value).r2
            && SharedPoint(c.curve, a.r, a.peer.value.point) == SharedPoint(c.curve, b.r, b.peer.value.point)
  {
    CompletedResult(c, a);
    CompletedResult(c, b);
    var v := SharedPoint(c.curve, a.r, a.peer.value.point).value;
    var v' := SharedPoint(c.curve, b.r, b.peer.value.point).value;
    hide SharedPoint, Digest, Inv, KeyInput, InnerInput, TranscriptOf;
    var k, k' := a.result.value.sharedSecret, b.result.value.sharedSecret;
    InnerInputCovers(a, a.peer.value, v, k, b, b.peer.value, v', k');
    var x, y := InnerInput(a, a.peer.value, v, k), InnerInput(b, b.peer.value, v', k');
    if a.id + Digest(c.sm3, x) == b.id + Digest(c.sm3, y) {
      SplitEqual(a.id, Digest(c.sm3, x), b.id, Digest(c.sm3, y));
    }
  }

  // ---------------------------------------------------------------- when a call is accepted

  /** The 64 bytes are the coordinates of a point other than the identity. */
  predicate OnCurve(c: Curve, p: EncodedPoint)
    requires c.order > 1
  {
    var k := c.find(p[..32], p[32..]);
    k.Some? && k.value % c.order != 0
  }

  /** A responder answers exactly a first message with a point on the curve, in its initial state,
      when it can sign A_ID, B_ID, R1 and R2. */
  lemma ResponderAnswersExactly(c: Suite, s: Session, call: Call)
    requires c.curve.order > 1
    ensures call.One? && Do(c, s, call).ok <==>
            && call.One? && call.msg.kind == 1 && !s.initiator && s.state == Init && OnCurve(c.curve, call.msg.point)
            && c.sign(s.secret, call.msg.sender + s.id + call.msg.point + s.point).Some?
    ensures call.One? && Do(c, s, call).ok ==>
            && ProcessMsg1(c, s, call.msg, call.key).1
               == Ok(Msg(2, s.id, s.point, c.sign(s.secret, call.msg.sender + s.id + call.msg.point + s.point), None))
            && Do(c, s, call).session.peer == Some(Peer(call.msg.sender, call.msg.point, call.key))
  {
  }

  /** An initiator completes exactly on a second message, in its initial state, with a point on the
      curve whose multiple is not the identity and a signature over A_ID, B_ID, R1 and R2 that
      verifies under the key it was given. */
  lemma InitiatorCompletesExactly(c: Suite, s: Session, call: Call)
    requires c.curve.order > 1 && s.initiator && s.state != Completed
    ensures Do(c, s, call).session.state == Completed <==>
            && call.Two? && call.msg.kind == 2 && s.state == Init && call.msg.signature.Some?
            && OnCurve(c.curve, call.msg.point) && SharedPoint(c.curve, s.r, call.msg.point).Ok?
            && c.verify(call.key, s.id + call.msg.sender + s.point + call.msg.point, call.msg.signature.value)
    ensures Do(c, s, call).session.state == Completed ==>
            Do(c, s, call).session.peer == Some(Peer(call.msg.sender, call.msg.point, call.key))
  {
    hide SharedPoint, ResultFor, SharedSecret, Confirmation;
  }

  // ---------------------------------------------------------------- any number of sessions

  /** Sessions are opened at any time; any call may arrive at any session, from anyone. */
  datatype Event = Open(secret: SecretKey, userId: Bytes, r: nat, initiator: bool) | Deliver(to: nat, call: Call)

  /** `signed` records which key has signed which data. */
  datatype World = World(sessions: seq<Session>, signed: set<(PublicKey, Bytes)>)

  function Step(c: Suite, w: World, e: Event): (w': World)
    requires c.curve.order > 1
  {
    match e
    case Open(secret, userId, r, initiator) =>
      var s := NewSession(c, secret, userId, r, initiator);
      if s.Err? || !(0 < r < c.curve.order) then w else w.(sessions := w.sessions + [s.value])
    case Deliver(i, call) =>
      if i >= |w.sessions| then w
      else
        var o := Do(c, w.sessions[i], call);
        World(w.sessions[i := o.session],
              if call.One? && o.ok then w.signed + {SignedBy(c, o.session)} else w.signed)
  }

  /** What a responder that answered has signed. */
  function SignedBy(c: Suite, s: Session): (x: (PublicKey, Bytes)) {
    (c.publicOf(s.secret), if s.peer.Some? then Flat(TranscriptOf(s, s.peer.value)) else [])
  }

  function After(c: Suite, events: seq<Event>): (w: World)
    requires c.curve.order > 1
  {
    if events == [] then World([], {}) else Step(c, After(c, events[..|events| - 1]), events[|events| - 1])
  }

  /** Signatures of honest keys cannot be forged: one that an initiator accepts was made. */
  ghost predicate Unforged(c: Suite, honest: set<PublicKey>, w: World, e: Event) {
    e.Deliver? && e.call.Two? && e.to < |w.sessions| && e.call.key in honest && e.call.msg.signature.Some? ==>
      var data := Flat(TranscriptOf(w.sessions[e.to], Peer(e.call.msg.sender, e.call.msg.point, e.call.key)));
      c.verify(e.call.key, data, e.call.msg.signature.value) ==> (e.call.key, data) in w.signed
  }

  ghost predicate Legal(c: Suite, honest: set<PublicKey>, events: seq<Event>)
    requires c.curve.order > 1
  {
    events == [] ||
    var past := events[..|events| - 1];
    Legal(c, honest, past) && Unforged(c, honest, After(c, past), events[|events| - 1])
  }

  /** Session s is a responder that answered and signed x. */
  predicate SignerOf(c: Suite, s: Session, x: (PublicKey, Bytes)) {
    !s.initiator && (s.state == WaitForConfirmation || s.state == Completed) && s.peer.Some? && SignedBy(c, s) == x
  }

  ghost predicate SessionOk(c: Suite, s: Session)
    requires c.curve.order > 1
  {
    Inv(c, s) && 0 < s.r < c.curve.order && s.point == Encode(c.curve, s.r)
  }

  /** A completed initiator's honest peer has signed the initiator's transcript. */
  predicate Backed(honest: set<PublicKey>, s: Session, signed: set<(PublicKey, Bytes)>) {
    s.initiator && s.state == Completed && s.peer.Some? && s.peer.value.key in honest ==>
      (s.peer.value.key, Flat(TranscriptOf(s, s.peer.value))) in signed
  }

  ghost predicate HasSigner(c: Suite, w: World, x: (PublicKey, Bytes)) {
    exists j :: 0 <= j < |w.sessions| && SignerOf(c, w.sessions[j], x)
  }

  ghost predicate WorldInv(c: Suite, honest: set<PublicKey>, w: World)
    requires c.curve.order > 1
  {
    && (forall i :: 0 <= i < |w.sessions| ==> SessionOk(c, w.sessions[i]) && Backed(honest, w.sessions[i], w.signed))
    && (forall x :: x in w.signed ==> HasSigner(c, w, x))
  }

  /** Calls keep what a responder has signed. */
  lemma SignerStays(c: Suite, s: Session, call: Call, x: (PublicKey, Bytes))
    requires c.curve.order > 1 && Inv(c, s) && SignerOf(c, s, x)
    ensures SignerOf(c, Do(c, s, call).session, x)
  {
    hide SharedPoint, ResultFor, ValidPoint, Flat, SharedSecret, Confirmation;
  }

  lemma AnsweringSigns(c: Suite, s: Session, call: Call)
    requires c.curve.order > 1 && call.One? && Do(c, s, call).ok
    ensures var s' := Do(c, s, call).session; SignerOf(c, s', SignedBy(c, s'))
  {
    hide ValidPoint, Flat;
  }

  lemma BackedStays(c: Suite, honest: set<PublicKey>, w: World, i: nat, call: Call)
    requires c.curve.order > 1 && i < |w.sessions| && SessionOk(c, w.sessions[i])
    requires Backed(honest, w.sessions[i], w.signed) && Unforged(c, honest, w, Deliver(i, call))
    ensures var s' := Do(c, w.sessions[i], call).session; SessionOk(c, s') && Backed(honest, s', w.signed)
  {
    CallKeepsInv(c, w.sessions[i], call);
    hide SharedPoint, ResultFor, ValidPoint, Flat, SharedSecret, Confirmation, Inv;
  }

  lemma SignersStay(c: Suite, w: World, i: nat, call: Call, x: (PublicKey, Bytes))
    requires c.curve.order > 1 && i < |w.sessions| && Inv(c, w.sessions[i])
    requires HasSigner(c, w, x)
    ensures HasSigner(c, Step(c, w, Deliver(i, call)), x)
  {
    var j :| 0 <= j < |w.sessions| && SignerOf(c, w.sessions[j], x);
    var w' := Step(c, w, Deliver(i, call));
    if j == i { SignerStays(c, w.sessions[i], call, x); }
    hide Do, SignerOf;
    assert SignerOf(c, w'.sessions[j], x);
  }

  lemma DeliverKeepsInv(c: Suite, honest: set<PublicKey>, w: World, i: nat, call: Call)
    requires c.curve.order > 1 && WorldInv(c, honest, w) && Unforged(c, honest, w, Deliver(i, call))
    ensures WorldInv(c, honest, Step(c, w, Deliver(i, call)))
  {
    if i < |w.sessions| {
      var w' := Step(c, w, Deliver(i, call));
      var o := Do(c, w.sessions[i], call);
      BackedStays(c, honest, w, i, call);
      if call.One? && o.ok { AnsweringSigns(c, w.sessions[i], call); }
      hide Do, SessionOk, SignerOf, SignedBy, Unforged;
      forall x | x in w'.signed ensures HasSigner(c, w', x) {
        if x in w.signed {
          assert Inv(c, w.sessions[i]) by { SessionInv(c, w.sessions[i]); }
          SignersStay(c, w, i, call, x);
        } else {
          assert SignerOf(c, w'.sessions[i], x);
        }
      }
      forall k | 0 <= k < |w'.sessions|
        ensures SessionOk(c, w'.sessions[k]) && Backed(honest, w'.sessions[k], w'.signed)
      {
        if k != i { assert w'.sessions[k] == w.sessions[k]; }
      }
    }
  }

  lemma SessionInv(c: Suite, s: Session)
    requires c.curve.order > 1 && SessionOk(c, s)
    ensures Inv(c, s)
  {
  }

  lemma OpenKeepsInv(c: Suite, honest: set<PublicKey>, w: World, e: Event)
    requires c.curve.order > 1 && WorldInv(c, honest, w) && e.Open?
    ensures WorldInv(c, honest, Step(c, w, e))
  {
    var w' := Step(c, w, e);
    hide SignerOf, Encode;
    forall x | x in w'.signed ensures HasSigner(c, w', x) {
      var j :| 0 <= j < |w.sessions| && SignerOf(c, w.sessions[j], x);
      assert w'.sessions[j] == w.sessions[j];
    }
  }

  lemma {:induction false} ReachableWorld(c: Suite, honest: set<PublicKey>, events: seq<Event>)
    requires c.curve.order > 1 && Legal(c, honest, events)
    ensures WorldInv(c, honest, After(c, events))
    decreases |events|
  {
    if events != [] {
      var past, e := events[..|events| - 1], events[|events| - 1];
      ReachableWorld(c, honest, past);
      hide WorldInv, Unforged, Step;
      match e
      case Open(_, _, _, _) => OpenKeepsInv(c, honest, After(c, past), e);
      case Deliver(i, call) => DeliverKeepsInv(c, honest, After(c, past), i, call);
    }
  }

  lemma {:induction false} LegalWithoutKeys(c: Suite, events: seq<Event>)
    requires c.curve.order > 1
    ensures Legal(c, {}, events)
    decreases |events|
  {
    hide After;
    if events != [] { LegalWithoutKeys(c, events[..|events| - 1]); }
  }

  /** Any two completed sessions of any run hold the same shared secret if and only if they have the
      same transcript and the same shared point, up to a collision on what the two hashed. */
  lemma RunSecretsCovered(c: Suite, events: seq<Event>, i: nat, j: nat)
    requires c.curve.order > 1
    requires var w := After(c, events);
             && i < |w.sessions| && j < |w.sessions|
             && w.sessions[i].state == Completed && w.sessions[j].state == Completed
    ensures var a, b := After(c, events).sessions[i], After(c, events).sessions[j];
            && a.peer.Some? && b.peer.Some? && a.result.Some? && b.result.Some?
            && var v := SharedPoint(c.curve, a.r, a.peer.value.point);
            var v' := SharedPoint(c.curve, b.r, b.peer.value.point);
            && v.Ok? && v'.Ok?
            && (Apart(c.sm3, KeyInput(a, a.peer.value, v.value), KeyInput(b, b.peer.value, v'.value)) ==>
                  (a.result.value.sharedSecret == b.result.value.sharedSecret
                   <==> TranscriptOf(a, a.peer.value) == TranscriptOf(b, b.peer.value) && v == v'))
  {
    LegalWithoutKeys(c, events);
    ReachableWorld(c, {}, events);
    hide After, Legal, SharedPoint, Digest, KeyInput, TranscriptOf;
    var a, b := After(c, events).sessions[i], After(c, events).sessions[j];
    assert SessionOk(c, a) && SessionOk(c, b);
    var v, v' := SharedPoint(c.curve, a.r, a.peer.value.point), SharedPoint(c.curve, b.r, b.peer.value.point);
    if Apart(c.sm3, KeyInput(a, a.peer.value, v.value), KeyInput(b, b.peer.value, v'.value)) { SecretCovers(c, a, b); }
  }

  // ---------------------------------------------------------------- agreement

  /** Ephemeral points determine one shared point: [a]([b]G) == [b]([a]G). */
  lemma SharedPointsMeet(c: Curve, a: nat, b: nat)
    requires CurveOk(c) && 0 < a < c.order && 0 < b < c.order
    ensures SharedPoint(c, a, Encode(c, b)) == SharedPoint(c, b, Encode(c, a))
  {
    FindEncoded(c, a);
    FindEncoded(c, b);
    TimesSymmetric(c, a, b);
  }

  /** The point that scalars a and b share is the multiple a * b of the generator. */
  lemma SharedPointIs(c: Curve, a: nat, b: nat)
    requires CurveOk(c) && 0 < b < c.order
    ensures SharedPoint(c, a, X(c, b) + Y(c, b))
            == if a * b % c.order == 0 then Err else Ok(X(c, a * b % c.order) + Y(c, a * b % c.order))
  {
    FindEncoded(c, b);
  }

  lemma FindEncoded(c: Curve, k: nat)
    requires CurveOk(c) && 0 < k < c.order
    ensures Find(c, Encode(c, k)) == Some(k)
  {
    FoundAgain(c, k);
    assert Encode(c, k)[..32] == X(c, k) && Encode(c, k)[32..] == Y(c, k);
  }

  /** Two sessions with mirrored peers see one transcript and one shared point. */
  predicate Mirrored(a: Session, b: Session) {
    && a.initiator && !b.initiator && a.peer.Some? && b.peer.Some?
    && TranscriptOf(a, a.peer.value) == TranscriptOf(b, b.peer.value)
  }

  lemma MirroredSameSecrets(c: Suite, a: Session, b: Session)
    requires CurveOk(c.curve) && SessionOk(c, a) && SessionOk(c, b) && Mirrored(a, b)
    ensures PointWith(c, a, a.peer.value) == PointWith(c, b, b.peer.value)
    ensures a.state == Completed && b.state == Completed ==>
            a.result.value.sharedSecret == b.result.value.sharedSecret
            && a.result.value.sessionKey == b.result.value.sessionKey
    ensures a.state == Completed ==> Recomputed(c, b, b.peer.value) == Some(a.result.value.s)
  {
    SharedPointsMeet(c.curve, a.r, b.r);
    hide SharedPoint, Encode, Flat, SharedSecret, Confirmation, SessionKey, CurveOk;
  }

  /** In every run over an arbitrary network: an initiator that completed against an honest key
      has a partner session holding that key which signed exactly (A_ID, B_ID, R1, R2); if the
      partner completed too, both hold the same shared secret and session key; and if it is still
      waiting, the initiator's confirmation completes it. */
  lemma Agreement(c: Suite, honest: set<PublicKey>, events: seq<Event>, i: nat) returns (j: nat)
    requires CurveOk(c.curve) && Legal(c, honest, events)
    requires var w := After(c, events);
             && i < |w.sessions| && w.sessions[i].initiator && w.sessions[i].state == Completed
             && w.sessions[i].peer.Some? && w.sessions[i].peer.value.key in honest
    ensures var w := After(c, events);
            && j < |w.sessions|
            && var a, b := w.sessions[i], w.sessions[j];
            && c.publicOf(b.secret) == a.peer.value.key
            && !b.initiator && b.peer.Some?
            && Transcript(a.id, a.peer.value.id, a.point, a.peer.value.point)
               == Transcript(b.peer.value.id, b.id, b.peer.value.point, b.point)
            && (a.peer.value.key, Flat(Transcript(a.id, a.peer.value.id, a.point, a.peer.value.point))) in w.signed
            && a.result.Some?
            && (b.state == Completed ==>
                  && b.result.Some?
                  && b.result.value.sharedSecret == a.result.value.sharedSecret
                  && b.result.value.sessionKey == a.result.value.sessionKey)
            && (b.state != Completed ==>
                  Do(c, b, Three(Msg(3, a.id, seq(64, _ => 0), None, Some(a.result.value.s)))).ok)
  {
    var w := After(c, events);
    ReachableWorld(c, honest, events);
    var a := w.sessions[i];
    var x := (a.peer.value.key, Flat(TranscriptOf(a, a.peer.value)));
    assert Backed(honest, a, w.signed);
    assert HasSigner(c, w, x);
    j :| 0 <= j < |w.sessions| && SignerOf(c, w.sessions[j], x);
    var b := w.sessions[j];
    Partner(c, a, b, x);
  }

  lemma Partner(c: Suite, a: Session, b: Session, x: (PublicKey, Bytes))
    requires CurveOk(c.curve) && SessionOk(c, a) && SessionOk(c, b)
    requires a.initiator && a.state == Completed && x == (a.peer.value.key, Flat(TranscriptOf(a, a.peer.value)))
    requires SignerOf(c, b, x)
    ensures Mirrored(a, b) && a.result.Some? && c.publicOf(b.secret) == a.peer.value.key
    ensures b.state == Completed ==>
            && b.result.Some?
            && b.result.value.sharedSecret == a.result.value.sharedSecret
            && b.result.value.sessionKey == a.result.value.sessionKey
    ensures b.state != Completed ==>
            Do(c, b, Three(Msg(3, a.id, seq(64, _ => 0), None, Some(a.result.value.s)))).ok
  {
    FlatInjective(TranscriptOf(a, a.peer.value), TranscriptOf(b, b.peer.value));
    MirroredSameSecrets(c, a, b);
    hide SharedPoint, Encode, Flat, SharedSecret, Confirmation, SessionKey, CurveOk;
  }

  // ---------------------------------------------------------------- an undisturbed exchange

  ghost predicate SignaturesVerify(c: Suite) {
    forall sk: SecretKey, m: Bytes :: c.sign(sk, m).Some? ==> c.verify(c.publicOf(sk), m, c.sign(sk, m).value)
  }

  /** An ephemeral point is valid, and never shares the identity with another. */
  lemma EphemeralValid(c: Curve, a: nat, b: nat)
    requires CurveOk(c) && PrimeOrder(c) && 0 < a < c.order && 0 < b < c.order
    ensures ValidPoint(c, Encode(c, a)) && SharedPoint(c, b, Encode(c, a)).Ok?
  {
    FindEncoded(c, a);
    NonZeroProduct(c, b, a);
  }

  /** The second message of an undisturbed exchange completes the initiator as the responder's
      mirror image. */
  lemma SecondAccepted(c: Suite, a: Session, b: Session, keyA: PublicKey)
    requires CurveOk(c.curve) && PrimeOrder(c.curve) && SignaturesVerify(c)
    requires SessionOk(c, a) && SessionOk(c, b) && a.initiator && !b.initiator && a.state == Init && b.state == Init
    requires c.sign(b.secret, Flat(Transcript(a.id, b.id, a.point, b.point))).Some?
    ensures var first := GenerateMsg1(a);
            && first.Ok?
            && var (b', second) := ProcessMsg1(c, b, first.value, keyA);
            && second.Ok?
            && var (a', third) := ProcessMsg2(c, a, second.value, c.publicOf(b.secret));
            && third.Ok? && third.value.kind == 3 && third.value.confirmation == Some(a'.result.value.s)
            && SessionOk(c, a') && SessionOk(c, b') && a'.state == Completed && b'.state == WaitForConfirmation
            && Mirrored(a', b')
  {
    EphemeralValid(c.curve, a.r, b.r);
    EphemeralValid(c.curve, b.r, a.r);
    CallKeepsInv(c, b, One(GenerateMsg1(a).value, keyA));
    CallKeepsInv(c, a, Two(ProcessMsg1(c, b, GenerateMsg1(a).value, keyA).1.value, c.publicOf(b.secret)));
    hide SharedPoint, ValidPoint, Flat, SharedSecret, Confirmation, ResultFor, CurveOk, PrimeOrder, Inv, Encode;
  }

  /** Delivered in order, the three messages complete both sessions with equal secrets. */
  lemma UndisturbedExchange(c: Suite, a: Session, b: Session, keyA: PublicKey)
    requires CurveOk(c.curve) && PrimeOrder(c.curve) && SignaturesVerify(c)
    requires SessionOk(c, a) && SessionOk(c, b) && a.initiator && !b.initiator && a.state == Init && b.state == Init
    requires c.sign(b.secret, Flat(Transcript(a.id, b.id, a.point, b.point))).Some?
    ensures var first := GenerateMsg1(a);
            && first.Ok?
            && var (b', second) := ProcessMsg1(c, b, first.value, keyA);
            && second.Ok?
            && var (a', third) := ProcessMsg2(c, a, second.value, c.publicOf(b.secret));
            && third.Ok?
            && var (b'', done) := ProcessMsg3(c, b', third.value);
            && done.Ok? && a'.state == Completed && b''.state == Completed
            && a'.result.Some? && b''.result.Some?
            && a'.result.value.sharedSecret == b''.result.value.sharedSecret
            && a'.result.value.sessionKey == b''.result.value.sessionKey
  {
    SecondAccepted(c, a, b, keyA);
    var (b', second) := ProcessMsg1(c, b, GenerateMsg1(a).value, keyA);
    var (a', third) := ProcessMsg2(c, a, second.value, c.publicOf(b.secret));
    ThirdAccepted(c, a', b', third.value);
    hide ProcessMsg1, ProcessMsg2, ProcessMsg3, Inv, CurveOk, PrimeOrder, SignaturesVerify;
  }

  lemma ThirdAccepted(c: Suite, a: Session, b: Session, third: Msg)
    requires CurveOk(c.curve) && SessionOk(c, a) && SessionOk(c, b) && Mirrored(a, b)
    requires a.state == Completed && b.state == WaitForConfirmation
    requires third.kind == 3 && third.confirmation == Some(a.result.value.s)
    ensures var (b', done) := ProcessMsg3(c, b, third);
            && done.Ok? && b'.state == Completed && b'.result.Some?
            && a.result.value.sharedSecret == b'.result.value.sharedSecret
            && a.result.value.sessionKey == b'.result.value.sessionKey
  {
    MirroredSameSecrets(c, a, b);
    CallKeepsInv(c, b, Three(third));
    hide SharedPoint, Encode, Flat, SharedSecret, Confirmation, SessionKey, CurveOk;
  }
}
