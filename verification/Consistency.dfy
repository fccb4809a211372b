/** The assumptions of the other modules can be met: a small group, a small curve, a signature
    scheme, and honest runs of both protocols as runs over the arbitrary network. */
module Consistency {
  import opened Bytes
  import opened Kdf
  import Sm9Group
  import Sm9KeyExchange
  import Sm9Sign
  import opened Sm2Curve
  import opened Sm2Kex
  import Runs = Sm2KexRuns
  import Tls = GmTls
  import Honest = GmTlsHonest
  import TlsRuns = GmTlsAgreement
  import GmTlsHello
  import Tail = GmTlsTail
  import Finished = GmTlsFinished

  // ---------------------------------------------------------------- SM9

  function Coordinate(k: nat): (r: Bytes)
    ensures |r| == 32 && r[0] == k % 256
  {
    seq(32, _ => k % 256)
  }

  /** Five elements, with any identity hash. */
  function FiveGroup(h1: (Bytes, byte) -> nat): (g: Sm9Group.Group) {
    Sm9Group.Group(5, (k: nat) => (Coordinate(k), Coordinate(0)),
                   (p: Sm9Group.G1) => if p.Affine? && p.x != [] then p.x[0] else 0,
                   (k: nat) => [k % 256],
                   (k: nat) => if k == 2 then 3 else if k == 3 then 2 else k,
                   h1, (m: Bytes, w: Bytes) => 0)
  }

  lemma GroupLaws(h1: (Bytes, byte) -> nat)
    ensures Sm9Group.GroupOk(FiveGroup(h1))
  {
    var g := FiveGroup(h1);
    forall k: nat | Sm9Group.Exponent(g, k)
      ensures Sm9Group.Log(g, Sm9Group.Point(g, k)) == k && (k > 0 ==> k * g.inv(k) % g.order == 1)
    {
      hide Coordinate;
      assert g.coords(k).0 == Coordinate(k) && Coordinate(k)[0] == k;
      assert k == 0 || k == 1 || k == 2 || k == 3 || k == 4;
    }
  }

  /** The group laws hold there and keys can be extracted. */
  lemma GroupLawsConsistent()
    ensures var g := FiveGroup((id: Bytes, hid: byte) => 0);
            && Sm9Group.GroupOk(g) && Sm9KeyExchange.Setup(g, 1, [], [])
            && Sm9Sign.ExtractSignKey(g, 1, []).Some?
  {
    var h1 := (id: Bytes, hid: byte) => 0;
    var g := FiveGroup(h1);
    GroupLaws(h1);
    assert Sm9Group.Hash1(g, [], 3) == 1 && Sm9Group.Hash1(g, [], 1) == 1;
    assert Sm9Group.ReduceOnce(5, 1, 1) == 2;
  }

  /** An identity hash that tells hids apart: with keys extracted under hid 2, as in the documented
      example, no pair of ephemerals brings the two sides together. */
  lemma EncryptionKeysDisagree(idA: Bytes, idB: Bytes, rA: nat, rB: nat)
    requires 0 < rA < 5 && 0 < rB < 5
    ensures var g := FiveGroup((id: Bytes, hid: byte) => hid);
            var ppub := Sm9Group.MasterPublic(g, 1);
            var keyA, keyB := Sm9Group.ExtractEncKey(g, 1, idA, 2), Sm9Group.ExtractEncKey(g, 1, idB, 2);
            && keyA.Some? && keyB.Some?
            && var ra := Sm9Group.ScalarMul(g, Sm9Group.IdentityPoint(g, idB, 3, ppub), rA);
            var rb := Sm9Group.ScalarMul(g, Sm9Group.IdentityPoint(g, idA, 3, ppub), rB);
            Sm9KeyExchange.ResponderSecrets(g, ppub, keyB.value.de, ra, rB)
            != Sm9KeyExchange.InitiatorSecrets(g, keyA.value, rb, rA)
  {
    var h1 := (id: Bytes, hid: byte) => hid;
    var g := FiveGroup(h1);
    GroupLaws(h1);
    assert Sm9Group.Hash1(g, idA, 2) == 3 && Sm9Group.Hash1(g, idB, 2) == 3 && Sm9Group.Hash1(g, idB, 3) == 4;
    assert Sm9Group.ReduceOnce(5, 1, 3) == 4;
    hide Sm9Group.GroupOk, Sm9Group.Times, Sm9Group.Pair, Sm9Group.IdentityPoint, Sm9Group.ScalarMul;
    Sm9KeyExchange.OtherHidAgreesExactly(g, 1, idA, idB, 2, rA, rB);
  }

  /** Agreement of the hashes for B alone is not enough: here only A's identity hashes differently
      under the two hids, g1 agrees and the secrets do not. */
  lemma BothIdentitiesCount(idA: Bytes, idB: Bytes, rA: nat, rB: nat)
    requires 0 < rA < 5 && 0 < rB < 5 && idA != idB
    ensures var g := FiveGroup((id: Bytes, hid: byte) => if id == idA && hid == 3 then 1 else 2);
            var ppub := Sm9Group.MasterPublic(g, 1);
            var keyA, keyB := Sm9Group.ExtractEncKey(g, 1, idA, 2), Sm9Group.ExtractEncKey(g, 1, idB, 2);
            && keyA.Some? && keyB.Some?
            && var ra := Sm9Group.ScalarMul(g, Sm9Group.IdentityPoint(g, idB, 3, ppub), rA);
            var rb := Sm9Group.ScalarMul(g, Sm9Group.IdentityPoint(g, idA, 3, ppub), rB);
            var r := Sm9KeyExchange.ResponderSecrets(g, ppub, keyB.value.de, ra, rB);
            var i := Sm9KeyExchange.InitiatorSecrets(g, keyA.value, rb, rA);
            r.g1 == i.g1 && r != i
  {
    var h1 := (id: Bytes, hid: byte) => if id == idA && hid == 3 then 1 else 2;
    var g := FiveGroup(h1);
    GroupLaws(h1);
    assert Sm9Group.Hash1(g, idA, 2) == 3 && Sm9Group.Hash1(g, idA, 3) == 2;
    assert Sm9Group.Hash1(g, idB, 2) == 3 && Sm9Group.Hash1(g, idB, 3) == 3;
    assert Sm9Group.ReduceOnce(5, 1, 3) == 4;
    hide Sm9Group.GroupOk, Sm9Group.Times, Sm9Group.Pair, Sm9Group.IdentityPoint, Sm9Group.ScalarMul;
    Sm9KeyExchange.OtherHidAgreesExactly(g, 1, idA, idB, 2, rA, rB);
    Sm9Group.PairAcrossHids(g, 1, idB, 3, 2, rA);
  }

  // ---------------------------------------------------------------- SM2

  /** Five elements. */
  function FiveCurve(): (c: Curve) {
    Curve(5, (k: nat) => (Coordinate(k), Coordinate(0)), (x: Bytes, y: Bytes) => if x != [] then Some(x[0]) else None)
  }

  lemma CurveLawsConsistent()
    ensures CurveOk(FiveCurve()) && PrimeOrder(FiveCurve())
  {
    var c := FiveCurve();
    forall k: nat | Multiple(c, k) ensures c.find(X(c, k), Y(c, k)) == Some(k) {
      assert c.coords(k).0 == Coordinate(k);
    }
    forall a: nat, b: nat | Multiple(c, a) && Multiple(c, b) ensures Times(c, a, b) != 0 {
      assert 0 < a < 5 && 0 < b < 5;
      assert a == 1 || a == 2 || a == 3 || a == 4;
      assert b == 1 || b == 2 || b == 3 || b == 4;
    }
  }

  lemma KexStep(c: Suite, honest: set<PublicKey>, events: seq<Runs.Event>, e: Runs.Event)
    requires c.curve.order > 1
    ensures Runs.After(c, events + [e]) == Runs.Step(c, Runs.After(c, events), e)
    ensures Runs.Legal(c, honest, events + [e]) <==>
            Runs.Legal(c, honest, events) && Runs.Unforged(c, honest, Runs.After(c, events), e)
  {
    var all := events + [e];
    assert all[..|all| - 1] == events && all[|all| - 1] == e;
    hide Runs.Step, Runs.Unforged;
  }

  /** Two sessions that speak to each other undisturbed are a legal run in which the initiator
      completes against an honest key. */
  lemma KexRunExists(c: Suite, skA: SecretKey, skB: SecretKey, idA: Bytes, idB: Bytes, rA: nat, rB: nat)
    returns (events: seq<Runs.Event>)
    requires CurveOk(c.curve) && PrimeOrder(c.curve) && Runs.SignaturesVerify(c)
    requires 1 <= |idA| <= 16 && 1 <= |idB| <= 16 && 0 < rA < c.curve.order && 0 < rB < c.curve.order
    requires forall m: Bytes :: c.sign(skB, m).Some?
    ensures Runs.Legal(c, {c.publicOf(skB)}, events)
    ensures var w := Runs.After(c, events);
            && |w.sessions| == 2 && w.sessions[0].initiator && w.sessions[0].state == Completed
            && w.sessions[0].peer.Some? && w.sessions[0].peer.value.key == c.publicOf(skB)
  {
    var honest := {c.publicOf(skB)};
    var a := NewSession(c, skA, idA, rA, true).value;
    var b := NewSession(c, skB, idB, rB, false).value;
    var keyA, keyB := c.publicOf(skA), c.publicOf(skB);
    Runs.SecondAccepted(c, a, b, keyA);
    var first := GenerateMsg1(a).value;
    var (b', second) := ProcessMsg1(c, b, first, keyA);
    var (a', third) := ProcessMsg2(c, a, second.value, keyB);

    var e1, e2 := Runs.Open(skA, idA, rA, true), Runs.Open(skB, idB, rB, false);
    KexStep(c, honest, [], e1);
    KexStep(c, honest, [] + [e1], e2);
    var setup := [] + [e1] + [e2];
    var w := Runs.After(c, setup);
    assert w == Runs.World([a, b], {});
    OpenedRun(c, honest, setup, a, b, first, second.value, keyA, keyB);
    events := setup + [Runs.Deliver(1, Runs.One(first, keyA))] + [Runs.Deliver(0, Runs.Two(second.value, keyB))];
  }

  lemma OpenedRun(c: Suite, honest: set<PublicKey>, setup: seq<Runs.Event>, a: Session, b: Session, first: Msg,
                  second: Msg, keyA: PublicKey, keyB: PublicKey)
    requires c.curve.order > 1 && Runs.Legal(c, honest, setup) && Runs.After(c, setup) == Runs.World([a, b], {})
    requires a.initiator && !b.initiator && keyB == c.publicOf(b.secret)
    requires first.sender == a.id && first.point == a.point
    requires var (b', m2) := ProcessMsg1(c, b, first, keyA); m2 == Ok(second)
    requires var (a', m3) := ProcessMsg2(c, a, second, keyB); m3.Ok? && a'.state == Completed
    ensures var events := setup + [Runs.Deliver(1, Runs.One(first, keyA))] + [Runs.Deliver(0, Runs.Two(second, keyB))];
            && Runs.Legal(c, honest, events)
            && Runs.After(c, events).sessions == [ProcessMsg2(c, a, second, keyB).0, ProcessMsg1(c, b, first, keyA).0]
  {
    var (b', m2) := ProcessMsg1(c, b, first, keyA);
    var e3, e4 := Runs.Deliver(1, Runs.One(first, keyA)), Runs.Deliver(0, Runs.Two(second, keyB));
    KexStep(c, honest, setup, e3);
    KexStep(c, honest, setup + [e3], e4);
    hide Flat, ValidPoint, SharedPoint, ResultFor;
    var w := Runs.After(c, setup + [e3]);
    assert w.sessions == [a, b'];
    assert w.signed == {Runs.SignedBy(c, b')};
    assert TranscriptOf(a, Peer(second.sender, second.point, keyB)) == TranscriptOf(b', b'.peer.value);
    assert Runs.Unforged(c, honest, w, e4);
    assert [a, b'][0 := ProcessMsg2(c, a, second, keyB).0] == [ProcessMsg2(c, a, second, keyB).0, b'];
  }

  // ---------------------------------------------------------------- GM/TLS

  /** The only record that needs a signer is the CertificateVerify, and the server made it. */
  lemma HonestUnforged(u: Honest.Setup, honest: set<Bytes>, p: nat, record: Bytes)
    requires u.tls.curve.order > 1 && Honest.Honest(u) && p < 4
    ensures var w := TlsRuns.World([Honest.ClientAt(u, p)], [Honest.ServerAt(u, 1)]);
            TlsRuns.Unforged(u.tls, honest, w, TlsRuns.ToClient(0, record))
  {
    hide Honest.FlightOf, Honest.Agreed;
    var w := TlsRuns.World([Honest.ClientAt(u, p)], [Honest.ServerAt(u, 1)]);
    if p == 2 {
      assert TlsRuns.SignedBy(u.tls, w.servers[0], u.tls.keyOfChain(u.server.chain).value, w.clients[0].t);
      assert TlsRuns.HasSigner(u.tls, w, u.tls.keyOfChain(u.server.chain).value, w.clients[0].t);
    }
  }

  lemma {:induction false} ClientReadsOn(u: Honest.Setup, honest: set<Bytes>, events: seq<TlsRuns.Event>, p: nat)
    returns (more: seq<TlsRuns.Event>)
    requires u.tls.curve.order > 1 && Honest.Honest(u) && p <= 4
    requires TlsRuns.Legal(u.tls, honest, events)
    requires TlsRuns.After(u.tls, events) == TlsRuns.World([Honest.ClientAt(u, p)], [Honest.ServerAt(u, 1)])
    ensures TlsRuns.Legal(u.tls, honest, more)
    ensures TlsRuns.After(u.tls, more) == TlsRuns.World([Honest.ClientAt(u, 4)], [Honest.ServerAt(u, 1)])
    decreases 4 - p
  {
    hide Honest.Honest, Honest.ClientAt, Honest.ServerAt, Honest.FirstFlight, Honest.LastFlight, Tls.ClientReceive,
      TlsRuns.Unforged, TlsRuns.After, TlsRuns.Legal;
    if p == 4 {
      more := events;
    } else {
      var c, c', s := Honest.ClientAt(u, p), Honest.ClientAt(u, p + 1), Honest.ServerAt(u, 1);
      var record := Honest.FirstFlight(u)[p];
      assert Tls.ClientReceive(u.tls, c, record).client == c' by { Honest.ClientFollows(u, p); }
      HonestUnforged(u, honest, p, record);
      TlsRuns.AfterOne(u.tls, honest, events, TlsRuns.ToClient(0, record));
      assert [c][0 := c'] == [c'];
      more := ClientReadsOn(u, honest, events + [TlsRuns.ToClient(0, record)], p + 1);
    }
  }

  /** An honest client and server are a legal run in which the client completes with the
      certificate of an honest key. */
  lemma TlsRunExists(u: Honest.Setup) returns (events: seq<TlsRuns.Event>)
    requires u.tls.curve.order > 1 && Honest.Honest(u)
    ensures TlsRuns.Legal(u.tls, {u.tls.publicOf(u.server.key.value)}, events)
    ensures var w := TlsRuns.After(u.tls, events);
            && |w.clients| == 1 && w.clients[0].ClientDone?
            && u.tls.keyOfChain(w.clients[0].chain) == Some(u.tls.publicOf(u.server.key.value))
  {
    hide Honest.Honest, Honest.ClientAt, Honest.ServerAt, Tls.ClientStart, Tls.ServerReceive,
      Tls.ClientReceive, TlsRuns.After,
      TlsRuns.Legal, TlsRuns.Unforged;
    HonestStart(u);
    var honest := {u.tls.publicOf(u.server.key.value)};
    var start := TlsRuns.OpenedBoth(u.tls, honest, u.client, u.ck, u.server, u.sk);
    var e3 := TlsRuns.ToServer(0, Honest.FlightOf(u).ch);
    TlsRuns.AfterOne(u.tls, honest, start, e3);
    assert TlsRuns.Unforged(u.tls, honest, TlsRuns.After(u.tls, start), e3);
    events := ClientReadsOn(u, honest, start + [e3], 0);
  }

  lemma HonestStart(u: Honest.Setup)
    requires u.tls.curve.order > 1 && Honest.Honest(u)
    ensures 0 < u.ck < u.tls.curve.order && 0 < u.sk < u.tls.curve.order && u.server.chain != [] && u.server.key.Some?
    ensures u.tls.keyOfChain(u.server.chain) == Some(u.tls.publicOf(u.server.key.value))
    ensures Tls.ClientStart(u.tls, u.client, u.ck).client == Honest.ClientAt(u, 0)
    ensures Honest.ClientAt(u, 4).ClientDone? && Honest.ClientAt(u, 4).chain == u.server.chain
    ensures var ch := Honest.FlightOf(u).ch;
            && Tls.ServerReceive(u.tls, Tls.ServerStart(u.server, u.sk), ch).server == Honest.ServerAt(u, 1)
            && forall honest, w :: TlsRuns.Unforged(u.tls, honest, w, TlsRuns.ToServer(0, ch))
  {
    hide Honest.Agreed, Tls.OnClientHello, Tls.HelloHash, Tls.Extend, CurveOk, PrimeOrder;
    Honest.StartsOnLine(u);
    Honest.ServerAnswers(u);
  }

  function PlainCodec(): (c: Tls.Codec<Bytes>) {
    Tls.Codec((b: Bytes) => Some(b), (b: Bytes) => Some(b))
  }

  /** Hellos in the source's two layouts, with a block that is a one-byte key share and everything
      else. */
  predicate Writable(h: Tls.Hello) { |h.share| == 1 && |h.rest| < 0xFFFF }

  function ClientFields(h: Tls.Hello): (f: GmTlsHello.HelloFields) {
    GmTlsHello.HelloFields(Zeros(2), Zeros(32), [], [], [], h.share + h.rest)
  }

  function ServerFields(h: Tls.Hello): (f: GmTlsHello.ServerFields) {
    GmTlsHello.ServerFields(Zeros(2), Zeros(32), [], 0, 0, h.share + h.rest)
  }

  function WriteHello(h: Tls.Hello): (r: Option<Bytes>) {
    if Writable(h) then Some(GmTlsHello.HelloBytes(ClientFields(h))) else None
  }

  function WriteServerHello(h: Tls.Hello): (r: Option<Bytes>) {
    if Writable(h) then Some(GmTlsHello.ServerHelloBytes(ServerFields(h))) else None
  }

  function Interpret(head: Bytes, exts: Option<Bytes>): (h: Option<Tls.Hello>) {
    if exts.None? || exts.value == [] then None else Some(Tls.Hello(exts.value[..1], exts.value[1..]))
  }

  function HelloCodec(): (c: Tls.Codec<Tls.Hello>) {
    Tls.Codec(WriteHello, (b: Bytes) => GmTlsHello.ReadHello(Interpret, b))
  }

  function ServerHelloCodec(): (c: Tls.Codec<Tls.Hello>) {
    Tls.Codec(WriteServerHello, (b: Bytes) => GmTlsHello.ReadServerHello(Interpret, b))
  }

  lemma InterpretsBlock(head: Bytes, h: Tls.Hello)
    requires Writable(h)
    ensures Interpret(head, Some(h.share + h.rest)) == Some(h)
  {
    assert (h.share + h.rest)[..1] == h.share && (h.share + h.rest)[1..] == h.rest;
  }

  lemma HelloReadsBack(h: Tls.Hello)
    requires Writable(h)
    ensures Honest.Encodes(HelloCodec(), h) && GmTlsHello.WrittenHello(WriteHello(h).value)
    ensures var b := WriteHello(h).value;
            GmTlsHello.Used(b) == |b| && GmTlsHello.FrameOf(b).Some? && GmTlsHello.FrameOf(b).value.extensions.Some?
  {
    hide GmTlsHello.HelloBytes, GmTlsHello.FrameOf, Interpret;
    GmTlsHello.EncodedIsWhole(ClientFields(h));
    InterpretsBlock(GmTlsHello.FrameOf(WriteHello(h).value).value.head, h);
  }

  lemma ServerHelloReadsBack(h: Tls.Hello)
    requires Writable(h)
    ensures Honest.Encodes(ServerHelloCodec(), h) && GmTlsHello.WrittenServerHello(WriteServerHello(h).value)
    ensures var f := GmTlsHello.ServerFrameOf(WriteServerHello(h).value);
            f.Some? && f.value.extensions.Some?
  {
    hide GmTlsHello.ServerHelloBytes, GmTlsHello.ServerFrameOf, Interpret;
    GmTlsHello.ServerEncodedIsWhole(ServerFields(h));
    InterpretsBlock(GmTlsHello.ServerFrameOf(WriteServerHello(h).value).value.head, h);
  }

  /** Public keys and key shares are their scalars; a signature names its key and what it signs. */
  function SmallTls(sm3: Sm3, hmac: Hmac): (tls: Tls.Tls) {
    Tls.Tls(sm3, hmac, FiveCurve(), (k: nat) => [k % 256],
            (pk: Bytes) => if pk == [] then None else Some(pk[0]),
            (k: nat, m: Bytes) => Some([k % 256] + m), (pk: Bytes, m: Bytes, sig: Bytes) => sig == pk + m,
            (chain: Bytes) => Some([1]),
            HelloCodec(), ServerHelloCodec(), PlainCodec(), PlainCodec(), PlainCodec())
  }

  function SmallSetup(sm3: Sm3, hmac: Hmac, clientChain: Bytes, requireAuth: bool): (u: Honest.Setup) {
    Honest.Setup(SmallTls(sm3, hmac), Tls.ClientConfig([], clientChain, true, (c: Bytes) => true), 2,
                 Tls.ServerConfig([1], Some(1), requireAuth, true, (c: Bytes) => true, (r: Bytes) => r), 3)
  }

  /** The honest setting exists, with and without client certificate and requirement. */
  lemma HonestSettingExists(sm3: Sm3, hmac: Hmac, clientChain: Bytes, requireAuth: bool)
    ensures Honest.Honest(SmallSetup(sm3, hmac, clientChain, requireAuth))
  {
    CurveLawsConsistent();
    hide CurveOk, PrimeOrder, Honest.FlightOf, WriteHello, WriteServerHello, GmTlsHello.ReadHello,
      GmTlsHello.ReadServerHello;
    HelloReadsBack(Tls.Hello([2], []));
    ServerHelloReadsBack(Tls.Hello([3], []));
  }

  lemma SmallClientLayout(sm3: Sm3, hmac: Hmac)
    ensures TlsRuns.CodecOk(HelloCodec()) && TlsRuns.SourceLayout(SmallTls(sm3, hmac), Interpret)
  {
    hide GmTlsHello.HelloBytes, GmTlsHello.ReadHello, GmTlsHello.WrittenHello;
    forall h: Tls.Hello | Writable(h)
      ensures Honest.Encodes(HelloCodec(), h) && GmTlsHello.WrittenHello(WriteHello(h).value)
    {
      HelloReadsBack(h);
    }
  }

  lemma SmallServerLayout(sm3: Sm3, hmac: Hmac)
    ensures TlsRuns.CodecOk(ServerHelloCodec()) && TlsRuns.SourceServerLayout(SmallTls(sm3, hmac), Interpret)
  {
    hide GmTlsHello.ServerHelloBytes, GmTlsHello.ReadServerHello, GmTlsHello.WrittenServerHello;
    forall h: Tls.Hello | Writable(h)
      ensures Honest.Encodes(ServerHelloCodec(), h) && GmTlsHello.WrittenServerHello(WriteServerHello(h).value)
    {
      ServerHelloReadsBack(h);
    }
  }

  /** Every law that agreement asks of a suite holds there, with the source's two hello layouts. */
  lemma SmallTlsLaws(sm3: Sm3, hmac: Hmac)
    ensures var tls := SmallTls(sm3, hmac);
            && TlsRuns.SharesOk(tls) && TlsRuns.CodecOk(tls.clientHello) && TlsRuns.CodecOk(tls.serverHello)
            && TlsRuns.CodecOk(tls.certificate) && TlsRuns.SourceLayout(tls, Interpret)
            && TlsRuns.SourceServerLayout(tls, Interpret)
  {
    hide HelloCodec, ServerHelloCodec, TlsRuns.SourceLayout, TlsRuns.SourceServerLayout;
    SmallClientLayout(sm3, hmac);
    SmallServerLayout(sm3, hmac);
  }

  // ---------------------------------------------------------------- a ClientHello with bytes left over

  lemma TailIgnored(h: Tls.Hello, more: Bytes)
    requires Writable(h)
    ensures HelloCodec().decode(WriteHello(h).value + more) == Some(h)
    ensures GmTlsHello.Used(WriteHello(h).value + more) == |WriteHello(h).value|
  {
    HelloReadsBack(h);
    hide WriteHello, GmTlsHello.FrameOf;
    GmTlsHello.FrameKept(WriteHello(h).value, WriteHello(h).value + more);
  }

  lemma ServerTailIgnored(h: Tls.Hello, more: Bytes)
    requires Writable(h)
    ensures ServerHelloCodec().decode(WriteServerHello(h).value + more) == Some(h)
  {
    ServerHelloReadsBack(h);
    hide WriteServerHello, GmTlsHello.ServerFrameOf;
    GmTlsHello.ServerFrameKept(WriteServerHello(h).value, WriteServerHello(h).value + more);
  }

  function SecretsAt(tls: Tls.Tls, k: nat): (s: Tls.Secrets)
  { Tls.SecretsOf(tls.hmac, X(tls.curve, k), Y(tls.curve, k)) }

  /** Certificate key 1, client scalar 2, server scalar 3, and a hello with share 4 between them. */
  function SmallTailed(sm3: Sm3, hmac: Hmac, ch: Bytes, more: Bytes, sh: Bytes): (u: Tail.Tailed) {
    var tls := SmallTls(sm3, hmac);
    var t2 := Tls.Extend(tls, Tls.HelloHash(tls, ch, more + sh), [1]);
    Tail.Tailed(tls, Tls.ClientConfig([], [], true, (c: Bytes) => true), 2,
           Tls.ServerConfig([1], Some(1), false, true, (c: Bytes) => true, (r: Bytes) => r), 3, 1,
           ch, more, sh, [1], [1] + t2, [4] + Tls.Extend(tls, t2, [1] + t2), Tls.Hello([2], []), [4],
           SecretsAt(tls, 3), SecretsAt(tls, 1))
  }

  lemma SmallShared(sm3: Sm3, hmac: Hmac)
    ensures var tls := SmallTls(sm3, hmac);
            Tls.Shared(tls, 3, [2]) == Ok(SecretsAt(tls, 1)) && Tls.Shared(tls, 2, [4]) == Ok(SecretsAt(tls, 3))
  {
    hide Tls.SecretsOf;
  }

  lemma SmallReadable(sm3: Sm3, hmac: Hmac, ch: Bytes, more: Bytes, sh: Bytes)
    requires WriteHello(Tls.Hello([2], [])) == Some(ch) && WriteServerHello(Tls.Hello([3], [])) == Some(sh)
    requires WriteServerHello(Tls.Hello([4], [])) == Some(more)
    ensures Tail.Readable(SmallTailed(sm3, hmac, ch, more, sh))
  {
    hide WriteHello, WriteServerHello, GmTlsHello.ReadHello, GmTlsHello.ReadServerHello, SecretsAt, Tls.Shared,
      Tls.HelloHash, Tls.Extend;
    TailIgnored(Tls.Hello([2], []), more);
    ServerTailIgnored(Tls.Hello([4], []), sh);
    SmallShared(sm3, hmac);
  }

  lemma SmallHellos() returns (ch: Bytes, more: Bytes, sh: Bytes)
    ensures WriteHello(Tls.Hello([2], [])) == Some(ch) && WriteServerHello(Tls.Hello([3], [])) == Some(sh)
    ensures WriteServerHello(Tls.Hello([4], [])) == Some(more) && more != []
  {
    hide GmTlsHello.HelloBytes, GmTlsHello.ServerHelloBytes;
    ch, more, sh := WriteHello(Tls.Hello([2], [])).value, WriteServerHello(Tls.Hello([4], [])).value,
    WriteServerHello(Tls.Hello([3], [])).value;
    ServerHelloReadsBack(Tls.Hello([4], []));
    assert GmTlsHello.ServerFrameOf([]).None?;
  }

  /** All laws of the agreement theorem, and its premises on a run. */
  ghost predicate Premises(tls: Tls.Tls, used: Bytes -> nat, honest: set<Bytes>, events: seq<TlsRuns.Event>)
    requires tls.curve.order > 1
  {
    && TlsRuns.SharesOk(tls) && TlsRuns.CodecOk(tls.clientHello) && TlsRuns.CodecOk(tls.serverHello)
    && TlsRuns.CodecOk(tls.certificate) && TlsRuns.SelfDelimiting(tls, used)
    && TlsRuns.Legal(tls, honest, events) && TlsRuns.CollisionFree(tls, TlsRuns.After(tls, events))
  }

  /** Without the condition of the agreement theorem its conclusion fails: under all its premises,
      with the source's two hello layouts, the client completes with the certificate of an honest
      key while the server that signed its view was given a ClientHello with bytes left over. The
      two hold different ServerHellos with different key shares. */
  lemma TailedHelloRun(sm3: Sm3, hmac: Hmac) returns (events: seq<TlsRuns.Event>)
    ensures var tls := SmallTls(sm3, hmac);
            && Premises(tls, GmTlsHello.Used, {tls.publicOf(1)}, events)
            && TlsRuns.SourceLayout(tls, Interpret) && TlsRuns.SourceServerLayout(tls, Interpret)
    ensures var w := TlsRuns.After(SmallTls(sm3, hmac), events);
            && |w.clients| == 1 && |w.servers| == 1 && w.clients[0].ClientDone? && w.servers[0].answer.Some?
            && var c, s, a := w.clients[0], w.servers[0], w.servers[0].answer.value;
            && s.config.key == Some(1) && s.config.chain == c.chain
            && SmallTls(sm3, hmac).keyOfChain(c.chain) == Some(SmallTls(sm3, hmac).publicOf(1))
            && GmTlsHello.Used(a.ch) < |a.ch| && a.ch != c.ch && a.sh != c.sh
            && c.share != SmallTls(sm3, hmac).publicOf(s.sk)
  {
    var tls := SmallTls(sm3, hmac);
    var ch, more, sh := SmallHellos();
    var u := SmallTailed(sm3, hmac, ch, more, sh);
    assert u.tls == tls && u.key == 1 && u.ch == ch && u.more == more && u.share == [4] && tls.publicOf(u.sk) == [3];
    hide SmallTailed, SmallTls, WriteHello, WriteServerHello, Tail.Readable, Tail.Follower, Tail.Host,
      TlsRuns.After, TlsRuns.Legal,
      TlsRuns.CollisionFree, TlsRuns.SharesOk, TlsRuns.CodecOk, TlsRuns.SelfDelimiting, TlsRuns.SourceLayout,
      TlsRuns.SourceServerLayout, GmTlsHello.Used;
    SmallReadable(sm3, hmac, ch, more, sh);
    SmallTlsLaws(sm3, hmac);
    TlsRuns.SourceSelfDelimiting(tls, Interpret);
    events := Tail.TailedRun(u, {tls.publicOf(1)});
    TailIgnored(Tls.Hello([2], []), more);
    Tail.TailedApart(u, GmTlsHello.Used, events);
  }

  // ---------------------------------------------------------------- a server on its own

  /** With every non-empty client chain there is such a run without any client. */
  lemma SmallServerDoneAlone(sm3: Sm3, hmac: Hmac, chain: Bytes) returns (events: seq<TlsRuns.Event>)
    requires chain != []
    ensures var tls := SmallTls(sm3, hmac);
            TlsRuns.Legal(tls, {tls.publicOf(1)}, events) && Finished.FinishedLegal(tls, {}, events)
    ensures var w := TlsRuns.After(SmallTls(sm3, hmac), events);
            && w.clients == [] && |w.servers| == 1 && w.servers[0].config.requireAuth
            && w.servers[0].stage.ServerDone?
  {
    var u := SmallSetup(sm3, hmac, chain, true);
    HonestSettingExists(sm3, hmac, chain, true);
    hide Honest.Honest, TlsRuns.Legal, TlsRuns.After, Finished.FinishedLegal;
    events := Finished.ServerDoneAlone(u, {u.tls.publicOf(1)});
  }
}
