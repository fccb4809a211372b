/** A client and a server joined by two queues, over every schedule of deliveries. */
module GmTlsHonest {
  import opened Bytes
  import opened Kdf
  import opened Sm2Curve
  import opened GmTls
  import opened GmTlsDriver

  datatype System = System(client: Client, server: Server, toServer: seq<Bytes>, toClient: seq<Bytes>)

  datatype Delivery = ToServer | ToClient

  predicate Enabled(y: System, d: Delivery) {
    match d
    case ToServer => y.toServer != [] && !ServerStopped(y.server)
    case ToClient => y.toClient != [] && !ClientStopped(y.client)
  }

  /** Hand the head of a queue to a party that still reads. */
  function Deliver(tls: Tls, y: System, d: Delivery): (y': System)
    requires tls.curve.order > 1
  {
    if !Enabled(y, d) then y
    else match d
      case ToServer =>
        var step := ServerReceive(tls, y.server, y.toServer[0]);
        y.(server := step.server, toServer := y.toServer[1..], toClient := y.toClient + step.sent)
      case ToClient =>
        var step := ClientReceive(tls, y.client, y.toClient[0]);
        y.(client := step.client, toClient := y.toClient[1..], toServer := y.toServer + step.sent)
  }

  function Run(tls: Tls, y: System, schedule: seq<Delivery>): (y': System)
    requires tls.curve.order > 1
    decreases |schedule|
  {
    if schedule == [] then y else Run(tls, Deliver(tls, y, schedule[0]), schedule[1..])
  }

  /** The parties of one exchange, with their ephemeral scalars. */
  datatype Setup = Setup(tls: Tls, client: ClientConfig, ck: nat, server: ServerConfig, sk: nat)

  function Start(u: Setup): (y: System) {
    var c := ClientStart(u.tls, u.client, u.ck);
    System(c.client, ServerStart(u.server, u.sk), c.sent, [])
  }

  /** Neither party can take another step. */
  predicate Quiescent(y: System) {
    !Enabled(y, ToServer) && !Enabled(y, ToClient)
  }

  // ---------------------------------------------------------------- laws of an honest setting

  predicate Encodes<T(==)>(codec: Codec<T>, x: T) {
    codec.encode(x).Some? && codec.decode(codec.encode(x).value) == Some(x)
  }

  predicate Signs(tls: Tls, key: nat, data: Bytes) {
    tls.sign(key, data).Some? && tls.verify(tls.publicOf(key), data, tls.sign(key, data).value)
  }

  /** The messages of the exchange, in order. */
  datatype Flight = Flight(ch: Bytes, sh: Bytes, cert: Bytes, cv: Bytes, fin: Bytes, t1: Bytes, t2: Bytes, t3: Bytes)

  function ValueOr(x: Option<Bytes>): (r: Bytes) { if x.Some? then x.value else [] }

  function FlightOf(u: Setup): (f: Flight) {
    var ch := ValueOr(u.tls.clientHello.encode(Hello(u.tls.publicOf(u.ck), u.client.hello)));
    var sh := ValueOr(u.tls.serverHello.encode(Hello(u.tls.publicOf(u.sk), u.server.rest(u.client.hello))));
    var cert := ValueOr(u.tls.certificate.encode(u.server.chain));
    var t1 := HelloHash(u.tls, ch, sh);
    var t2 := Extend(u.tls, t1, cert);
    var key := if u.server.key.Some? then u.server.key.value else 0;
    var cv := ValueOr(u.tls.certificateVerify.encode(ValueOr(u.tls.sign(key, t2))));
    var t3 := Extend(u.tls, t2, cv);
    Flight(ch, sh, cert, cv, ValueOr(u.tls.finished.encode(ValueOr(u.tls.sign(u.sk, t3)))), t1, t2, t3)
  }

  function ClientFin(tls: Tls, ck: nat, t: Bytes): (r: Bytes) {
    ValueOr(tls.finished.encode(ValueOr(tls.sign(ck, t))))
  }

  /** Encoders and signers work on the values of this exchange, keys match certificates, each side
      trusts the other's chain, and the ephemeral scalars are in range. */
  ghost predicate Honest(u: Setup) {
    var f := FlightOf(u);
    && CurveOk(u.tls.curve) && PrimeOrder(u.tls.curve)
    && 0 < u.ck < u.tls.curve.order && 0 < u.sk < u.tls.curve.order
    && u.tls.pointOf(u.tls.publicOf(u.ck)) == Some(u.ck) && u.tls.pointOf(u.tls.publicOf(u.sk)) == Some(u.sk)
    && Encodes(u.tls.clientHello, Hello(u.tls.publicOf(u.ck), u.client.hello))
    && Encodes(u.tls.serverHello, Hello(u.tls.publicOf(u.sk), u.server.rest(u.client.hello)))
    && Encodes(u.tls.certificate, u.server.chain)
    && (u.client.chain != [] ==> Encodes(u.tls.certificate, u.client.chain))
    && u.server.chain != [] && ChainAccepted(u.client.checks, u.client.trusts, u.server.chain)
    && u.server.key.Some? && u.tls.keyOfChain(u.server.chain) == Some(u.tls.publicOf(u.server.key.value))
    && Signs(u.tls, u.server.key.value, f.t2) && Signs(u.tls, u.sk, f.t3) && Signs(u.tls, u.ck, f.t3)
    && Encodes(u.tls.certificateVerify, u.tls.sign(u.server.key.value, f.t2).value)
    && Encodes(u.tls.finished, u.tls.sign(u.sk, f.t3).value)
    && Encodes(u.tls.finished, u.tls.sign(u.ck, f.t3).value)
    && (u.server.requireAuth && u.client.chain != [] ==> u.server.checks && u.server.trusts(u.client.chain))
  }

  // ---------------------------------------------------------------- the line of states

  /** The secrets both sides reach. */
  function Agreed(tls: Tls, ck: nat, sk: nat): (s: Secrets)
    requires tls.curve.order > 1
  {
    var k := Times(tls.curve, ck, sk);
    SecretsOf(tls.hmac, X(tls.curve, k), Y(tls.curve, k))
  }

  lemma BothShare(u: Setup)
    requires u.tls.curve.order > 1 && Honest(u)
    ensures Shared(u.tls, u.ck, u.tls.publicOf(u.sk)) == Ok(Agreed(u.tls, u.ck, u.sk))
    ensures Shared(u.tls, u.sk, u.tls.publicOf(u.ck)) == Ok(Agreed(u.tls, u.ck, u.sk))
  {
    NonZeroProduct(u.tls.curve, u.ck, u.sk);
    TimesSymmetric(u.tls.curve, u.ck, u.sk);
  }

  /** The server after p of the client's records. */
  function ServerAt(u: Setup, p: nat): (s: Server)
    requires u.tls.curve.order > 1
  {
    var f := FlightOf(u);
    if p == 0 then ServerStart(u.server, u.sk)
    else
      Server(u.server, u.sk,
             if !u.server.requireAuth then ServerDone
             else if p == 1 then AwaitClientCert
             else if p == 2 then AwaitClientFinished
             else ServerDone,
             Some(Answer(f.ch, Hello(u.tls.publicOf(u.ck), u.client.hello), f.sh, f.cert, f.t2,
                         Agreed(u.tls, u.ck, u.sk))), f.t3,
             if u.server.requireAuth && p >= 2 then Some(u.client.chain) else None)
  }

  /** The client after p of the server's records. */
  function ClientAt(u: Setup, p: nat): (c: Client)
    requires u.tls.curve.order > 1
  {
    var f := FlightOf(u);
    var share, secrets := u.tls.publicOf(u.sk), Agreed(u.tls, u.ck, u.sk);
    if p == 0 then AwaitHello(u.client, u.ck, f.ch)
    else if p == 1 then AwaitCertificate(u.client, u.ck, f.ch, f.sh, share, f.t1)
    else if p == 2 then AwaitVerify(u.client, u.ck, f.ch, f.sh, share, f.t2, f.cert, u.server.chain)
    else if p == 3 then AwaitFinished(u.client, u.ck, f.ch, f.sh, share, f.t3, f.cert, u.server.chain, secrets)
    else ClientDone(u.client, u.ck, f.ch, f.sh, share, f.t3, f.cert, u.server.chain, secrets)
  }

  /** What the server sends in answer to the hello. */
  function FirstFlight(u: Setup): (r: seq<Bytes>)
    ensures |r| == 4
  {
    var f := FlightOf(u);
    [f.sh, f.cert, f.cv, f.fin]
  }

  /** What the client sends at the end. */
  function LastFlight(u: Setup): (r: seq<Bytes>)
    ensures |r| == if u.client.chain == [] then 0 else 2
  {
    var f := FlightOf(u);
    if u.client.chain == [] then []
    else [ValueOr(u.tls.certificate.encode(u.client.chain)), ClientFin(u.tls, u.ck, f.t3)]
  }

  /** The p-th state of the exchange. */
  function Line(u: Setup, p: nat): (y: System)
    requires u.tls.curve.order > 1
  {
    var f := FlightOf(u);
    if p == 0 then System(ClientAt(u, 0), ServerAt(u, 0), [f.ch], [])
    else if p <= 4 then
      System(ClientAt(u, p - 1), ServerAt(u, 1), [],
             FirstFlight(u)[p - 1..])
    else
      var last := LastFlight(u);
      var read := if p - 5 <= |last| then p - 5 else |last|;
      System(ClientAt(u, 4), ServerAt(u, read + 1), last[read..], [])
  }

  lemma StartsOnLine(u: Setup)
    requires u.tls.curve.order > 1 && Honest(u)
    ensures Start(u) == Line(u, 0)
  {
  }

  lemma ServerAnswers(u: Setup)
    requires u.tls.curve.order > 1 && Honest(u)
    ensures var f := FlightOf(u);
            OnClientHello(u.tls, ServerStart(u.server, u.sk), f.ch)
            == ServerStep(ServerAt(u, 1), FirstFlight(u))
  {
    hide Shared, Agreed, CurveOk, PrimeOrder, Digest, HelloHash, Extend;
    BothShare(u);
  }

  lemma ClientFollows(u: Setup, p: nat)
    requires u.tls.curve.order > 1 && Honest(u) && p < 4
    ensures var f := FlightOf(u);
            ClientReceive(u.tls, ClientAt(u, p), FirstFlight(u)[p])
            == ClientStep(ClientAt(u, p + 1),
                          if p == 3 then LastFlight(u) else [])
  {
    hide Shared, Agreed, CurveOk, PrimeOrder, Digest, HelloHash, Extend;
    BothShare(u);
  }

  lemma ServerFollows(u: Setup, p: nat)
    requires u.tls.curve.order > 1 && Honest(u) && u.server.requireAuth && u.client.chain != [] && p < 2
    ensures ServerReceive(u.tls, ServerAt(u, p + 1), LastFlight(u)[p])
            == ServerStep(ServerAt(u, p + 2), [])
  {
    hide Shared, Agreed, CurveOk, PrimeOrder, Digest;
  }

  /** Where the exchange can go no further: after the client's last read when the server reads no
      more, after the server's two reads otherwise. */
  function LastState(client: ClientConfig, server: ServerConfig): (p: nat) {
    if server.requireAuth && client.chain != [] then 7 else 5
  }

  /** Every delivery from a state of the line stays there or moves one further; it stays only when
      that party has nothing to read, and both stay only in the last state. */
  lemma DeliveryOnLine(u: Setup, p: nat, d: Delivery)
    requires u.tls.curve.order > 1 && Honest(u) && p <= LastState(u.client, u.server)
    ensures var y := Line(u, p);
            && (p < LastState(u.client, u.server) <==> !Quiescent(y))
            && Deliver(u.tls, y, d) == (if Enabled(y, d) then Line(u, p + 1) else y)
  {
    hide Honest, Line, Deliver, Quiescent, Enabled;
    if p == 0 {
      FirstDelivery(u, d);
    } else if p <= 4 {
      ClientDelivery(u, p, d);
    } else {
      LastDelivery(u, p, d);
    }
  }

  lemma HeadTail(s: seq<Bytes>, k: nat)
    requires k < |s|
    ensures s[k..] != [] && s[k..][0] == s[k] && s[k..][1..] == s[k + 1..]
  {
  }

  lemma WhoReads(u: Setup, p: nat)
    requires u.tls.curve.order > 1
    ensures ClientStopped(ClientAt(u, p)) <==> p >= 4
    ensures ServerStopped(ServerAt(u, p)) <==> p > 0 && (p >= 3 || !u.server.requireAuth)
  {
    hide FlightOf, Agreed;
  }

  lemma FirstDelivery(u: Setup, d: Delivery)
    requires u.tls.curve.order > 1 && Honest(u)
    ensures var y := Line(u, 0); !Quiescent(y) && Deliver(u.tls, y, d) == (if Enabled(y, d) then Line(u, 1) else y)
  {
    hide ClientReceive, OnClientHello, FlightOf, Agreed, ServerStopped, ClientAt, FirstFlight, Honest;
    ServerAnswers(u);
    WhoReads(u, 0);
    assert [] + FirstFlight(u) == FirstFlight(u)[0..];
  }

  lemma ClientDelivery(u: Setup, p: nat, d: Delivery)
    requires u.tls.curve.order > 1 && Honest(u) && 1 <= p <= 4
    ensures var y := Line(u, p); !Quiescent(y) && Deliver(u.tls, y, d) == (if Enabled(y, d) then Line(u, p + 1) else y)
  {
    hide ServerReceive, ClientReceive, OnClientHello, FlightOf, Agreed, Honest, LastFlight, FirstFlight,
      ServerAt, ClientAt, ClientStopped, ServerStopped;
    ClientFollows(u, p - 1);
    WhoReads(u, p - 1);
    HeadTail(FirstFlight(u), p - 1);
    assert [] + LastFlight(u) == LastFlight(u)[0..];
    if p == 4 { assert FirstFlight(u)[4..] == []; }
  }

  lemma LastDelivery(u: Setup, p: nat, d: Delivery)
    requires u.tls.curve.order > 1 && Honest(u) && 5 <= p <= LastState(u.client, u.server)
    ensures var y := Line(u, p);
            && (p < LastState(u.client, u.server) <==> !Quiescent(y))
            && Deliver(u.tls, y, d) == (if Enabled(y, d) then Line(u, p + 1) else y)
  {
    hide ServerReceive, ClientReceive, OnClientHello, FlightOf, Agreed, Honest, LastFlight, FirstFlight,
      ServerAt, ClientAt, ClientStopped, ServerStopped;
    var last := LastFlight(u);
    WhoReads(u, 4);
    WhoReads(u, p - 4);
    if p < LastState(u.client, u.server) {
      ServerFollows(u, p - 5);
      HeadTail(last, p - 5);
    }
  }

  // ---------------------------------------------------------------- every schedule

  /** Whatever the schedule, the system is in some state of the line. */
  lemma {:induction false} RunOnLine(u: Setup, p: nat,
                                     schedule: seq<Delivery>) returns (q: nat)
    requires u.tls.curve.order > 1 && Honest(u) && p <= LastState(u.client, u.server)
    ensures p <= q <= LastState(u.client, u.server)
    ensures Run(u.tls, Line(u, p), schedule) == Line(u, q)
    decreases |schedule|
  {
    hide Line, Honest, Deliver, LastState, Quiescent, Enabled;
    if schedule == [] {
      q := p;
    } else {
      DeliveryOnLine(u, p, schedule[0]);
      var y := Line(u, p);
      if Enabled(y, schedule[0]) {
        EnabledNotQuiescent(y, schedule[0]);
        q := RunOnLine(u, p + 1, schedule[1..]);
      } else {
        q := RunOnLine(u, p, schedule[1..]);
      }
    }
  }

  lemma EnabledNotQuiescent(y: System, d: Delivery)
    requires Enabled(y, d)
    ensures !Quiescent(y)
  {
  }

  /** Both sides are done and no handshake record is unread. */
  predicate Clean(y: System) {
    y.client.ClientDone? && y.server.stage.ServerDone? && y.toServer == [] && y.toClient == []
  }

  /** Both sides hold one transcript hash and each writes with the secret the other reads with. */
  predicate Joined(y: System) {
    && y.client.ClientDone? && y.server.answer.Some?
    && y.client.t == y.server.t
    && var c, s := ClientChannel(y.client.secrets), ServerChannel(y.server.answer.value.secrets);
    c.writeSecret == s.readSecret && c.readSecret == s.writeSecret && y.client.secrets == y.server.answer.value.secrets
  }

  /** Once nothing more can be delivered, on any schedule, the two sides are joined; and they are
      done with no record unread exactly when the client has a certificate iff one is required. */
  lemma HandshakeCompletes(u: Setup, schedule: seq<Delivery>)
    requires u.tls.curve.order > 1 && Honest(u)
    requires Quiescent(Run(u.tls, Start(u), schedule))
    ensures var y := Run(u.tls, Start(u), schedule);
            && Joined(y)
            && (Clean(y) <==> (u.client.chain != [] <==> u.server.requireAuth))
  {
    hide Deliver, Honest, Run, Line, Start, Quiescent, Joined, Clean;
    StartsOnLine(u);
    var q := RunOnLine(u, 0, schedule);
    DeliveryOnLine(u, q, ToServer);
    LastIsJoined(u);
  }

  lemma LastIsJoined(u: Setup)
    requires u.tls.curve.order > 1
    ensures var y := Line(u, LastState(u.client, u.server));
            Joined(y) && (Clean(y) <==> (u.client.chain != [] <==> u.server.requireAuth))
  {
    hide FlightOf, Agreed;
  }

  /** How many times over a schedule has had a delivery to each side; `seen` is what the round
      under way has had so far. */
  function RoundsIn(schedule: seq<Delivery>, seen: Option<Delivery>): (n: nat)
    decreases |schedule|
  {
    if schedule == [] then 0
    else if seen.None? then RoundsIn(schedule[1..], Some(schedule[0]))
    else if schedule[0] == seen.value then RoundsIn(schedule[1..], seen)
    else 1 + RoundsIn(schedule[1..], None)
  }

  /** What the round under way has had so far counts for at most one round. */
  lemma {:induction false} RoundUnderWay(schedule: seq<Delivery>, d: Delivery)
    ensures RoundsIn(schedule, None) <= RoundsIn(schedule, Some(d)) <= RoundsIn(schedule, None) + 1
    decreases |schedule|
  {
    if schedule != [] && schedule[0] != d {
      RoundUnderWay(schedule[1..], schedule[0]);
    }
  }

  /** Every full round moves on along the line until its end. */
  lemma {:induction false} RoundsReach(u: Setup, p: nat, schedule: seq<Delivery>, seen: Option<Delivery>)
    requires u.tls.curve.order > 1 && Honest(u) && p <= LastState(u.client, u.server)
    requires seen.Some? ==> !Enabled(Line(u, p), seen.value)
    requires p + RoundsIn(schedule, seen) >= LastState(u.client, u.server)
    ensures Run(u.tls, Line(u, p), schedule) == Line(u, LastState(u.client, u.server))
    decreases |schedule|
  {
    hide Line, Honest, Deliver, LastState, Enabled;
    if p == LastState(u.client, u.server) {
      var q := RunOnLine(u, p, schedule);
    } else {
      var d, rest := schedule[0], schedule[1..];
      DeliveryOnLine(u, p, d);
      if Enabled(Line(u, p), d) {
        RoundUnderWay(rest, d);
        if seen.Some? { RoundUnderWay(rest, seen.value); }
        RoundsReach(u, p + 1, rest, None);
      } else {
        RoundsReach(u, p, rest, Some(d));
      }
    }
  }

  /** So the exchange comes to rest on every schedule that delivers to each side often enough,
      in whatever order. */
  lemma HandshakeTerminates(u: Setup, schedule: seq<Delivery>)
    requires u.tls.curve.order > 1 && Honest(u)
    requires RoundsIn(schedule, None) >= LastState(u.client, u.server)
    ensures Quiescent(Run(u.tls, Start(u), schedule))
  {
    hide Deliver, Honest, Run, Line, Start, Quiescent, RoundsIn;
    StartsOnLine(u);
    RoundsReach(u, 0, schedule, None);
    DeliveryOnLine(u, LastState(u.client, u.server), ToServer);
  }

  // ---------------------------------------------------------------- the sequential code

  lemma ClientReadsOne(tls: Tls, c: Client, c': Client, inbox: seq<Bytes>)
    requires tls.curve.order > 1 && !ClientStopped(c) && inbox != []
    requires ClientReceive(tls, c, inbox[0]) == ClientStep(c', [])
    ensures RunClient(tls, c, inbox) == RunClient(tls, c', inbox[1..])
  {
    hide ClientReceive;
    var rest := RunClient(tls, c', inbox[1..]);
    assert [] + rest.sent == rest.sent;
  }

  lemma ClientReadsLast(tls: Tls, c: Client, c': Client, sent: seq<Bytes>, inbox: seq<Bytes>)
    requires tls.curve.order > 1 && !ClientStopped(c) && ClientStopped(c') && |inbox| == 1
    requires ClientReceive(tls, c, inbox[0]) == ClientStep(c', sent)
    ensures RunClient(tls, c, inbox) == ClientRun(c', sent, [])
  {
    hide ClientReceive;
    assert sent + [] == sent;
    assert RunClient(tls, c', inbox[1..]) == ClientRun(c', [], []);
  }

  lemma {:induction false} ClientReadsFlight(u: Setup, p: nat)
    requires u.tls.curve.order > 1 && Honest(u) && p < 4
    ensures RunClient(u.tls, ClientAt(u, p), FirstFlight(u)[p..]) == ClientRun(ClientAt(u, 4), LastFlight(u), [])
    decreases 4 - p
  {
    hide Honest, ClientAt, FirstFlight, LastFlight, ClientReceive, ClientStopped, RunClient;
    var first, last, c, c' := FirstFlight(u), LastFlight(u), ClientAt(u, p), ClientAt(u, p + 1);
    assert !ClientStopped(c) && (ClientStopped(c') <==> p == 3) by { WhoReads(u, p); WhoReads(u, p + 1); }
    HeadTail(first, p);
    assert ClientReceive(u.tls, c, first[p]) == ClientStep(c', if p == 3 then last else []) by { ClientFollows(u, p); }
    if p < 3 {
      ClientReadsOne(u.tls, c, c', first[p..]);
      ClientReadsFlight(u, p + 1);
    } else {
      ClientReadsLast(u.tls, c, c', last, first[p..]);
    }
  }

  /** A record that is answered with nothing. */
  lemma ServerReadsOne(tls: Tls, s: Server, s': Server, inbox: seq<Bytes>)
    requires tls.curve.order > 1 && !ServerStopped(s) && inbox != []
    requires ServerReceive(tls, s, inbox[0]) == ServerStep(s', [])
    ensures RunServer(tls, s, inbox) == RunServer(tls, s', inbox[1..])
  {
    hide ServerReceive;
    var rest := RunServer(tls, s', inbox[1..]);
    assert [] + rest.sent == rest.sent;
  }

  lemma ServerReadsTwo(tls: Tls, s1: Server, s2: Server, s3: Server, inbox: seq<Bytes>)
    requires tls.curve.order > 1 && |inbox| == 2
    requires !ServerStopped(s1) && !ServerStopped(s2) && ServerStopped(s3)
    requires ServerReceive(tls, s1, inbox[0]) == ServerStep(s2, [])
    requires ServerReceive(tls, s2, inbox[1]) == ServerStep(s3, [])
    ensures RunServer(tls, s1, inbox) == ServerRun(s3, [], [])
  {
    hide ServerReceive, RunServer;
    ServerReadsOne(tls, s1, s2, inbox);
    HeadTail(inbox, 1);
    ServerReadsOne(tls, s2, s3, inbox[1..]);
    StoppedRuns(tls, s3, inbox[2..]);
  }

  lemma ServerReadsRest(u: Setup)
    requires u.tls.curve.order > 1 && Honest(u) && u.server.requireAuth && u.client.chain != []
    ensures RunServer(u.tls, ServerAt(u, 1), LastFlight(u)) == ServerRun(ServerAt(u, 3), [], [])
  {
    hide Honest, ServerAt, LastFlight, ServerReceive, ServerStopped, RunServer, FlightOf;
    var tls, s1, s2, s3, last := u.tls, ServerAt(u, 1), ServerAt(u, 2), ServerAt(u, 3), LastFlight(u);
    assert !ServerStopped(s1) && !ServerStopped(s2) && ServerStopped(s3) by {
      WhoReads(u, 1);
      WhoReads(u, 2);
      WhoReads(u, 3);
    }
    assert ServerReceive(tls, s1, last[0]) == ServerStep(s2, []) by { ServerFollows(u, 0); }
    assert ServerReceive(tls, s2, last[1]) == ServerStep(s3, []) by { ServerFollows(u, 1); }
    ServerReadsTwo(tls, s1, s2, s3, last);
  }

  lemma ServerReadsAll(u: Setup)
    requires u.tls.curve.order > 1 && Honest(u)
    ensures var rest := RunServer(u.tls, ServerAt(u, 1), LastFlight(u));
            RunServer(u.tls, ServerStart(u.server, u.sk), [FlightOf(u).ch] + LastFlight(u))
            == ServerRun(rest.server, FirstFlight(u) + rest.sent, rest.unread)
  {
    hide Honest, FlightOf, FirstFlight, LastFlight, OnClientHello, ServerAt;
    var inbox := [FlightOf(u).ch] + LastFlight(u);
    assert inbox[0] == FlightOf(u).ch && inbox[1..] == LastFlight(u);
    ServerAnswers(u);
    HelloReads(u.tls, ServerStart(u.server, u.sk), inbox);
  }

  /** Connect and Accept fit together: reading what the other sends, each sends what the other
      reads. The client always completes; the server completes with nothing unread exactly when
      the client has a certificate iff one is required. */
  lemma ConnectMeetsAccept(u: Setup)
    requires u.tls.curve.order > 1 && Honest(u)
    ensures var start := ClientStart(u.tls, u.client, u.ck);
            var run := RunServer(u.tls, ServerStart(u.server, u.sk), start.sent + LastFlight(u));
            && RunClient(u.tls, start.client, run.sent) == ClientRun(ClientAt(u, 4), LastFlight(u), [])
            && ClientAt(u, 4).ClientDone?
            && run.sent == FirstFlight(u)
            && (Accepted(run).Ok? && run.unread == [] <==> (u.client.chain != [] <==> u.server.requireAuth))
  {
    hide Honest, FirstFlight, LastFlight, RunClient, RunServer, ClientStopped, ServerStopped, FlightOf, Agreed;
    StartsOnLine(u);
    ClientReadsFlight(u, 0);
    ServerReadsAll(u);
    WhoReads(u, 1);
    assert FirstFlight(u)[0..] == FirstFlight(u) && FirstFlight(u) + [] == FirstFlight(u);
    if !u.server.requireAuth {
      StoppedRuns(u.tls, ServerAt(u, 1), LastFlight(u));
    } else if u.client.chain == [] {
      EmptyServer(u.tls, ServerAt(u, 1));
    } else {
      ServerReadsRest(u);
    }
  }
}
