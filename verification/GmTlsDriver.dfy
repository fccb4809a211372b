/** The sequential code of connect_gm_rust_inner and accept_gm_rust_inner_with_cert, reading and
    writing handshake records on a stream, proved equal to running the step machines over the
    records that arrive. */
module GmTlsDriver {
  import opened Bytes
  import opened GmTls
  import Sm2Curve

  /** A stream of handshake records; `None` is a failed read. */
  class Wire {
    var inbox: seq<Bytes>
    var outbox: seq<Bytes>

    constructor (records: seq<Bytes>)
      ensures inbox == records && outbox == []
    {
      inbox, outbox := records, [];
    }

    method Read() returns (record: Option<Bytes>)
      modifies this`inbox
      ensures old(inbox) == [] ==> record == None && inbox == []
      ensures old(inbox) != [] ==> record == Some(old(inbox)[0]) && inbox == old(inbox)[1..]
    {
      if inbox == [] {
        return None;
      }
      record, inbox := Some(inbox[0]), inbox[1..];
    }

    method Write(record: Bytes)
      modifies this`outbox
      ensures outbox == old(outbox) + [record]
    {
      outbox := outbox + [record];
    }
  }

  /** The other side's point times one's own scalar, through the key schedule. */
  method ComputeShared(tls: Tls, sk: nat, share: PublicKey) returns (r: Result<Secrets>)
    requires tls.curve.order > 1
    ensures r == Shared(tls, sk, share)
  {
    var p := tls.pointOf(share);
    if p.None? {
      return Err;
    }
    r := DeriveSessionKeys(tls, Sm2Curve.Times(tls.curve, sk, p.value));
  }

  // ---------------------------------------------------------------- client

  /** Where a client ends on a sequence of records: its state, what it sent and what it left unread. */
  datatype ClientRun = ClientRun(client: Client, sent: seq<Bytes>, unread: seq<Bytes>)

  function RunClient(tls: Tls, c: Client, inbox: seq<Bytes>): (r: ClientRun)
    requires tls.curve.order > 1
    decreases |inbox|
  {
    if ClientStopped(c) || inbox == [] then ClientRun(c, [], inbox)
    else
      var step := ClientReceive(tls, c, inbox[0]);
      var rest := RunClient(tls, step.client, inbox[1..]);
      ClientRun(rest.client, step.sent + rest.sent, rest.unread)
  }

  /** Each read hands one record to the machine. */
  lemma ClientReads(tls: Tls, c: Client, inbox: seq<Bytes>)
    requires tls.curve.order > 1 && !ClientStopped(c) && inbox != [] && !c.AwaitFinished?
    ensures RunClient(tls, c, inbox) == RunClient(tls, ClientReceive(tls, c, inbox[0]).client, inbox[1..])
  {
    hide OnServerHello, OnCertificate, OnVerify;
    var rest := RunClient(tls, ClientReceive(tls, c, inbox[0]).client, inbox[1..]);
    assert [] + rest.sent == rest.sent;
  }

  /** What a client checked of a chain it still has on every later record. */
  lemma {:induction false} ClientRunTrusts(tls: Tls, c: Client, inbox: seq<Bytes>)
    requires tls.curve.order > 1 && ClientTrusts(c)
    ensures var end := RunClient(tls, c, inbox).client;
            ClientTrusts(end) && (end.ClientDone? ==> !c.ClientFailed? && end.config == c.config)
    decreases |inbox|
  {
    if !ClientStopped(c) && inbox != [] {
      ClientTrustKept(tls, c, inbox[0]);
      ClientKeepsConfig(tls, c, inbox[0]);
      hide ClientReceive, ClientTrusts;
      ClientRunTrusts(tls, ClientReceive(tls, c, inbox[0]).client, inbox[1..]);
    }
  }

  lemma ClientKeepsConfig(tls: Tls, c: Client, record: Bytes)
    requires tls.curve.order > 1 && !c.ClientFailed?
    ensures var c' := ClientReceive(tls, c, record).client; c'.ClientFailed? || c'.config == c.config
  {
    hide Shared, Extend, HelloHash, ChainAccepted;
  }

  method Connect(tls: Tls, config: ClientConfig, sk: nat, wire: Wire) returns (r: Result<Client>)
    requires tls.curve.order > 1
    modifies wire
    ensures var start := ClientStart(tls, config, sk);
            var run := RunClient(tls, start.client, old(wire.inbox));
            && r == (if run.client.ClientDone? then Ok(run.client) else Err)
            && wire.outbox == old(wire.outbox) + start.sent + run.sent
            && wire.inbox == run.unread
    ensures r.Ok? && config.checks ==> r.value.ClientDone? && r.value.chain != [] && config.trusts(r.value.chain)
  {
    hide Shared, Extend, HelloHash, ChainAccepted;
    ClientRunTrusts(tls, ClientStart(tls, config, sk).client, wire.inbox);
    var encoded := tls.clientHello.encode(Hello(tls.publicOf(sk), config.hello));
    if encoded.None? {
      return Err;
    }
    var ch := encoded.value;
    wire.Write(ch);
    ghost var inbox := wire.inbox;

    var shRecord := wire.Read();
    if shRecord.None? {
      return Err;
    }
    ClientReads(tls, AwaitHello(config, sk, ch), inbox);
    var sh := tls.serverHello.decode(shRecord.value);
    if sh.None? {
      return Err;
    }
    var transcript := HelloHash(tls, ch, shRecord.value);
    var c1 := AwaitCertificate(config, sk, ch, shRecord.value, sh.value.share, transcript);

    r := ReadCertificate(tls, c1, wire);
  }

  /** From the server's Certificate on. */
  method ReadCertificate(tls: Tls, c: Client, wire: Wire) returns (r: Result<Client>)
    requires tls.curve.order > 1 && c.AwaitCertificate?
    modifies wire
    ensures var run := RunClient(tls, c, old(wire.inbox));
            && r == (if run.client.ClientDone? then Ok(run.client) else Err)
            && wire.outbox == old(wire.outbox) + run.sent
            && wire.inbox == run.unread
  {
    hide Shared, Extend, HelloHash, OnFinished;
    ghost var inbox := wire.inbox;
    var certRecord := wire.Read();
    if certRecord.None? {
      return Err;
    }
    ClientReads(tls, c, inbox);
    var cert := tls.certificate.decode(certRecord.value);
    if cert.None? {
      return Err;
    }
    var transcript := Extend(tls, c.t, certRecord.value);
    if c.config.checks {
      if cert.value == [] || !c.config.trusts(cert.value) {
        return Err;
      }
    }
    var c2 := AwaitVerify(c.config, c.sk, c.ch, c.sh, c.share, transcript, certRecord.value, cert.value);
    inbox := wire.inbox;
    var cvRecord := wire.Read();
    if cvRecord.None? {
      return Err;
    }
    ClientReads(tls, c2, inbox);
    var cv := tls.certificateVerify.decode(cvRecord.value);
    if cv.None? {
      return Err;
    }
    var key := tls.keyOfChain(cert.value);
    if key.None? || !tls.verify(key.value, transcript, cv.value) {
      return Err;
    }
    var secrets := ComputeShared(tls, c.sk, c.share);
    if secrets.Err? {
      return Err;
    }
    transcript := Extend(tls, transcript, cvRecord.value);
    r := ReadFinished(tls, AwaitFinished(c.config, c.sk, c.ch, c.sh, c.share, transcript, certRecord.value, cert.value,
                                         secrets.value), wire);
  }

  lemma FinishedReads(tls: Tls, c: Client, inbox: seq<Bytes>)
    requires tls.curve.order > 1 && c.AwaitFinished? && inbox != []
    ensures var step := OnFinished(tls, c, inbox[0]);
            RunClient(tls, c, inbox) == ClientRun(step.client, step.sent, inbox[1..])
  {
    var step := OnFinished(tls, c, inbox[0]);
    assert step.sent + [] == step.sent;
  }

  method ReadFinished(tls: Tls, c: Client, wire: Wire) returns (r: Result<Client>)
    requires tls.curve.order > 1 && c.AwaitFinished?
    modifies wire
    ensures var run := RunClient(tls, c, old(wire.inbox));
            && r == (if run.client.ClientDone? then Ok(run.client) else Err)
            && wire.outbox == old(wire.outbox) + run.sent
            && wire.inbox == run.unread
  {
    ghost var inbox, outbox := wire.inbox, wire.outbox;
    var finRecord := wire.Read();
    if finRecord.None? {
      return Err;
    }
    FinishedReads(tls, c, inbox);
    hide RunClient;
    var fin := tls.finished.decode(finRecord.value);
    if fin.None? || !tls.verify(c.share, c.t, fin.value) {
      return Err;
    }
    if c.config.chain != [] {
      var cert := tls.certificate.encode(c.config.chain);
      if cert.None? {
        return Err;
      }
      wire.Write(cert.value);
      var own := tls.sign(c.sk, c.t);
      if own.None? {
        return Err;
      }
      var ownFinished := tls.finished.encode(own.value);
      if ownFinished.None? {
        return Err;
      }
      wire.Write(ownFinished.value);
    }
    r := Ok(ClientDone(c.config, c.sk, c.ch, c.sh, c.share, c.t, c.cert, c.chain, c.secrets));
  }

  // ---------------------------------------------------------------- server

  datatype ServerRun = ServerRun(server: Server, sent: seq<Bytes>, unread: seq<Bytes>)

  function RunServer(tls: Tls, s: Server, inbox: seq<Bytes>): (r: ServerRun)
    requires tls.curve.order > 1
    decreases |inbox|
  {
    if ServerStopped(s) || inbox == [] then ServerRun(s, [], inbox)
    else
      var step := ServerReceive(tls, s, inbox[0]);
      var rest := RunServer(tls, step.server, inbox[1..]);
      ServerRun(rest.server, step.sent + rest.sent, rest.unread)
  }

  /** The outcome that the caller of accept sees. */
  function Accepted(run: ServerRun): (r: Result<Server>) {
    if run.server.stage.ServerDone? then Ok(run.server) else Err
  }

  lemma HelloReads(tls: Tls, s: Server, inbox: seq<Bytes>)
    requires tls.curve.order > 1 && s.stage.AwaitClientHello? && inbox != []
    ensures var step := OnClientHello(tls, s, inbox[0]);
            var rest := RunServer(tls, step.server, inbox[1..]);
            RunServer(tls, s, inbox) == ServerRun(rest.server, step.sent + rest.sent, rest.unread)
  {
    hide OnClientHello;
  }

  lemma StoppedRuns(tls: Tls, s: Server, inbox: seq<Bytes>)
    requires tls.curve.order > 1 && ServerStopped(s)
    ensures RunServer(tls, s, inbox) == ServerRun(s, [], inbox)
  {
  }

  lemma EmptyServer(tls: Tls, s: Server)
    requires tls.curve.order > 1
    ensures RunServer(tls, s, []) == ServerRun(s, [], [])
  {
  }

  lemma {:induction false} ServerRunTrusts(tls: Tls, s: Server, inbox: seq<Bytes>)
    requires tls.curve.order > 1 && ServerTrusts(s)
    ensures var end := RunServer(tls, s, inbox).server; ServerTrusts(end) && end.config == s.config
    decreases |inbox|
  {
    if !ServerStopped(s) && inbox != [] {
      ServerTrustKept(tls, s, inbox[0]);
      ServerKeepsConfig(tls, s, inbox[0]);
      hide ServerReceive, ServerTrusts;
      ServerRunTrusts(tls, ServerReceive(tls, s, inbox[0]).server, inbox[1..]);
    }
  }

  lemma ServerKeepsConfig(tls: Tls, s: Server, record: Bytes)
    requires tls.curve.order > 1
    ensures ServerReceive(tls, s, record).server.config == s.config
  {
    hide Shared, Extend, HelloHash;
  }

  method Accept(tls: Tls, config: ServerConfig, sk: nat, wire: Wire) returns (r: Result<Server>)
    requires tls.curve.order > 1
    modifies wire
    ensures var run := RunServer(tls, ServerStart(config, sk), old(wire.inbox));
            && r == Accepted(run)
            && wire.outbox == old(wire.outbox) + run.sent
            && wire.inbox == run.unread
    ensures r.Ok? && config.requireAuth ==>
            && r.value.client.Some? && r.value.client.value != []
            && config.checks && config.trusts(r.value.client.value)
  {
    hide OnClientHello, RunServer;
    var s := ServerStart(config, sk);
    ServerRunTrusts(tls, s, wire.inbox);
    EmptyServer(tls, s);
    ghost var inbox, outbox := wire.inbox, wire.outbox;
    var chRecord := wire.Read();
    if chRecord.None? {
      return Err;
    }
    HelloReads(tls, s, inbox);
    ghost var step := OnClientHello(tls, s, chRecord.value);
    var answered := AnswerHello(tls, s, chRecord.value, wire);
    if ServerStopped(answered) { StoppedRuns(tls, answered, wire.inbox); }
    if answered.stage.ServerFailed? {
      return Err;
    }
    if answered.stage.ServerDone? {
      return Ok(answered);
    }
    r := ReadClientAuth(tls, answered, wire);
  }

  /** The server's whole first flight; it stops early where the source returns an error. */
  method AnswerHello(tls: Tls, s: Server, record: Bytes, wire: Wire) returns (s': Server)
    requires tls.curve.order > 1 && s.stage.AwaitClientHello?
    modifies wire`outbox
    ensures var step := OnClientHello(tls, s, record); s' == step.server && wire.outbox == old(wire.outbox) + step.sent
    ensures s'.stage.ServerFailed? || s'.stage.ServerDone? || (s'.stage.AwaitClientCert? && s'.answer.Some?)
  {
    hide Shared, Extend, HelloHash;
    s' := s.(stage := ServerFailed);
    var hello := tls.clientHello.decode(record);
    if hello.None? {
      return;
    }
    var secrets := ComputeShared(tls, s.sk, hello.value.share);
    if secrets.Err? {
      return;
    }
    var sh := tls.serverHello.encode(Hello(tls.publicOf(s.sk), s.config.rest(hello.value.rest)));
    if sh.None? {
      return;
    }
    wire.Write(sh.value);
    var transcript := HelloHash(tls, record, sh.value);
    var cert: Bytes := [];
    ghost var sent := [sh.value];
    if s.config.chain != [] {
      var encoded := tls.certificate.encode(s.config.chain);
      if encoded.None? {
        return;
      }
      cert := encoded.value;
      wire.Write(cert);
      sent := sent + [cert];
      transcript := Extend(tls, transcript, cert);
    }
    s' := SignFlight(tls, s, Answer(record, hello.value, sh.value, cert, transcript, secrets.value), wire, sent);
  }

  /** CertificateVerify and Finished. */
  method SignFlight(tls: Tls, s: Server, answer: Answer, wire: Wire, ghost sent: seq<Bytes>) returns (s': Server)
    modifies wire`outbox
    ensures var step := Authenticate(tls, s, answer, sent);
            s' == step.server && sent <= step.sent && wire.outbox == old(wire.outbox) + step.sent[|sent|..]
    ensures s'.stage.ServerFailed? || s'.stage.ServerDone? || (s'.stage.AwaitClientCert? && s'.answer.Some?)
  {
    hide Extend;
    s' := s.(stage := ServerFailed);
    if s.config.key.None? {
      return;
    }
    var sig := tls.sign(s.config.key.value, answer.signed);
    if sig.None? {
      return;
    }
    s' := s'.(answer := Some(answer));
    var cv := tls.certificateVerify.encode(sig.value);
    if cv.None? {
      return;
    }
    wire.Write(cv.value);
    var transcript := Extend(tls, answer.signed, cv.value);
    var own := tls.sign(s.sk, transcript);
    if own.None? {
      return;
    }
    var fin := tls.finished.encode(own.value);
    if fin.None? {
      return;
    }
    wire.Write(fin.value);
    s' := s'.(t := transcript, stage := if s.config.requireAuth then AwaitClientCert else ServerDone);
  }

  lemma AuthReads(tls: Tls, s: Server, inbox: seq<Bytes>)
    requires tls.curve.order > 1 && s.stage.AwaitClientCert? && s.answer.Some?
    ensures RunServer(tls, s, inbox) ==
            if inbox == [] then ServerRun(s, [], [])
            else
              var s1 := OnClientCert(tls, s, inbox[0]);
              if s1.stage.ServerFailed? || |inbox| == 1 then ServerRun(s1, [], inbox[1..])
              else ServerRun(OnClientFinished(tls, s1, inbox[1]), [], inbox[2..])
  {
    if inbox != [] {
      var s1 := OnClientCert(tls, s, inbox[0]);
      var rest := inbox[1..];
      if !s1.stage.ServerFailed? && rest != [] {
        StoppedRuns(tls, OnClientFinished(tls, s1, rest[0]), rest[1..]);
      }
    }
  }

  method ReadClientAuth(tls: Tls, s: Server, wire: Wire) returns (r: Result<Server>)
    requires tls.curve.order > 1 && s.stage.AwaitClientCert? && s.answer.Some?
    modifies wire`inbox
    ensures var run := RunServer(tls, s, old(wire.inbox));
            && r == Accepted(run) && run.sent == [] && wire.inbox == run.unread
  {
    AuthReads(tls, s, wire.inbox);
    hide RunServer;
    var certRecord := wire.Read();
    if certRecord.None? {
      return Err;
    }
    var chain := tls.certificate.decode(certRecord.value);
    if chain.None? {
      return Err;
    }
    if chain.value == [] || !s.config.checks {
      return Err;
    }
    if !s.config.trusts(chain.value) {
      return Err;
    }
    var finRecord := wire.Read();
    if finRecord.None? {
      return Err;
    }
    var fin := tls.finished.decode(finRecord.value);
    if fin.None? || !tls.verify(s.answer.value.hello.share, s.t, fin.value) {
      return Err;
    }
    r := Ok(s.(stage := ServerDone, client := Some(chain.value)));
  }

  // ---------------------------------------------------------------- revocation lists

  /** A trust anchor's subject; None when the anchor does not parse. */
  type Anchor = Option<Bytes>

  /** The anchor at k carries the issuer's name and every anchor before it parses. */
  predicate IssuerAt(issuer: Option<Bytes>, anchors: seq<Anchor>, k: nat) {
    k < |anchors| && issuer.Some? && anchors[k] == issuer && None !in anchors[..k]
  }

  /** find_crl_issuer: the first anchor whose subject is the issuer of the list; an anchor that
      does not parse stops the search. */
  method FindCrlIssuer(issuer: Option<Bytes>, anchors: seq<Anchor>) returns (r: Result<nat>)
    ensures r.Ok? <==> exists k: nat :: IssuerAt(issuer, anchors, k)
    ensures r.Ok? ==> IssuerAt(issuer, anchors, r.value) && issuer !in anchors[..r.value]
  {
    if issuer.None? {
      return Err;
    }
    for i := 0 to |anchors|
      invariant issuer !in anchors[..i] && None !in anchors[..i]
    {
      if anchors[i].None? {
        return Err;
      }
      if anchors[i] == issuer {
        assert IssuerAt(issuer, anchors, i);
        return Ok(i);
      }
    }
    r := Err;
  }
}
