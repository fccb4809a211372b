/** When the sequential client and server of a GM/TLS handshake complete, said once for the whole
    handshake in terms of the records, the decoders, the hash, the curve and the signature scheme. */
module GmTlsExact {
  import opened Bytes
  import opened Kdf
  import opened Sm2Curve
  import opened GmTls
  import opened GmTlsDriver

  // ---------------------------------------------------------------- transcripts

  /** SM3 over both hellos, then over that hash and the Certificate. */
  function Second(tls: Tls, ch: Bytes, sh: Bytes, cert: Bytes): (t: Bytes) {
    Digest(tls.sm3, Digest(tls.sm3, ch + sh) + cert)
  }

  /** And over that hash and the CertificateVerify. */
  function Third(tls: Tls, ch: Bytes, sh: Bytes, cert: Bytes, cv: Bytes): (t: Bytes) {
    Digest(tls.sm3, Second(tls, ch, sh, cert) + cv)
  }

  /** The other side's share is a point whose multiple is not the identity. */
  predicate Meets(tls: Tls, sk: nat, share: PublicKey)
    requires tls.curve.order > 1
  {
    tls.pointOf(share).Some? && sk * tls.pointOf(share).value % tls.curve.order != 0
  }

  /** The secrets of that multiple's coordinates. */
  function Met(tls: Tls, sk: nat, share: PublicKey): (s: Secrets)
    requires tls.curve.order > 1 && Meets(tls, sk, share)
  {
    var k := sk * tls.pointOf(share).value % tls.curve.order;
    SecretsOf(tls.hmac, X(tls.curve, k), Y(tls.curve, k))
  }

  predicate Verified(tls: Tls, key: Option<PublicKey>, data: Bytes, sig: Option<Bytes>) {
    key.Some? && sig.Some? && tls.verify(key.value, data, sig.value)
  }

  // ---------------------------------------------------------------- client

  /** The client's last flight can be written. */
  predicate CanAnswer(tls: Tls, config: ClientConfig, sk: nat, t: Bytes) {
    config.chain == [] ||
    (&& tls.certificate.encode(config.chain).Some? && tls.sign(sk, t).Some?
     && tls.finished.encode(tls.sign(sk, t).value).Some?)
  }

  /** A client started with this key share completes on these records. */
  predicate ClientCompletes(tls: Tls, config: ClientConfig, sk: nat, ch: Bytes, sh: Bytes, cert: Bytes, cv: Bytes,
                            fin: Bytes)
    requires tls.curve.order > 1
  {
    var hello, chain := tls.serverHello.decode(sh), tls.certificate.decode(cert);
    && hello.Some? && chain.Some?
    && (config.checks ==> chain.value != [] && config.trusts(chain.value))
    && Verified(tls, tls.keyOfChain(chain.value), Second(tls, ch, sh, cert), tls.certificateVerify.decode(cv))
    && Meets(tls, sk, hello.value.share)
    && Verified(tls, Some(hello.value.share), Third(tls, ch, sh, cert, cv), tls.finished.decode(fin))
    && CanAnswer(tls, config, sk, Third(tls, ch, sh, cert, cv))
  }

  lemma SharedMeets(tls: Tls, sk: nat, share: PublicKey)
    requires tls.curve.order > 1
    ensures Shared(tls, sk, share).Ok? <==> Meets(tls, sk, share)
    ensures Meets(tls, sk, share) ==> Shared(tls, sk, share).value == Met(tls, sk, share)
  {
    hide SecretsOf;
  }

  /** What the client sends last. */
  function LastSent(tls: Tls, config: ClientConfig, sk: nat, t: Bytes): (sent: seq<Bytes>)
    requires CanAnswer(tls, config, sk, t)
  {
    if config.chain == [] then []
    else [tls.certificate.encode(config.chain).value, tls.finished.encode(tls.sign(sk, t).value).value]
  }

  lemma FromFinished(tls: Tls, c: Client, inbox: seq<Bytes>)
    requires tls.curve.order > 1 && c.AwaitFinished?
    ensures var run := RunClient(tls, c, inbox);
            var ok := inbox != [] && Verified(tls, Some(c.share), c.t, tls.finished.decode(inbox[0]))
                      && CanAnswer(tls, c.config, c.sk, c.t);
            && (run.client.ClientDone? <==> ok)
            && (ok ==>
                  run == ClientRun(ClientDone(c.config, c.sk, c.ch, c.sh, c.share, c.t, c.cert, c.chain, c.secrets),
                                   LastSent(tls, c.config, c.sk, c.t), inbox[1..]))
  {
    if inbox != [] { FinishedReads(tls, c, inbox); }
  }

  lemma FromVerify(tls: Tls, c: Client, inbox: seq<Bytes>)
    requires tls.curve.order > 1 && c.AwaitVerify?
    ensures var run := RunClient(tls, c, inbox);
            var ok := && |inbox| >= 2
                      && Verified(tls, tls.keyOfChain(c.chain), c.t, tls.certificateVerify.decode(inbox[0]))
                      && Meets(tls, c.sk, c.share)
                      && var t := Digest(tls.sm3, c.t + inbox[0]);
                      && Verified(tls, Some(c.share), t, tls.finished.decode(inbox[1]))
                      && CanAnswer(tls, c.config, c.sk, t);
            && (run.client.ClientDone? <==> ok)
            && (ok ==> var t := Digest(tls.sm3, c.t + inbox[0]);
                  run == ClientRun(ClientDone(c.config, c.sk, c.ch, c.sh, c.share, t, c.cert, c.chain,
                                              Met(tls, c.sk, c.share)),
                                   LastSent(tls, c.config, c.sk, t), inbox[2..]))
  {
    hide Shared, Met, Meets, CanAnswer, LastSent, Digest, OnFinished, RunClient;
    StoppedClient(tls, c, inbox);
    if inbox != [] {
      ClientReads(tls, c, inbox);
      SharedMeets(tls, c.sk, c.share);
      var c' := OnVerify(tls, c, inbox[0]);
      if c'.ClientFailed? {
        StoppedClient(tls, c', inbox[1..]);
      } else {
        FromFinished(tls, c', inbox[1..]);
      }
    }
  }

  lemma FromCertificate(tls: Tls, c: Client, inbox: seq<Bytes>)
    requires tls.curve.order > 1 && c.AwaitCertificate?
    ensures var run := RunClient(tls, c, inbox);
            var ok := && |inbox| >= 3 && tls.certificate.decode(inbox[0]).Some?
                      && var chain := tls.certificate.decode(inbox[0]).value;
                      && (c.config.checks ==> chain != [] && c.config.trusts(chain))
                      && var t2 := Digest(tls.sm3, c.t + inbox[0]);
                      && Verified(tls, tls.keyOfChain(chain), t2, tls.certificateVerify.decode(inbox[1]))
                      && Meets(tls, c.sk, c.share)
                      && var t3 := Digest(tls.sm3, t2 + inbox[1]);
                      && Verified(tls, Some(c.share), t3, tls.finished.decode(inbox[2]))
                      && CanAnswer(tls, c.config, c.sk, t3);
            && (run.client.ClientDone? <==> ok)
            && (ok ==> var t3 := Digest(tls.sm3, Digest(tls.sm3, c.t + inbox[0]) + inbox[1]);
                  run == ClientRun(ClientDone(c.config, c.sk, c.ch, c.sh, c.share, t3, inbox[0],
                                              tls.certificate.decode(inbox[0]).value, Met(tls, c.sk, c.share)),
                                   LastSent(tls, c.config, c.sk, t3), inbox[3..]))
  {
    hide Shared, Met, Meets, CanAnswer, LastSent, Digest, Verified, OnVerify, OnFinished, RunClient;
    StoppedClient(tls, c, inbox);
    if inbox != [] {
      ClientReads(tls, c, inbox);
      var c' := OnCertificate(tls, c, inbox[0]);
      if c'.ClientFailed? {
        StoppedClient(tls, c', inbox[1..]);
      } else {
        FromVerify(tls, c', inbox[1..]);
      }
    }
  }

  /** The client completes on a sequence of records if and only if its own hello could be written
      and the first four records pass every check; it then holds the hash over the transcript and
      the secrets of the point it shares, has sent its own Certificate and Finished if it has a
      chain, and has read nothing beyond the four. */
  lemma ClientCompletesExactly(tls: Tls, config: ClientConfig, sk: nat, inbox: seq<Bytes>)
    requires tls.curve.order > 1
    ensures var ch := tls.clientHello.encode(Hello(tls.publicOf(sk), config.hello));
            var run := RunClient(tls, ClientStart(tls, config, sk).client, inbox);
            var ok := ch.Some? && |inbox| >= 4
                      && ClientCompletes(tls, config, sk, ch.value, inbox[0], inbox[1], inbox[2], inbox[3]);
            && (run.client.ClientDone? <==> ok)
            && (ok ==> var share := tls.serverHello.decode(inbox[0]).value.share;
                  var t := Third(tls, ch.value, inbox[0], inbox[1], inbox[2]);
                  run == ClientRun(ClientDone(config, sk, ch.value, inbox[0], share, t, inbox[1],
                                              tls.certificate.decode(inbox[1]).value, Met(tls, sk, share)),
                                   LastSent(tls, config, sk, t), inbox[4..]))
  {
    hide Shared, Met, Meets, CanAnswer, LastSent, Digest, Verified, OnCertificate, OnVerify, OnFinished, RunClient;
    var c := ClientStart(tls, config, sk).client;
    StoppedClient(tls, c, inbox);
    if c.AwaitHello? && inbox != [] {
      ClientReads(tls, c, inbox);
      var c' := OnServerHello(tls, c, inbox[0]);
      if c'.ClientFailed? {
        StoppedClient(tls, c', inbox[1..]);
      } else {
        FromCertificate(tls, c', inbox[1..]);
      }
    }
  }

  lemma StoppedClient(tls: Tls, c: Client, inbox: seq<Bytes>)
    requires tls.curve.order > 1
    ensures ClientStopped(c) || inbox == [] ==> RunClient(tls, c, inbox) == ClientRun(c, [], inbox)
  {
    hide ClientReceive;
  }

  // ---------------------------------------------------------------- server

  /** What the server sends: ServerHello, Certificate if it has a chain, CertificateVerify and
      Finished, with the two hashes it signs. */
  datatype Flight = Flight(sh: Bytes, cert: Option<Bytes>, cv: Bytes, fin: Bytes, t2: Bytes, t3: Bytes)

  /** The flight for a ClientHello record, if its share is usable and every message can be signed
      and written. */
  function FlightFor(tls: Tls, config: ServerConfig, sk: nat, ch: Bytes): (f: Option<Flight>)
    requires tls.curve.order > 1
  {
    var hello := tls.clientHello.decode(ch);
    if hello.None? || !Meets(tls, sk, hello.value.share) || config.key.None? then None
    else
      var sh := tls.serverHello.encode(Hello(tls.publicOf(sk), config.rest(hello.value.rest)));
      var cert := if config.chain == [] then None else tls.certificate.encode(config.chain);
      if sh.None? || (config.chain != [] && cert.None?) then None
      else
        var t1 := Digest(tls.sm3, ch + sh.value);
        var t2 := if cert.None? then t1 else Digest(tls.sm3, t1 + cert.value);
        var sig := tls.sign(config.key.value, t2);
        var cv := if sig.None? then None else tls.certificateVerify.encode(sig.value);
        if cv.None? then None
        else
          var t3 := Digest(tls.sm3, t2 + cv.value);
          var own := tls.sign(sk, t3);
          var fin := if own.None? then None else tls.finished.encode(own.value);
          if fin.None? then None else Some(Flight(sh.value, cert, cv.value, fin.value, t2, t3))
  }

  /** The client's Certificate holds a chain that the server trusts and its Finished verifies under
      the share of its hello. */
  predicate ClientProves(tls: Tls, config: ServerConfig, share: PublicKey, t: Bytes, cert: Bytes, fin: Bytes) {
    var chain := tls.certificate.decode(cert);
    && chain.Some? && chain.value != [] && config.checks && config.trusts(chain.value)
    && Verified(tls, Some(share), t, tls.finished.decode(fin))
  }

  lemma AnswersExactly(tls: Tls, config: ServerConfig, sk: nat, ch: Bytes)
    requires tls.curve.order > 1
    ensures var step, f := OnClientHello(tls, ServerStart(config, sk), ch), FlightFor(tls, config, sk, ch);
            && (f.None? <==> step.server.stage.ServerFailed?)
            && (f.Some? ==>
                  && step.sent == [f.value.sh] + (if f.value.cert.None? then [] else [f.value.cert.value])
                                  + [f.value.cv, f.value.fin]
                  && var hello := tls.clientHello.decode(ch).value;
                  && step.server
                     == Server(config, sk, if config.requireAuth then AwaitClientCert else ServerDone,
                               Some(Answer(ch, hello, f.value.sh, if f.value.cert.None? then [] else f.value.cert.value,
                                           f.value.t2, Met(tls, sk, hello.share))), f.value.t3, None))
  {
    hide Shared, Met, Meets, Digest;
    var hello := tls.clientHello.decode(ch);
    if hello.Some? { SharedMeets(tls, sk, hello.value.share); }
  }

  /** The server completes on a sequence of records if and only if it can answer the first with its
      whole flight and, where it requires a client certificate, the next two prove the client. */
  lemma ServerCompletesExactly(tls: Tls, config: ServerConfig, sk: nat, inbox: seq<Bytes>)
    requires tls.curve.order > 1
    ensures var run := RunServer(tls, ServerStart(config, sk), inbox);
            var ok := && inbox != [] && FlightFor(tls, config, sk, inbox[0]).Some?
                      && (config.requireAuth ==>
                            && |inbox| >= 3
                            && ClientProves(tls, config, tls.clientHello.decode(inbox[0]).value.share,
                                            FlightFor(tls, config, sk, inbox[0]).value.t3, inbox[1], inbox[2]));
            && (run.server.stage.ServerDone? <==> ok)
            && (ok ==>
                  && run.server.t == FlightFor(tls, config, sk, inbox[0]).value.t3
                  && run.server.answer.Some?
                  && run.server.answer.value.secrets == Met(tls, sk, tls.clientHello.decode(inbox[0]).value.share)
                  && run.unread == (if config.requireAuth then inbox[3..] else inbox[1..]))
  {
    hide FlightFor, Met, Meets, OnClientHello, RunServer;
    var s := ServerStart(config, sk);
    if inbox == [] {
      EmptyServer(tls, s);
    } else {
      HelloReads(tls, s, inbox);
      AnswersExactly(tls, config, sk, inbox[0]);
      var s', rest := OnClientHello(tls, s, inbox[0]).server, inbox[1..];
      if ServerStopped(s') {
        StoppedRuns(tls, s', rest);
      } else {
        AuthReads(tls, s', rest);
      }
    }
  }
}
