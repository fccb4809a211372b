/** Runs in which the ClientHello that reaches the server has bytes after the one that was sent. */
module GmTlsTail {
  import opened Bytes
  import opened Kdf
  import opened GmTls
  import opened GmTlsAgreement

  /** The records of a run in which `more` follows the client's hello on its way to the server and
      precedes the server's hello on its way to the client. */
  datatype Tailed = Tailed(
    tls: Tls, client: ClientConfig, ck: nat, server: ServerConfig, sk: nat, key: nat,
    ch: Bytes, more: Bytes, sh: Bytes, cert: Bytes, cv: Bytes, fin: Bytes,
    hello: Hello, share: Bytes, ours: Secrets, theirs: Secrets)

  function T1(u: Tailed): (t: Bytes) { HelloHash(u.tls, u.ch, u.more + u.sh) }

  function T2(u: Tailed): (t: Bytes) { Extend(u.tls, T1(u), u.cert) }

  function T3(u: Tailed): (t: Bytes) { Extend(u.tls, T2(u), u.cv) }

  /** The decoders accept these records, one reading its hello before `more` and one reading its
      hello from it, and the two signatures verify. */
  predicate Readable(u: Tailed)
    requires u.tls.curve.order > 1
  {
    && 0 < u.ck < u.tls.curve.order && 0 < u.sk < u.tls.curve.order
    && u.client.chain == [] && u.server.key == Some(u.key) && u.server.chain != []
    && u.tls.clientHello.encode(Hello(u.tls.publicOf(u.ck), u.client.hello)) == Some(u.ch)
    && u.tls.clientHello.decode(u.ch + u.more) == Some(u.hello)
    && Shared(u.tls, u.sk, u.hello.share) == Ok(u.theirs)
    && u.tls.serverHello.encode(Hello(u.tls.publicOf(u.sk), u.server.rest(u.hello.rest))) == Some(u.sh)
    && u.tls.serverHello.decode(u.more + u.sh).Some? && u.tls.serverHello.decode(u.more + u.sh).value.share == u.share
    && Shared(u.tls, u.ck, u.share) == Ok(u.ours)
    && u.tls.certificate.encode(u.server.chain) == Some(u.cert)
    && u.tls.certificate.decode(u.cert) == Some(u.server.chain)
    && ChainAccepted(u.client.checks, u.client.trusts, u.server.chain)
    && u.tls.keyOfChain(u.server.chain) == Some(u.tls.publicOf(u.key))
    && u.tls.sign(u.key, T2(u)).Some? && u.tls.certificateVerify.decode(u.cv) == u.tls.sign(u.key, T2(u))
    && u.tls.verify(u.tls.publicOf(u.key), T2(u), u.tls.sign(u.key, T2(u)).value)
    && u.tls.finished.decode(u.fin).Some? && u.tls.verify(u.share, T3(u), u.tls.finished.decode(u.fin).value)
  }

  /** The client after k of the records it is given. */
  function Follower(u: Tailed, k: nat): (c: Client) {
    if k == 0 then AwaitHello(u.client, u.ck, u.ch)
    else if k == 1 then AwaitCertificate(u.client, u.ck, u.ch, u.more + u.sh, u.share, T1(u))
    else if k == 2 then AwaitVerify(u.client, u.ck, u.ch, u.more + u.sh, u.share, T2(u), u.cert, u.server.chain)
    else if k == 3 then
      AwaitFinished(u.client, u.ck, u.ch, u.more + u.sh, u.share, T3(u), u.cert, u.server.chain, u.ours)
    else ClientDone(u.client, u.ck, u.ch, u.more + u.sh, u.share, T3(u), u.cert, u.server.chain, u.ours)
  }

  function Given(u: Tailed, k: nat): (record: Bytes) {
    if k == 0 then u.more + u.sh else if k == 1 then u.cert else if k == 2 then u.cv else u.fin
  }

  function Host(u: Tailed): (s: Server)
    requires u.tls.curve.order > 1
  {
    OnClientHello(u.tls, ServerStart(u.server, u.sk), u.ch + u.more).server
  }

  lemma Regroup(a: Bytes, b: Bytes, c: Bytes)
    ensures a + (b + c) == (a + b) + c
  {
  }

  /** Once the CertificateVerify is signed the answer is on record, whatever fails after it. */
  lemma AnswerRecorded(tls: Tls, s: Server, answer: Answer, sent: seq<Bytes>)
    requires s.config.key.Some? && tls.sign(s.config.key.value, answer.signed).Some?
    ensures var s' := Authenticate(tls, s, answer, sent).server;
            s'.config == s.config && s'.sk == s.sk && s'.answer == Some(answer)
  {
  }

  lemma HostAnswers(u: Tailed)
    requires u.tls.curve.order > 1 && Readable(u)
    ensures Host(u).config == u.server && Host(u).sk == u.sk
    ensures Host(u).answer == Some(Answer(u.ch + u.more, u.hello, u.sh, u.cert, T2(u), u.theirs))
  {
    hide Shared, Digest, Authenticate;
    Regroup(u.ch, u.more, u.sh);
    AnswerRecorded(u.tls, ServerStart(u.server, u.sk), Answer(u.ch + u.more, u.hello, u.sh, u.cert, T2(u), u.theirs),
                   [u.sh, u.cert]);
  }

  lemma FollowerMoves(u: Tailed, k: nat)
    requires u.tls.curve.order > 1 && Readable(u) && k < 4
    ensures ClientReceive(u.tls, Follower(u, k), Given(u, k)).client == Follower(u, k + 1)
  {
    hide Shared, Digest, ChainAccepted;
  }

  lemma FollowerUnforged(u: Tailed, honest: set<Bytes>, k: nat)
    requires u.tls.curve.order > 1 && Readable(u) && k < 4
    ensures Unforged(u.tls, honest, World([Follower(u, k)], [Host(u)]), ToClient(0, Given(u, k)))
  {
    hide Shared, HelloHash, Extend, Host;
    if k == 2 {
      var w := World([Follower(u, k)], [Host(u)]);
      HostAnswers(u);
      assert SignedBy(u.tls, w.servers[0], u.tls.publicOf(u.key), w.clients[0].t);
      assert HasSigner(u.tls, w, u.tls.publicOf(u.key), w.clients[0].t);
    }
  }

  lemma {:induction false} FollowerReadsOn(u: Tailed, honest: set<Bytes>, events: seq<Event>, k: nat)
    returns (more: seq<Event>)
    requires u.tls.curve.order > 1 && Readable(u) && k <= 4
    requires Legal(u.tls, honest, events) && After(u.tls, events) == World([Follower(u, k)], [Host(u)])
    ensures Legal(u.tls, honest, more) && After(u.tls, more) == World([Follower(u, 4)], [Host(u)])
    decreases 4 - k
  {
    hide Readable, Follower, Host, Given, ClientReceive, Unforged, After, Legal;
    if k == 4 {
      more := events;
    } else {
      FollowerMoves(u, k);
      FollowerUnforged(u, honest, k);
      AfterOne(u.tls, honest, events, ToClient(0, Given(u, k)));
      assert [Follower(u, k)][0 := Follower(u, k + 1)] == [Follower(u, k + 1)];
      more := FollowerReadsOn(u, honest, events + [ToClient(0, Given(u, k))], k + 1);
    }
  }

  /** Such records make a legal run in which the client completes. */
  lemma TailedRun(u: Tailed, honest: set<Bytes>) returns (events: seq<Event>)
    requires u.tls.curve.order > 1 && Readable(u)
    ensures Legal(u.tls, honest, events)
    ensures After(u.tls, events) == World([Follower(u, 4)], [Host(u)])
  {
    hide Readable, After, Legal, Follower, Unforged, ServerReceive, ClientReceive, ClientStart;
    ReadableStart(u);
    var start := OpenedBoth(u.tls, honest, u.client, u.ck, u.server, u.sk);
    var e3 := ToServer(0, u.ch + u.more);
    AfterOne(u.tls, honest, start, e3);
    assert Unforged(u.tls, honest, After(u.tls, start), e3);
    events := FollowerReadsOn(u, honest, start + [e3], 0);
  }

  lemma ReadableStart(u: Tailed)
    requires u.tls.curve.order > 1 && Readable(u)
    ensures 0 < u.ck < u.tls.curve.order && 0 < u.sk < u.tls.curve.order && u.server.chain != []
    ensures u.server.key == Some(u.key) && u.tls.keyOfChain(u.server.chain) == Some(u.tls.publicOf(u.key))
    ensures ClientStart(u.tls, u.client, u.ck).client == Follower(u, 0)
    ensures ServerReceive(u.tls, ServerStart(u.server, u.sk), u.ch + u.more).server == Host(u)
    ensures forall honest, w :: Unforged(u.tls, honest, w, ToServer(0, u.ch + u.more))
  {
    hide Shared, HelloHash, Extend, OnClientHello;
  }

  /** The two hashed the same strings. */
  lemma TailedCollisionFree(u: Tailed)
    requires u.tls.curve.order > 1 && Readable(u)
    ensures CollisionFree(u.tls, World([Follower(u, 4)], [Host(u)]))
  {
    hide Readable, Host, Digest;
    HostAnswers(u);
    Regroup(u.ch, u.more, u.sh);
    var c, a := Follower(u, 4), Host(u).answer.value;
    assert NoCollision(u.tls, c, a);
  }

  lemma Longer(a: Bytes, b: Bytes, c: Bytes)
    requires b != []
    ensures |a + b| > |a| && b + c != c && a + b != a
  {
    assert |b + c| > |c|;
  }

  /** In that run the two sides share neither hello record, nor the server's key share if the one
      the client was given is another. */
  lemma TailedApart(u: Tailed, used: Bytes -> nat, events: seq<Event>)
    requires u.tls.curve.order > 1 && Readable(u) && After(u.tls, events) == World([Follower(u, 4)], [Host(u)])
    requires used(u.ch + u.more) == |u.ch| && u.more != [] && u.share != u.tls.publicOf(u.sk)
    ensures CollisionFree(u.tls, After(u.tls, events))
    ensures var w := After(u.tls, events);
            && |w.clients| == 1 && |w.servers| == 1 && w.clients[0].ClientDone? && w.servers[0].answer.Some?
            && var c, s, a := w.clients[0], w.servers[0], w.servers[0].answer.value;
            && s.config.key == Some(u.key) && s.config.chain == c.chain
            && u.tls.keyOfChain(c.chain) == Some(u.tls.publicOf(u.key))
            && used(a.ch) < |a.ch| && a.ch != c.ch && a.sh != c.sh && c.share != u.tls.publicOf(s.sk)
  {
    hide Readable, Host, After, HelloHash, Extend, CollisionFree, ClientStart, ServerReceive, Unforged;
    ReadableStart(u);
    HostAnswers(u);
    TailedCollisionFree(u);
    Longer(u.ch, u.more, u.sh);
  }
}
