/** Any number of GM/TLS clients and servers over a network that delivers whatever it likes. */
module GmTlsAgreement {
  import opened Bytes
  import opened Kdf
  import opened Sm2Curve
  import opened GmTls
  import GmTlsHello

  datatype World = World(clients: seq<Client>, servers: seq<Server>)

  datatype Event =
    | OpenClient(client: ClientConfig, ck: nat)
    | OpenServer(server: ServerConfig, sk: nat)
    | ToClient(i: nat, record: Bytes)
    | ToServer(j: nat, record: Bytes)

  function Step(tls: Tls, w: World, e: Event): (w': World)
    requires tls.curve.order > 1
  {
    match e
    case OpenClient(config, ck) =>
      if 0 < ck < tls.curve.order then w.(clients := w.clients + [ClientStart(tls, config, ck).client]) else w
    case OpenServer(config, sk) =>
      if 0 < sk < tls.curve.order then w.(servers := w.servers + [ServerStart(config, sk)]) else w
    case ToClient(i, record) =>
      if i < |w.clients| then w.(clients := w.clients[i := ClientReceive(tls, w.clients[i], record).client]) else w
    case ToServer(j, record) =>
      if j < |w.servers| then w.(servers := w.servers[j := ServerReceive(tls, w.servers[j], record).server]) else w
  }

  function After(tls: Tls, events: seq<Event>): (w: World)
    requires tls.curve.order > 1
  {
    if events == [] then World([], []) else Step(tls, After(tls, events[..|events| - 1]), events[|events| - 1])
  }

  // ---------------------------------------------------------------- assumptions on a run

  /** Server s has signed `data` as its CertificateVerify under public key pk. */
  predicate SignedBy(tls: Tls, s: Server, pk: PublicKey, data: Bytes) {
    s.config.key.Some? && tls.publicOf(s.config.key.value) == pk && s.answer.Some? && s.answer.value.signed == data
  }

  ghost predicate HasSigner(tls: Tls, w: World, pk: PublicKey, data: Bytes) {
    exists j :: 0 <= j < |w.servers| && SignedBy(tls, w.servers[j], pk, data)
  }

  /** An honest key belongs to servers with a certificate and signs nothing but their
      CertificateVerify messages, and its signatures cannot be forged. */
  ghost predicate Unforged(tls: Tls, honest: set<PublicKey>, w: World, e: Event) {
    match e
    case OpenServer(config, _) => config.key.Some? && tls.publicOf(config.key.value) in honest ==> config.chain != []
    case ToClient(i, record) =>
      i < |w.clients| && w.clients[i].AwaitVerify? ==>
        var c, sig := w.clients[i], tls.certificateVerify.decode(record);
        var key := tls.keyOfChain(c.chain);
        sig.Some? && key.Some? && key.value in honest && tls.verify(key.value, c.t, sig.value) ==>
          HasSigner(tls, w, key.value, c.t)
    case _ => true
  }

  ghost predicate Legal(tls: Tls, honest: set<PublicKey>, events: seq<Event>)
    requires tls.curve.order > 1
  {
    events == [] ||
    var past := events[..|events| - 1];
    Legal(tls, honest, past) && Unforged(tls, honest, After(tls, past), events[|events| - 1])
  }

  /** A run with one more event. */
  lemma AfterOne(tls: Tls, honest: set<PublicKey>, events: seq<Event>, e: Event)
    requires tls.curve.order > 1
    ensures After(tls, events + [e]) == Step(tls, After(tls, events), e)
    ensures Legal(tls, honest, events + [e])
            <==> Legal(tls, honest, events) && Unforged(tls, honest, After(tls, events), e)
  {
    hide Step, Unforged;
    var all := events + [e];
    assert all[..|all| - 1] == events && all[|all| - 1] == e;
  }

  /** A client and a server with a certificate, not yet speaking. */
  lemma OpenedBoth(tls: Tls, honest: set<PublicKey>, client: ClientConfig, ck: nat, server: ServerConfig, sk: nat)
    returns (events: seq<Event>)
    requires 0 < ck < tls.curve.order && 0 < sk < tls.curve.order && server.chain != []
    ensures Legal(tls, honest, events)
    ensures After(tls, events) == World([ClientStart(tls, client, ck).client], [ServerStart(server, sk)])
  {
    hide ClientStart;
    var e1, e2 := OpenClient(client, ck), OpenServer(server, sk);
    AfterOne(tls, honest, [], e1);
    AfterOne(tls, honest, [] + [e1], e2);
    events := [] + [e1] + [e2];
  }

  /** What a client's certificate check and a server's signature cover. */
  function Covered(tls: Tls, ch: Bytes, sh: Bytes, cert: Bytes): (t: Bytes) {
    Extend(tls, HelloHash(tls, ch, sh), cert)
  }

  /** SM3 does not collide on the strings that a client and a server hashed. */
  ghost predicate NoCollision(tls: Tls, c: Client, a: Answer)
    requires c.ClientDone?
  {
    && Apart(tls.sm3, c.ch + c.sh, a.ch + a.sh)
    && Apart(tls.sm3, Digest(tls.sm3, c.ch + c.sh) + c.cert, Digest(tls.sm3, a.ch + a.sh) + a.cert)
  }

  ghost predicate CollisionFree(tls: Tls, w: World) {
    forall i, j :: 0 <= i < |w.clients| && 0 <= j < |w.servers|
                   && w.clients[i].ClientDone? && w.servers[j].answer.Some? ==>
      NoCollision(tls, w.clients[i], w.servers[j].answer.value)
  }

  /** What an encoder writes is read back. */
  ghost predicate CodecOk<T(!new)>(codec: Codec<T>) {
    forall x: T :: codec.encode(x).Some? ==> codec.decode(codec.encode(x).value) == Some(x)
  }

  /** Key shares decode to the scalar they were made from. */
  ghost predicate SharesOk(tls: Tls) {
    forall k: nat :: 0 < k < tls.curve.order ==> tls.pointOf(tls.publicOf(k)) == Some(k)
  }

  // ---------------------------------------------------------------- invariants

  /** A client past the CertificateVerify check. */
  predicate Checked(c: Client) {
    c.AwaitFinished? || c.ClientDone?
  }

  ghost predicate ClientOk(tls: Tls, c: Client)
    requires tls.curve.order > 1
  {
    c.ClientFailed? ||
    (&& 0 < c.sk < tls.curve.order
     && tls.clientHello.encode(Hello(tls.publicOf(c.sk), c.config.hello)) == Some(c.ch)
     && (!c.AwaitHello? ==> tls.serverHello.decode(c.sh).Some? && tls.serverHello.decode(c.sh).value.share == c.share)
     && (c.AwaitCertificate? ==> c.t == HelloHash(tls, c.ch, c.sh))
     && (c.AwaitVerify? || Checked(c) ==> tls.certificate.decode(c.cert) == Some(c.chain))
     && (c.AwaitVerify? ==> c.t == Covered(tls, c.ch, c.sh, c.cert))
     && (Checked(c) ==> Shared(tls, c.sk, c.share) == Ok(c.secrets)))
  }

  ghost predicate Backed(tls: Tls, honest: set<PublicKey>, w: World, c: Client) {
    Checked(c) ==>
      var key := tls.keyOfChain(c.chain);
      key.Some? && (key.value in honest ==> HasSigner(tls, w, key.value, Covered(tls, c.ch, c.sh, c.cert)))
  }

  ghost predicate ServerOk(tls: Tls, honest: set<PublicKey>, s: Server)
    requires tls.curve.order > 1
  {
    && 0 < s.sk < tls.curve.order
    && (s.stage.AwaitClientHello? ==> s.answer.None?)
    && (s.config.key.Some? && tls.publicOf(s.config.key.value) in honest ==> s.config.chain != [])
    && (s.answer.Some? ==> AnswerOk(tls, s, s.answer.value))
  }

  predicate AnswerOk(tls: Tls, s: Server, a: Answer)
    requires tls.curve.order > 1
  {
    && tls.clientHello.decode(a.ch) == Some(a.hello)
    && tls.serverHello.encode(Hello(tls.publicOf(s.sk), s.config.rest(a.hello.rest))) == Some(a.sh)
    && Shared(tls, s.sk, a.hello.share) == Ok(a.secrets)
    && (s.config.chain != [] ==>
          tls.certificate.encode(s.config.chain) == Some(a.cert) && a.signed == Covered(tls, a.ch, a.sh, a.cert))
  }

  ghost predicate WorldInv(tls: Tls, honest: set<PublicKey>, w: World)
    requires tls.curve.order > 1
  {
    && (forall i :: 0 <= i < |w.clients| ==> ClientOk(tls, w.clients[i]) && Backed(tls, honest, w, w.clients[i]))
    && (forall j :: 0 <= j < |w.servers| ==> ServerOk(tls, honest, w.servers[j]))
  }

  lemma ClientKeeps(tls: Tls, honest: set<PublicKey>, w: World, i: nat, record: Bytes)
    requires tls.curve.order > 1 && i < |w.clients|
    requires ClientOk(tls, w.clients[i]) && Backed(tls, honest, w, w.clients[i])
    requires Unforged(tls, honest, w, ToClient(i, record))
    ensures var c' := ClientReceive(tls, w.clients[i], record).client; ClientOk(tls, c') && Backed(tls, honest, w, c')
  {
    hide Shared, HelloHash, Extend, HasSigner, ChainAccepted;
  }

  lemma ServerKeeps(tls: Tls, honest: set<PublicKey>, s: Server, record: Bytes)
    requires tls.curve.order > 1 && ServerOk(tls, honest, s)
    ensures var s' := ServerReceive(tls, s, record).server;
            ServerOk(tls, honest, s') && s'.config == s.config && (s.answer.Some? ==> s'.answer == s.answer)
  {
    hide Shared, HelloHash, Extend;
  }

  /** What has been signed stays signed. */
  lemma SignersStay(tls: Tls, honest: set<PublicKey>, w: World, e: Event, pk: PublicKey, data: Bytes)
    requires tls.curve.order > 1 && HasSigner(tls, w, pk, data)
    requires forall j :: 0 <= j < |w.servers| ==> ServerOk(tls, honest, w.servers[j])
    ensures HasSigner(tls, Step(tls, w, e), pk, data)
  {
    hide ServerReceive, ClientReceive, ClientStart, ServerOk;
    var j :| 0 <= j < |w.servers| && SignedBy(tls, w.servers[j], pk, data);
    var w' := Step(tls, w, e);
    if e.ToServer? && e.j == j { ServerKeeps(tls, honest, w.servers[j], e.record); }
    assert SignedBy(tls, w'.servers[j], pk, data);
  }

  lemma BackedStays(tls: Tls, honest: set<PublicKey>, w: World, e: Event, c: Client)
    requires tls.curve.order > 1 && Backed(tls, honest, w, c)
    requires forall j :: 0 <= j < |w.servers| ==> ServerOk(tls, honest, w.servers[j])
    ensures Backed(tls, honest, Step(tls, w, e), c)
  {
    hide Step, HasSigner, ServerOk, Covered;
    if Checked(c) && tls.keyOfChain(c.chain).value in honest {
      SignersStay(tls, honest, w, e, tls.keyOfChain(c.chain).value, Covered(tls, c.ch, c.sh, c.cert));
    }
  }

  lemma StartOk(tls: Tls, honest: set<PublicKey>, w: World, config: ClientConfig, ck: nat)
    requires 0 < ck < tls.curve.order && tls.curve.order > 1
    ensures var c := ClientStart(tls, config, ck).client; ClientOk(tls, c) && Backed(tls, honest, w, c)
  {
  }

  lemma StepClients(tls: Tls, honest: set<PublicKey>, w: World, e: Event, k: nat)
    requires tls.curve.order > 1 && WorldInv(tls, honest, w) && Unforged(tls, honest, w, e)
    requires k < |Step(tls, w, e).clients|
    ensures var w' := Step(tls, w, e); ClientOk(tls, w'.clients[k]) && Backed(tls, honest, w', w'.clients[k])
  {
    hide ClientReceive, ServerReceive, ClientStart, ClientOk, Backed, ServerOk, Unforged;
    var w' := Step(tls, w, e);
    var c := w'.clients[k];
    if e.OpenClient? && k == |w.clients| {
      StartOk(tls, honest, w, e.client, e.ck);
    } else if e.ToClient? && e.i == k {
      ClientKeeps(tls, honest, w, k, e.record);
    } else {
      assert c == w.clients[k];
    }
    BackedStays(tls, honest, w, e, c);
  }

  lemma StepServers(tls: Tls, honest: set<PublicKey>, w: World, e: Event, k: nat)
    requires tls.curve.order > 1 && WorldInv(tls, honest, w) && Unforged(tls, honest, w, e)
    requires k < |Step(tls, w, e).servers|
    ensures ServerOk(tls, honest, Step(tls, w, e).servers[k])
  {
    hide ClientReceive, ServerReceive, ClientStart, ClientOk, Backed, AnswerOk;
    if e.ToServer? && e.j == k { ServerKeeps(tls, honest, w.servers[k], e.record); }
  }

  lemma {:induction false} ReachableWorld(tls: Tls, honest: set<PublicKey>, events: seq<Event>)
    requires tls.curve.order > 1 && Legal(tls, honest, events)
    ensures WorldInv(tls, honest, After(tls, events))
    decreases |events|
  {
    hide ClientOk, Backed, ServerOk, Unforged, Step;
    if events != [] {
      var past, e := events[..|events| - 1], events[|events| - 1];
      ReachableWorld(tls, honest, past);
      var w := After(tls, past);
      forall k: nat | k < |Step(tls, w, e).clients|
        ensures var w' := Step(tls, w, e); ClientOk(tls, w'.clients[k]) && Backed(tls, honest, w', w'.clients[k])
      {
        StepClients(tls, honest, w, e, k);
      }
      forall k: nat | k < |Step(tls, w, e).servers| ensures ServerOk(tls, honest, Step(tls, w, e).servers[k]) {
        StepServers(tls, honest, w, e, k);
      }
    }
  }

  // ---------------------------------------------------------------- trust

  ghost predicate AllTrust(w: World) {
    && (forall i :: 0 <= i < |w.clients| ==> ClientTrusts(w.clients[i]))
    && (forall j :: 0 <= j < |w.servers| ==> ServerTrusts(w.servers[j]))
  }

  lemma StepTrust(tls: Tls, w: World, e: Event)
    requires tls.curve.order > 1 && AllTrust(w)
    ensures AllTrust(Step(tls, w, e))
  {
    var w' := Step(tls, w, e);
    forall k | 0 <= k < |w'.clients| ensures ClientTrusts(w'.clients[k]) {
      hide ClientReceive, ServerReceive;
      if e.ToClient? && e.i == k { ClientTrustKept(tls, w.clients[k], e.record); }
      if k < |w.clients| { assert ClientTrusts(w.clients[k]); }
    }
    forall k | 0 <= k < |w'.servers| ensures ServerTrusts(w'.servers[k]) {
      hide ClientReceive, ServerReceive, ClientStart;
      if e.ToServer? && e.j == k { ServerTrustKept(tls, w.servers[k], e.record); }
      if k < |w.servers| { assert ServerTrusts(w.servers[k]); }
    }
  }

  /** In every run, whatever the network delivers, no chain that was not trusted is past its check,
      on either side. */
  lemma {:induction false} TrustInEveryRun(tls: Tls, events: seq<Event>)
    requires tls.curve.order > 1
    ensures AllTrust(After(tls, events))
    decreases |events|
  {
    hide Step;
    if events != [] {
      TrustInEveryRun(tls, events[..|events| - 1]);
      StepTrust(tls, After(tls, events[..|events| - 1]), events[|events| - 1]);
    }
  }

  // ---------------------------------------------------------------- agreement

  /** Two ways to cut one string agree exactly when the first parts are equally long. */
  lemma SameCut(a: Bytes, b: Bytes, c: Bytes, d: Bytes)
    requires a + b == c + d
    ensures |a| == |c| <==> a == c && b == d
  {
    if |a| == |c| { SplitEqual(a, b, c, d); }
  }

  /** Equal hellos give equal secrets. */
  lemma EqualHellosEqualSecrets(tls: Tls, c: Client, s: Server, a: Answer)
    requires tls.curve.order > 1 && SharesOk(tls) && CodecOk(tls.clientHello) && CodecOk(tls.serverHello)
    requires ClientOk(tls, c) && Checked(c) && 0 < s.sk < tls.curve.order && AnswerOk(tls, s, a)
    requires c.ch == a.ch && c.sh == a.sh
    ensures c.secrets == a.secrets
  {
    assert a.hello.share == tls.publicOf(c.sk);
    assert c.share == tls.publicOf(s.sk);
    TimesSymmetric(tls.curve, c.sk, s.sk);
    hide Derive, Times, HelloHash, Extend;
  }

  /** What a client and a server that signed the client's view have in common. */
  lemma ViewsMeet(tls: Tls, c: Client, s: Server, a: Answer)
    requires tls.curve.order > 1 && c.ClientDone? && NoCollision(tls, c, a)
    requires a.signed == Covered(tls, a.ch, a.sh, a.cert) == Covered(tls, c.ch, c.sh, c.cert)
    ensures a.cert == c.cert && a.ch + a.sh == c.ch + c.sh
    ensures |a.ch| == |c.ch| <==> a.ch == c.ch && a.sh == c.sh
  {
    hide Digest;
    SplitEqual(Digest(tls.sm3, c.ch + c.sh), c.cert, Digest(tls.sm3, a.ch + a.sh), a.cert);
    SameCut(a.ch, a.sh, c.ch, c.sh);
  }

  lemma OneIsPrefix(a: Bytes, b: Bytes, c: Bytes, d: Bytes)
    requires a + b == c + d
    ensures a <= c || c <= a
  {
    var whole := a + b;
    assert a == whole[..|a|] && c == whole[..|c|];
  }

  // ---------------------------------------------------------------- where a ClientHello ends

  /** The record decodes to a ClientHello with a usable key share. */
  predicate CarriesShare(tls: Tls, x: Bytes) {
    tls.clientHello.decode(x).Some? && tls.pointOf(tls.clientHello.decode(x).value.share).Some?
  }

  /** `used` counts the bytes that the ClientHello decoder reads: it reads the same ones, with the
      same outcome, when others follow, and the encoder writes none beyond them. */
  ghost predicate SelfDelimiting(tls: Tls, used: Bytes -> nat) {
    && (forall x, y :: CarriesShare(tls, x) && CarriesShare(tls, y) && x <= y ==>
          used(x) == used(y) && tls.clientHello.decode(x) == tls.clientHello.decode(y))
    && (forall x :: CarriesShare(tls, x) ==> used(x) <= |x|)
    && (forall h :: tls.clientHello.encode(h).Some? ==>
          used(tls.clientHello.encode(h).value) == |tls.clientHello.encode(h).value|)
  }

  /** The source's ClientHello encoder and decoder, for some interpretation of the fields and
      extensions that are read; a hello without extension block has an empty key share. */
  ghost predicate SourceLayout(tls: Tls, interpret: (Bytes, Option<Bytes>) -> Option<Hello>) {
    && (forall x :: tls.clientHello.decode(x) == GmTlsHello.ReadHello(interpret, x))
    && (forall head :: interpret(head, None).Some? ==> interpret(head, None).value.share == [])
    && tls.pointOf([]).None?
    && (forall h :: tls.clientHello.encode(h).Some? ==> GmTlsHello.WrittenHello(tls.clientHello.encode(h).value))
  }

  /** The source's ServerHello encoder and decoder, in the same way. */
  ghost predicate SourceServerLayout(tls: Tls, interpret: (Bytes, Option<Bytes>) -> Option<Hello>) {
    && (forall x :: tls.serverHello.decode(x) == GmTlsHello.ReadServerHello(interpret, x))
    && (forall h :: tls.serverHello.encode(h).Some? ==> GmTlsHello.WrittenServerHello(tls.serverHello.encode(h).value))
  }

  /** The source's ClientHello layout is self-delimiting. */
  lemma SourceSelfDelimiting(tls: Tls, interpret: (Bytes, Option<Bytes>) -> Option<Hello>)
    requires SourceLayout(tls, interpret)
    ensures SelfDelimiting(tls, GmTlsHello.Used)
  {
    hide GmTlsHello.FrameOf, GmTlsHello.HelloBytes;
    forall x, y | CarriesShare(tls, x) && CarriesShare(tls, y) && x <= y
      ensures GmTlsHello.Used(x) == GmTlsHello.Used(y) && tls.clientHello.decode(x) == tls.clientHello.decode(y)
    {
      HasExtensions(tls, interpret, x);
      GmTlsHello.FrameKept(x, y);
    }
    forall h | tls.clientHello.encode(h).Some?
      ensures GmTlsHello.Used(tls.clientHello.encode(h).value) == |tls.clientHello.encode(h).value|
    {
      var fields :| GmTlsHello.InRange(fields) && tls.clientHello.encode(h).value == GmTlsHello.HelloBytes(fields);
      GmTlsHello.EncodedIsWhole(fields);
    }
  }

  lemma HasExtensions(tls: Tls, interpret: (Bytes, Option<Bytes>) -> Option<Hello>, x: Bytes)
    requires SourceLayout(tls, interpret) && CarriesShare(tls, x)
    ensures GmTlsHello.FrameOf(x).Some? && GmTlsHello.FrameOf(x).value.extensions.Some?
  {
    hide GmTlsHello.FrameOf;
    assert tls.clientHello.decode(x) == GmTlsHello.ReadHello(interpret, x);
  }

  lemma ClientCarries(tls: Tls, c: Client)
    requires tls.curve.order > 1 && SharesOk(tls) && CodecOk(tls.clientHello) && ClientOk(tls, c) && c.ClientDone?
    ensures CarriesShare(tls, c.ch) && tls.clientHello.decode(c.ch) == Some(Hello(tls.publicOf(c.sk), c.config.hello))
  {
    hide Shared, HelloHash, Extend;
  }

  /** The server's ClientHello begins with the client's, and is the client's exactly when the
      server's decoder leaves nothing over. */
  lemma UsedSettlesLength(tls: Tls, used: Bytes -> nat, c: Client, s: Server, a: Answer)
    requires tls.curve.order > 1 && SelfDelimiting(tls, used) && CodecOk(tls.clientHello) && SharesOk(tls)
    requires ClientOk(tls, c) && c.ClientDone? && AnswerOk(tls, s, a)
    requires a.ch + a.sh == c.ch + c.sh
    ensures c.ch <= a.ch && a.hello == Hello(tls.publicOf(c.sk), c.config.hello)
    ensures used(a.ch) == |c.ch|
    ensures |a.ch| == |c.ch| <==> used(a.ch) == |a.ch|
  {
    ClientCarries(tls, c);
    assert CarriesShare(tls, a.ch);
    OneIsPrefix(a.ch, a.sh, c.ch, c.sh);
    assert used(c.ch) == |c.ch|;
    assert used(a.ch) <= |a.ch|;
    hide Shared, HelloHash, Extend, CodecOk, SharesOk;
  }

  /** The two sides hold the same hellos and the same secrets. */
  predicate Shares(c: Client, a: Answer)
    requires c.ClientDone?
  {
    a.ch == c.ch && a.sh == c.sh && a.secrets == c.secrets
  }

  /** In every run over an arbitrary network: a client that completed with a certificate for an
      honest key has a server holding that key, and configured with that chain, whose signed view
      has the client's Certificate message and decodes the client's own ClientHello. The two hold
      the same ClientHello and ServerHello records and the same secrets if and only if the
      server's ClientHello decoder used the whole record it was given. */
  lemma Agreement(tls: Tls, used: Bytes -> nat, honest: set<PublicKey>, events: seq<Event>, i: nat) returns (j: nat)
    requires tls.curve.order > 1 && Legal(tls, honest, events) && CollisionFree(tls, After(tls, events))
    requires SharesOk(tls) && CodecOk(tls.clientHello) && CodecOk(tls.serverHello) && CodecOk(tls.certificate)
    requires SelfDelimiting(tls, used)
    requires var w := After(tls, events);
             && i < |w.clients| && w.clients[i].ClientDone?
             && tls.keyOfChain(w.clients[i].chain).Some? && tls.keyOfChain(w.clients[i].chain).value in honest
    ensures var w := After(tls, events);
            && j < |w.servers|
            && var c, s := w.clients[i], w.servers[j];
            && s.config.key.Some? && tls.keyOfChain(c.chain) == Some(tls.publicOf(s.config.key.value))
            && s.config.chain == c.chain
            && s.answer.Some?
            && var a := s.answer.value;
            && a.cert == c.cert && a.ch + a.sh == c.ch + c.sh
            && c.ch <= a.ch && a.hello == Hello(tls.publicOf(c.sk), c.config.hello)
            && (Shares(c, a) <==> used(a.ch) == |a.ch|)
  {
    var w := After(tls, events);
    j := FindSigner(tls, honest, events, i);
    hide Legal, After, CollisionFree, ClientOk, ServerOk, AnswerOk, Covered, CodecOk, SharesOk, SelfDelimiting;
    var c, s := w.clients[i], w.servers[j];
    var a := s.answer.value;
    ViewsMeet(tls, c, s, a);
    assert s.config.chain == c.chain by { SameChain(tls, c, s, a); }
    UsedSettlesLength(tls, used, c, s, a);
    if |a.ch| == |c.ch| { EqualHellosEqualSecrets(tls, c, s, a); }
  }

  lemma SameChain(tls: Tls, c: Client, s: Server, a: Answer)
    requires tls.curve.order > 1 && CodecOk(tls.certificate) && ClientOk(tls, c) && c.ClientDone?
    requires AnswerOk(tls, s, a) && s.config.chain != [] && a.cert == c.cert
    ensures s.config.chain == c.chain
  {
    hide Shared, HelloHash, Extend;
  }

  /** The server behind a completed client, with what is known of both. */
  lemma FindSigner(tls: Tls, honest: set<PublicKey>, events: seq<Event>, i: nat) returns (j: nat)
    requires tls.curve.order > 1 && Legal(tls, honest, events) && CollisionFree(tls, After(tls, events))
    requires var w := After(tls, events);
             && i < |w.clients| && w.clients[i].ClientDone?
             && tls.keyOfChain(w.clients[i].chain).Some? && tls.keyOfChain(w.clients[i].chain).value in honest
    ensures var w := After(tls, events);
            && j < |w.servers|
            && var c, s := w.clients[i], w.servers[j];
            && ClientOk(tls, c)
            && s.config.key.Some? && tls.keyOfChain(c.chain) == Some(tls.publicOf(s.config.key.value))
            && 0 < s.sk < tls.curve.order
            && s.answer.Some? && s.config.chain != []
            && AnswerOk(tls, s, s.answer.value) && NoCollision(tls, c, s.answer.value)
            && var a := s.answer.value;
            a.signed == Covered(tls, a.ch, a.sh, a.cert) == Covered(tls, c.ch, c.sh, c.cert)
  {
    var w := After(tls, events);
    ReachableWorld(tls, honest, events);
    hide Legal, After, NoCollision, ClientOk, Covered, Shared;
    var c := w.clients[i];
    assert Backed(tls, honest, w, c);
    var key, data := tls.keyOfChain(c.chain).value, Covered(tls, c.ch, c.sh, c.cert);
    j :| 0 <= j < |w.servers| && SignedBy(tls, w.servers[j], key, data);
    assert ServerOk(tls, honest, w.servers[j]);
  }
}
