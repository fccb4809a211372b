/** The full GM/TLS 1.3 handshake of gm-tls/src/gm.rs: client and server as step machines over
    handshake records, and the sequential code that drives them over a stream. */
module GmTls {
  import opened Bytes
  import opened Kdf
  import opened Sm2Curve

  type PublicKey = Bytes

  /** A hello message: the ephemeral key share and everything else. */
  datatype Hello = Hello(share: PublicKey, rest: Bytes)

  /** Hashing, the curve, signatures and the message layouts. Encoders and signers are None when
      the code they stand for fails. */
  datatype Tls = Tls(
    sm3: Sm3,
    hmac: Hmac,
    curve: Curve,
    publicOf: nat -> PublicKey,
    pointOf: PublicKey -> Option<nat>,
    sign: (nat, Bytes) -> Option<Bytes>,
    verify: (PublicKey, Bytes, Bytes) -> bool,
    keyOfChain: Bytes -> Option<PublicKey>,
    clientHello: Codec<Hello>,
    serverHello: Codec<Hello>,
    certificate: Codec<Bytes>,
    certificateVerify: Codec<Bytes>,
    finished: Codec<Bytes>)

  datatype Codec<!T> = Codec(encode: T -> Option<Bytes>, decode: Bytes -> Option<T>)

  // ---------------------------------------------------------------- key schedule

  function Ascii(s: string): (r: Bytes)
    ensures |r| == |s|
  {
    seq(|s|, (i: int) requires 0 <= i < |s| => s[i] as int % 256)
  }

  datatype Secrets = Secrets(
    master: Bytes,
    clientSecret: Bytes,
    serverSecret: Bytes,
    clientKey: Bytes,
    clientNonce: Bytes,
    serverKey: Bytes,
    serverNonce: Bytes)

  /** HKDF with an empty salt. */
  function Expand(hmac: Hmac, ikm: Bytes, info: string, len: nat): (r: Bytes)
    requires len <= HKDF_MAX_OUTPUT
    ensures |r| == len
  {
    Stream(HkdfBlocks(hmac, HkdfExtract(hmac, ikm, []), Ascii(info)), len)
  }

  /** The secrets of a shared point given by its coordinates. */
  function SecretsOf(hmac: Hmac, x: Bytes, y: Bytes): (s: Secrets) {
    var master := Expand(hmac, x + y, "GM/TLS-master-secret", 32);
    var client := Expand(hmac, master, "GM/TLS-client-traffic-secret", 32);
    var server := Expand(hmac, master, "GM/TLS-server-traffic-secret", 32);
    Secrets(master, client, server, Expand(hmac, client, "key", 16), Expand(hmac, client, "iv", 12),
            Expand(hmac, server, "key", 16), Expand(hmac, server, "iv", 12))
  }

  /** derive_session_keys_sm2 on the multiple k of the generator; the identity has no coordinates. */
  function Derive(tls: Tls, k: nat): (r: Result<Secrets>) {
    if k == 0 then Err else Ok(SecretsOf(tls.hmac, X(tls.curve, k), Y(tls.curve, k)))
  }

  method DeriveKeyIv(hmac: Hmac, secret: Bytes) returns (r: Result<(Bytes, Bytes)>)
    ensures r == Ok((Expand(hmac, secret, "key", 16), Expand(hmac, secret, "iv", 12)))
  {
    hide Stream, Ascii;
    var key := HkdfSm3(hmac, secret, [], Ascii("key"), 16);
    if key.Err? {
      return Err;
    }
    var iv := HkdfSm3(hmac, secret, [], Ascii("iv"), 12);
    if iv.Err? {
      return Err;
    }
    r := Ok((key.value, iv.value));
  }

  method DeriveSessionKeys(tls: Tls, k: nat) returns (r: Result<Secrets>)
    ensures r == Derive(tls, k)
  {
    hide Stream, Ascii;
    if k == 0 {
      return Err;
    }
    var ikm := X(tls.curve, k) + Y(tls.curve, k);
    var master := HkdfSm3(tls.hmac, ikm, [], Ascii("GM/TLS-master-secret"), 32);
    if master.Err? {
      return Err;
    }
    var client := HkdfSm3(tls.hmac, master.value, [], Ascii("GM/TLS-client-traffic-secret"), 32);
    if client.Err? {
      return Err;
    }
    var server := HkdfSm3(tls.hmac, master.value, [], Ascii("GM/TLS-server-traffic-secret"), 32);
    if server.Err? {
      return Err;
    }
    var clientKeys := DeriveKeyIv(tls.hmac, client.value);
    var serverKeys := DeriveKeyIv(tls.hmac, server.value);
    if clientKeys.Err? || serverKeys.Err? {
      return Err;
    }
    r := Ok(Secrets(master.value, client.value, server.value, clientKeys.value.0, clientKeys.value.1,
                    serverKeys.value.0, serverKeys.value.1));
  }

  /** The secrets a party with ephemeral scalar sk shares with the holder of a key share. */
  function Shared(tls: Tls, sk: nat, share: PublicKey): (r: Result<Secrets>)
    requires tls.curve.order > 1
  {
    var p := tls.pointOf(share);
    if p.None? then Err else Derive(tls, Times(tls.curve, sk, p.value))
  }

  // ---------------------------------------------------------------- transcript

  function HelloHash(tls: Tls, ch: Bytes, sh: Bytes): (t: Bytes)
    ensures |t| == 32
  {
    Digest(tls.sm3, ch + sh)
  }

  function Extend(tls: Tls, t: Bytes, record: Bytes): (t': Bytes)
    ensures |t'| == 32
  {
    Digest(tls.sm3, t + record)
  }

  // ---------------------------------------------------------------- client

  /** Who the client is: its certificate chain (possibly empty) and whether it checks chains, and
      which it trusts, covering path validation, the expected URI and revocation. */
  datatype ClientConfig = ClientConfig(hello: Bytes, chain: Bytes, checks: bool, trusts: Bytes -> bool)

  datatype Client =
    | AwaitHello(config: ClientConfig, sk: nat, ch: Bytes)
    | AwaitCertificate(config: ClientConfig, sk: nat, ch: Bytes, sh: Bytes, share: PublicKey, t: Bytes)
    | AwaitVerify(config: ClientConfig, sk: nat, ch: Bytes, sh: Bytes, share: PublicKey, t: Bytes, cert: Bytes,
                  chain: Bytes)
    | AwaitFinished(config: ClientConfig, sk: nat, ch: Bytes, sh: Bytes, share: PublicKey, t: Bytes, cert: Bytes,
                    chain: Bytes, secrets: Secrets)
    | ClientDone(config: ClientConfig, sk: nat, ch: Bytes, sh: Bytes, share: PublicKey, t: Bytes, cert: Bytes,
                 chain: Bytes, secrets: Secrets)
    | ClientFailed

  datatype ClientStep = ClientStep(client: Client, sent: seq<Bytes>)

  predicate ClientStopped(c: Client) {
    c.ClientDone? || c.ClientFailed?
  }

  function ClientStart(tls: Tls, config: ClientConfig, sk: nat): (r: ClientStep) {
    var ch := tls.clientHello.encode(Hello(tls.publicOf(sk), config.hello));
    if ch.None? then ClientStep(ClientFailed, []) else ClientStep(AwaitHello(config, sk, ch.value), [ch.value])
  }

  function OnServerHello(tls: Tls, c: Client, record: Bytes): (r: Client)
    requires c.AwaitHello?
  {
    var sh := tls.serverHello.decode(record);
    if sh.None? then ClientFailed
    else AwaitCertificate(c.config, c.sk, c.ch, record, sh.value.share, HelloHash(tls, c.ch, record))
  }

  /** With a trust store configured the chain must be present and trusted. */
  predicate ChainAccepted(checks: bool, trusts: Bytes -> bool, chain: Bytes) {
    checks ==> chain != [] && trusts(chain)
  }

  function OnCertificate(tls: Tls, c: Client, record: Bytes): (r: Client)
    requires c.AwaitCertificate?
  {
    var chain := tls.certificate.decode(record);
    if chain.None? || !ChainAccepted(c.config.checks, c.config.trusts, chain.value) then ClientFailed
    else AwaitVerify(c.config, c.sk, c.ch, c.sh, c.share, Extend(tls, c.t, record), record, chain.value)
  }

  function OnVerify(tls: Tls, c: Client, record: Bytes): (r: Client)
    requires tls.curve.order > 1 && c.AwaitVerify?
  {
    var sig, key := tls.certificateVerify.decode(record), tls.keyOfChain(c.chain);
    if sig.None? || key.None? || !tls.verify(key.value, c.t, sig.value) then ClientFailed
    else
      var secrets := Shared(tls, c.sk, c.share);
      if secrets.Err? then ClientFailed
      else AwaitFinished(c.config, c.sk, c.ch, c.sh, c.share, Extend(tls, c.t, record), c.cert, c.chain, secrets.value)
  }

  /** Server authentication ends here; a client certificate and Finished follow only when the
      client has a chain. */
  function OnFinished(tls: Tls, c: Client, record: Bytes): (r: ClientStep)
    requires c.AwaitFinished?
  {
    var sig := tls.finished.decode(record);
    var done := ClientDone(c.config, c.sk, c.ch, c.sh, c.share, c.t, c.cert, c.chain, c.secrets);
    if sig.None? || !tls.verify(c.share, c.t, sig.value) then ClientStep(ClientFailed, [])
    else if c.config.chain == [] then ClientStep(done, [])
    else
      var cert := tls.certificate.encode(c.config.chain);
      if cert.None? then ClientStep(ClientFailed, [])
      else
        var own := tls.sign(c.sk, c.t);
        if own.None? then ClientStep(ClientFailed, [cert.value])
        else
          var fin := tls.finished.encode(own.value);
          if fin.None? then ClientStep(ClientFailed, [cert.value])
          else ClientStep(done, [cert.value, fin.value])
  }

  function ClientReceive(tls: Tls, c: Client, record: Bytes): (r: ClientStep)
    requires tls.curve.order > 1
  {
    match c
    case AwaitHello(_, _, _) => ClientStep(OnServerHello(tls, c, record), [])
    case AwaitCertificate(_, _, _, _, _, _) => ClientStep(OnCertificate(tls, c, record), [])
    case AwaitVerify(_, _, _, _, _, _, _, _) => ClientStep(OnVerify(tls, c, record), [])
    case AwaitFinished(_, _, _, _, _, _, _, _, _) => OnFinished(tls, c, record)
    case _ => ClientStep(c, [])
  }

  // ---------------------------------------------------------------- server

  /** `rest` is what the server says besides its key share, in answer to the client's hello. */
  datatype ServerConfig = ServerConfig(chain: Bytes, key: Option<nat>, requireAuth: bool, checks: bool,
                                       trusts: Bytes -> bool, rest: Bytes -> Bytes)

  /** What a server committed to when it signed its CertificateVerify. */
  datatype Answer = Answer(ch: Bytes, hello: Hello, sh: Bytes, cert: Bytes, signed: Bytes, secrets: Secrets)

  datatype ServerStage = AwaitClientHello | AwaitClientCert | AwaitClientFinished | ServerDone | ServerFailed

  /** `client` is the chain of the client's Certificate, once that was read and trusted. */
  datatype Server = Server(config: ServerConfig, sk: nat, stage: ServerStage, answer: Option<Answer>, t: Bytes,
                           client: Option<Bytes>)

  datatype ServerStep = ServerStep(server: Server, sent: seq<Bytes>)

  predicate ServerStopped(s: Server) {
    s.stage.ServerDone? || s.stage.ServerFailed?
  }

  function ServerStart(config: ServerConfig, sk: nat): (s: Server) {
    Server(config, sk, AwaitClientHello, None, [], None)
  }

  /** Signing the transcript with the certificate key and then, extended, with the ephemeral key. */
  function Authenticate(tls: Tls, s: Server, answer: Answer, sent: seq<Bytes>): (r: ServerStep) {
    if s.config.key.None? then ServerStep(s.(stage := ServerFailed), sent)
    else
      var sig := tls.sign(s.config.key.value, answer.signed);
      if sig.None? then ServerStep(s.(stage := ServerFailed), sent)
      else
        var cv := tls.certificateVerify.encode(sig.value);
        if cv.None? then ServerStep(s.(stage := ServerFailed, answer := Some(answer)), sent)
        else
          var t := Extend(tls, answer.signed, cv.value);
          var own := tls.sign(s.sk, t);
          var fin := if own.None? then None else tls.finished.encode(own.value);
          if fin.None? then ServerStep(s.(stage := ServerFailed, answer := Some(answer)), sent + [cv.value])
          else ServerStep(s.(stage := if s.config.requireAuth then AwaitClientCert else ServerDone,
                             answer := Some(answer), t := t),
                          sent + [cv.value, fin.value])
  }

  function OnClientHello(tls: Tls, s: Server, record: Bytes): (r: ServerStep)
    requires tls.curve.order > 1
  {
    var failed := s.(stage := ServerFailed);
    var hello := tls.clientHello.decode(record);
    if hello.None? then ServerStep(failed, [])
    else
      var secrets := Shared(tls, s.sk, hello.value.share);
      var sh := tls.serverHello.encode(Hello(tls.publicOf(s.sk), s.config.rest(hello.value.rest)));
      if secrets.Err? || sh.None? then ServerStep(failed, [])
      else
        var t := HelloHash(tls, record, sh.value);
        if s.config.chain == []
        then Authenticate(tls, s, Answer(record, hello.value, sh.value, [], t, secrets.value), [sh.value])
        else
          var cert := tls.certificate.encode(s.config.chain);
          if cert.None? then ServerStep(failed, [sh.value])
          else
            var signed := Extend(tls, t, cert.value);
            Authenticate(tls, s, Answer(record, hello.value, sh.value, cert.value, signed, secrets.value),
                         [sh.value, cert.value])
  }

  function OnClientCert(tls: Tls, s: Server, record: Bytes): (r: Server) {
    var chain := tls.certificate.decode(record);
    if chain.None? || chain.value == [] || !s.config.checks || !s.config.trusts(chain.value)
    then s.(stage := ServerFailed)
    else s.(stage := AwaitClientFinished, client := Some(chain.value))
  }

  function OnClientFinished(tls: Tls, s: Server, record: Bytes): (r: Server)
    requires s.answer.Some?
  {
    var sig := tls.finished.decode(record);
    if sig.None? || !tls.verify(s.answer.value.hello.share, s.t, sig.value) then s.(stage := ServerFailed)
    else s.(stage := ServerDone)
  }

  function ServerReceive(tls: Tls, s: Server, record: Bytes): (r: ServerStep)
    requires tls.curve.order > 1
  {
    match s.stage
    case AwaitClientHello => OnClientHello(tls, s, record)
    case AwaitClientCert => ServerStep(OnClientCert(tls, s, record), [])
    case AwaitClientFinished =>
      if s.answer.None? then ServerStep(s, []) else ServerStep(OnClientFinished(tls, s, record), [])
    case _ => ServerStep(s, [])
  }

  // ---------------------------------------------------------------- trust

  /** A client that checks chains is past the Certificate only with a chain it trusts. */
  predicate ClientTrusts(c: Client) {
    (c.AwaitVerify? || c.AwaitFinished? || c.ClientDone?) && c.config.checks ==>
      c.chain != [] && c.config.trusts(c.chain)
  }

  /** A server that requires a client certificate is past it only with a chain it trusts. */
  predicate ServerTrusts(s: Server) {
    (s.stage.AwaitClientFinished? || s.stage.ServerDone?) && s.config.requireAuth ==>
      s.client.Some? && s.client.value != [] && s.config.checks && s.config.trusts(s.client.value)
  }

  lemma ClientTrustKept(tls: Tls, c: Client, record: Bytes)
    requires tls.curve.order > 1 && ClientTrusts(c)
    ensures ClientTrusts(ClientReceive(tls, c, record).client)
  {
    hide Shared, HelloHash, Extend;
  }

  lemma ServerTrustKept(tls: Tls, s: Server, record: Bytes)
    requires tls.curve.order > 1 && ServerTrusts(s)
    ensures ServerTrusts(ServerReceive(tls, s, record).server)
  {
    hide Shared, HelloHash, Extend;
  }

  // ---------------------------------------------------------------- established streams

  datatype Channel = Channel(writeSecret: Bytes, readSecret: Bytes)

  /** set_traffic_secrets: the client writes with the client secret, the server with the server's. */
  function ClientChannel(s: Secrets): (c: Channel) { Channel(s.clientSecret, s.serverSecret) }

  function ServerChannel(s: Secrets): (c: Channel) { Channel(s.serverSecret, s.clientSecret) }

  // ---------------------------------------------------------------- what the secrets are made of

  /** HKDF with an empty salt and one block of output, as two HMACs. */
  function OneBlock(hmac: Hmac, ikm: Bytes, info: string): (r: Bytes)
    ensures |r| == 32
  {
    Tag(hmac, Tag(hmac, Zeros(32), ikm), Ascii(info) + [1])
  }

  lemma ExpandIsOneBlock(hmac: Hmac, ikm: Bytes, info: string, len: nat)
    requires len <= 32
    ensures Expand(hmac, ikm, info, len) == OneBlock(hmac, ikm, info)[..len]
  {
    HkdfPrefix(hmac, ikm, [], Ascii(info), len, 32);
    HkdfChain(hmac, ikm, [], Ascii(info), 32, 0);
    hide Stream, Ascii, Tag;
    var okm := Expand(hmac, ikm, info, 32);
    assert okm[0..32] == okm && [] + Ascii(info) == Ascii(info);
  }

  /** The whole key schedule in HMACs: the master secret from the shared point, a traffic secret
      for each direction from the master secret, key and nonce from the traffic secret; each side
      writes with its own secret and reads with the other's. */
  lemma KeySchedule(hmac: Hmac, x: Bytes, y: Bytes)
    ensures var s := SecretsOf(hmac, x, y);
            && s.master == OneBlock(hmac, x + y, "GM/TLS-master-secret")
            && s.clientSecret == OneBlock(hmac, s.master, "GM/TLS-client-traffic-secret")
            && s.serverSecret == OneBlock(hmac, s.master, "GM/TLS-server-traffic-secret")
            && s.clientKey == OneBlock(hmac, s.clientSecret, "key")[..16]
            && s.clientNonce == OneBlock(hmac, s.clientSecret, "iv")[..12]
            && s.serverKey == OneBlock(hmac, s.serverSecret, "key")[..16]
            && s.serverNonce == OneBlock(hmac, s.serverSecret, "iv")[..12]
            && ClientChannel(s).writeSecret == OneBlock(hmac, s.master, "GM/TLS-client-traffic-secret")
            && ClientChannel(s).readSecret == OneBlock(hmac, s.master, "GM/TLS-server-traffic-secret")
            && ServerChannel(s).writeSecret == ClientChannel(s).readSecret
            && ServerChannel(s).readSecret == ClientChannel(s).writeSecret
  {
    hide Expand, OneBlock, Ascii;
    var s := SecretsOf(hmac, x, y);
    ExpandIsOneBlock(hmac, x + y, "GM/TLS-master-secret", 32);
    ExpandIsOneBlock(hmac, s.master, "GM/TLS-client-traffic-secret", 32);
    ExpandIsOneBlock(hmac, s.master, "GM/TLS-server-traffic-secret", 32);
    ExpandIsOneBlock(hmac, s.clientSecret, "key", 16);
    ExpandIsOneBlock(hmac, s.clientSecret, "iv", 12);
    ExpandIsOneBlock(hmac, s.serverSecret, "key", 16);
    ExpandIsOneBlock(hmac, s.serverSecret, "iv", 12);
  }

  /** HMAC tells two keyed strings apart. */
  predicate TagApart(hmac: Hmac, key: Bytes, data: Bytes, key': Bytes, data': Bytes) {
    Tag(hmac, key, data) == Tag(hmac, key', data') ==> key == key' && data == data'
  }

  /** Up to HMAC collisions on the strings of the two derivations, two shared points give the same
      master secret if and only if their coordinates are the same, and the two directions never
      share a secret. */
  lemma SecretsCover(hmac: Hmac, x: Bytes, y: Bytes, x': Bytes, y': Bytes)
    requires |x| == |x'|
    requires TagApart(hmac, Zeros(32), x + y, Zeros(32), x' + y')
    requires TagApart(hmac, Tag(hmac, Zeros(32), x + y), Ascii("GM/TLS-master-secret") + [1],
                      Tag(hmac, Zeros(32), x' + y'), Ascii("GM/TLS-master-secret") + [1])
    ensures SecretsOf(hmac, x, y).master == SecretsOf(hmac, x', y').master <==> x == x' && y == y'
    ensures var s := SecretsOf(hmac, x, y);
            var prk, a, b := Tag(hmac, Zeros(32), s.master), Ascii("GM/TLS-client-traffic-secret") + [1],
                             Ascii("GM/TLS-server-traffic-secret") + [1];
            TagApart(hmac, prk, a, prk, b) ==> s.clientSecret != s.serverSecret
  {
    KeySchedule(hmac, x, y);
    KeySchedule(hmac, x', y');
    LabelsDiffer();
    hide SecretsOf, Tag, Ascii;
    if x + y == x' + y' { SplitEqual(x, y, x', y'); }
  }

  lemma LabelsDiffer()
    ensures Ascii("GM/TLS-client-traffic-secret") + [1] != Ascii("GM/TLS-server-traffic-secret") + [1]
  {
    var a, b := Ascii("GM/TLS-client-traffic-secret") + [1], Ascii("GM/TLS-server-traffic-secret") + [1];
    assert a[7] == 'c' as int % 256 && b[7] == 's' as int % 256;
  }
}
