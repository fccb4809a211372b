/** What a server that required a client certificate knows once it is done: the client's Finished
    is checked under the key share of the ClientHello. */
module GmTlsFinished {
  import opened Bytes
  import opened Kdf
  import opened Sm2Curve
  import opened GmTls
  import opened GmTlsAgreement
  import Honest = GmTlsHonest

  /** Client c has sent its Finished, a signature over `data` under its key share. */
  predicate SentBy(tls: Tls, c: Client, share: PublicKey, data: Bytes) {
    c.ClientDone? && c.config.chain != [] && tls.publicOf(c.sk) == share && c.t == data
  }

  ghost predicate HasSender(tls: Tls, w: World, share: PublicKey, data: Bytes) {
    exists i :: 0 <= i < |w.clients| && SentBy(tls, w.clients[i], share, data)
  }

  /** A key share in `shares` is a client's, and its signatures cannot be forged: a Finished that
      verifies under it was sent by that client. */
  ghost predicate FinishedUnforged(tls: Tls, shares: set<PublicKey>, w: World, e: Event) {
    e.ToServer? && e.j < |w.servers| && w.servers[e.j].stage.AwaitClientFinished? && w.servers[e.j].answer.Some? ==>
      var s, sig := w.servers[e.j], tls.finished.decode(e.record);
      var share := s.answer.value.hello.share;
      sig.Some? && share in shares && tls.verify(share, s.t, sig.value) ==> HasSender(tls, w, share, s.t)
  }

  ghost predicate FinishedLegal(tls: Tls, shares: set<PublicKey>, events: seq<Event>)
    requires tls.curve.order > 1
  {
    events == [] ||
    var past := events[..|events| - 1];
    FinishedLegal(tls, shares, past) && FinishedUnforged(tls, shares, After(tls, past), events[|events| - 1])
  }

  // ---------------------------------------------------------------- invariant

  /** A server that is done with a required client certificate has the client behind the share. */
  ghost predicate ServerBacked(tls: Tls, shares: set<PublicKey>, w: World, s: Server) {
    s.stage.ServerDone? && s.config.requireAuth ==>
      s.answer.Some? && (s.answer.value.hello.share in shares ==> HasSender(tls, w, s.answer.value.hello.share, s.t))
  }

  ghost predicate AllBacked(tls: Tls, shares: set<PublicKey>, w: World) {
    forall j :: 0 <= j < |w.servers| ==> ServerBacked(tls, shares, w, w.servers[j])
  }

  /** A client that is done stays as it is. */
  lemma SendersStay(tls: Tls, w: World, e: Event, share: PublicKey, data: Bytes)
    requires tls.curve.order > 1 && HasSender(tls, w, share, data)
    ensures HasSender(tls, Step(tls, w, e), share, data)
  {
    hide ServerReceive, ClientStart, OnServerHello, OnCertificate, OnVerify, OnFinished;
    var i :| 0 <= i < |w.clients| && SentBy(tls, w.clients[i], share, data);
    assert SentBy(tls, Step(tls, w, e).clients[i], share, data);
  }

  lemma ServerBackedStays(tls: Tls, shares: set<PublicKey>, w: World, e: Event, s: Server)
    requires tls.curve.order > 1 && ServerBacked(tls, shares, w, s)
    ensures ServerBacked(tls, shares, Step(tls, w, e), s)
  {
    hide Step, HasSender;
    if s.stage.ServerDone? && s.config.requireAuth && s.answer.value.hello.share in shares {
      SendersStay(tls, w, e, s.answer.value.hello.share, s.t);
    }
  }

  lemma ServerReceiveBacked(tls: Tls, shares: set<PublicKey>, w: World, j: nat, record: Bytes)
    requires tls.curve.order > 1 && j < |w.servers| && ServerBacked(tls, shares, w, w.servers[j])
    requires FinishedUnforged(tls, shares, w, ToServer(j, record))
    ensures ServerBacked(tls, shares, w, ServerReceive(tls, w.servers[j], record).server)
  {
    hide HasSender, Shared, HelloHash, Extend;
  }

  lemma StepBacked(tls: Tls, shares: set<PublicKey>, w: World, e: Event, k: nat)
    requires tls.curve.order > 1 && FinishedUnforged(tls, shares, w, e)
    requires AllBacked(tls, shares, w)
    requires k < |Step(tls, w, e).servers|
    ensures ServerBacked(tls, shares, Step(tls, w, e), Step(tls, w, e).servers[k])
  {
    var s := Step(tls, w, e).servers[k];
    assert ServerBacked(tls, shares, w, s) by {
      hide ClientReceive, ServerReceive, ClientStart, HasSender, FinishedUnforged;
      if e.ToServer? && e.j == k { ServerReceiveBacked(tls, shares, w, k, e.record); }
    }
    hide Step, ServerBacked;
    ServerBackedStays(tls, shares, w, e, s);
  }

  lemma {:induction false} ReachableBacked(tls: Tls, shares: set<PublicKey>, events: seq<Event>)
    requires tls.curve.order > 1 && FinishedLegal(tls, shares, events)
    ensures AllBacked(tls, shares, After(tls, events))
    decreases |events|
  {
    hide Step, ServerBacked, FinishedUnforged;
    if events != [] {
      var past, e := events[..|events| - 1], events[|events| - 1];
      ReachableBacked(tls, shares, past);
      var w := After(tls, past);
      forall k: nat | k < |Step(tls, w, e).servers|
        ensures ServerBacked(tls, shares, Step(tls, w, e), Step(tls, w, e).servers[k])
      {
        StepBacked(tls, shares, w, e, k);
      }
    }
  }

  /** In every run over an arbitrary network: behind a server that is done with a required client
      certificate, and whose client's key share is known, stands the client with that share; it is
      done too, has a chain of its own and holds the same transcript hash. */
  lemma CompletedServer(tls: Tls, shares: set<PublicKey>, events: seq<Event>, j: nat) returns (i: nat)
    requires tls.curve.order > 1 && FinishedLegal(tls, shares, events)
    requires var w := After(tls, events);
             && j < |w.servers| && w.servers[j].stage.ServerDone? && w.servers[j].config.requireAuth
             && w.servers[j].answer.Some? && w.servers[j].answer.value.hello.share in shares
    ensures var w := After(tls, events);
            && i < |w.clients| && w.clients[i].ClientDone? && w.clients[i].config.chain != []
            && tls.publicOf(w.clients[i].sk) == w.servers[j].answer.value.hello.share
            && w.clients[i].t == w.servers[j].t
  {
    var w := After(tls, events);
    ReachableBacked(tls, shares, events);
    hide After, FinishedLegal;
    var s := w.servers[j];
    assert ServerBacked(tls, shares, w, s);
    i :| 0 <= i < |w.clients| && SentBy(tls, w.clients[i], s.answer.value.hello.share, s.t);
  }

  // ---------------------------------------------------------------- what it does not need

  lemma FinishedOne(tls: Tls, shares: set<PublicKey>, events: seq<Event>, e: Event)
    requires tls.curve.order > 1
    ensures FinishedLegal(tls, shares, events + [e])
            <==> FinishedLegal(tls, shares, events) && FinishedUnforged(tls, shares, After(tls, events), e)
  {
    hide Step, FinishedUnforged, After;
    var all := events + [e];
    assert all[..|all| - 1] == events && all[|all| - 1] == e;
  }

  /** The records a server reads in an honest exchange with a client certificate. */
  function ClientRecord(u: Honest.Setup, p: nat): (record: Bytes)
    requires u.client.chain != [] && p < 3
  {
    if p == 0 then Honest.FlightOf(u).ch else Honest.LastFlight(u)[p - 1]
  }

  lemma ServerMoves(u: Honest.Setup, p: nat)
    requires u.tls.curve.order > 1 && Honest.Honest(u) && u.server.requireAuth && u.client.chain != [] && p < 3
    ensures ServerReceive(u.tls, Honest.ServerAt(u, p), ClientRecord(u, p)).server == Honest.ServerAt(u, p + 1)
  {
    if p == 0 {
      hide Honest.Honest, OnClientHello, Honest.FlightOf, Honest.Agreed, Honest.FirstFlight;
      Honest.ServerAnswers(u);
    } else {
      hide Honest.Honest, ServerReceive, Honest.ServerAt, Honest.LastFlight;
      Honest.ServerFollows(u, p - 1);
    }
  }

  lemma OpenedAlone(u: Honest.Setup, honest: set<PublicKey>) returns (events: seq<Event>)
    requires u.tls.curve.order > 1 && 0 < u.sk < u.tls.curve.order && u.server.chain != []
    ensures Legal(u.tls, honest, events) && FinishedLegal(u.tls, {}, events)
    ensures After(u.tls, events) == World([], [ServerStart(u.server, u.sk)])
  {
    var e := OpenServer(u.server, u.sk);
    AfterOne(u.tls, honest, [], e);
    FinishedOne(u.tls, {}, [], e);
    events := [] + [e];
  }

  /** Without any client: the server reads p of the records. */
  lemma {:induction false} ServerReadsAlone(u: Honest.Setup, honest: set<PublicKey>, p: nat)
    returns (events: seq<Event>)
    requires u.tls.curve.order > 1 && Honest.Honest(u) && u.server.requireAuth && u.client.chain != [] && p <= 3
    ensures Legal(u.tls, honest, events) && FinishedLegal(u.tls, {}, events)
    ensures After(u.tls, events) == World([], [Honest.ServerAt(u, p)])
  {
    hide Honest.Honest, Honest.ServerAt, ClientRecord, ServerReceive, After, Legal, FinishedLegal;
    if p == 0 {
      HonestServer(u);
      events := OpenedAlone(u, honest);
    } else {
      var before := ServerReadsAlone(u, honest, p - 1);
      var s, s' := Honest.ServerAt(u, p - 1), Honest.ServerAt(u, p);
      var e := ToServer(0, ClientRecord(u, p - 1));
      ServerMoves(u, p - 1);
      AfterOne(u.tls, honest, before, e);
      FinishedOne(u.tls, {}, before, e);
      assert [s][0 := s'] == [s'];
      events := before + [e];
    }
  }

  lemma HonestServer(u: Honest.Setup)
    requires u.tls.curve.order > 1 && Honest.Honest(u)
    ensures 0 < u.sk < u.tls.curve.order && u.server.chain != []
    ensures Honest.ServerAt(u, 0) == ServerStart(u.server, u.sk)
  {
  }

  /** A share that is nobody's in the world leaves no client behind it: the records of any honest
      exchange take a server through to the end of a run that has no client, whatever trusted
      chain they carry. The key of that chain takes no part. */
  lemma ServerDoneAlone(u: Honest.Setup, honest: set<PublicKey>) returns (events: seq<Event>)
    requires u.tls.curve.order > 1 && Honest.Honest(u) && u.server.requireAuth && u.client.chain != []
    ensures Legal(u.tls, honest, events) && FinishedLegal(u.tls, {}, events)
    ensures var w := After(u.tls, events);
            && w.clients == [] && |w.servers| == 1 && w.servers[0].config == u.server
            && w.servers[0].stage.ServerDone?
  {
    hide Honest.Honest, Honest.FlightOf, After, Legal, FinishedLegal;
    events := ServerReadsAlone(u, honest, 3);
  }

  // ---------------------------------------------------------------- a run with the client behind it

  function ClientReads(p: nat): (n: nat) { if p <= 1 then 0 else if p <= 5 then p - 1 else 4 }

  function ServerReads(p: nat): (n: nat) { if p == 0 then 0 else if p <= 5 then 1 else p - 4 }

  function BothAt(u: Honest.Setup, p: nat): (w: World)
    requires u.tls.curve.order > 1
  {
    World([Honest.ClientAt(u, ClientReads(p))], [Honest.ServerAt(u, ServerReads(p))])
  }

  /** The p-th delivery of an honest exchange with a client certificate. */
  function BothEvent(u: Honest.Setup, p: nat): (e: Event)
    requires u.client.chain != [] && p < 7
  {
    if 1 <= p <= 4 then ToClient(0, Honest.FirstFlight(u)[p - 1]) else ToServer(0, ClientRecord(u, ServerReads(p)))
  }

  lemma BothStep(u: Honest.Setup, p: nat)
    requires u.tls.curve.order > 1 && Honest.Honest(u) && u.server.requireAuth && u.client.chain != [] && p < 7
    ensures Step(u.tls, BothAt(u, p), BothEvent(u, p)) == BothAt(u, p + 1)
  {
    hide Honest.Honest, Honest.ServerAt, Honest.ClientAt, Honest.FirstFlight, Honest.LastFlight, ClientRecord,
      ServerReceive, ClientReceive;
    if 1 <= p <= 4 {
      Honest.ClientFollows(u, p - 1);
      var c' := Honest.ClientAt(u, p);
      assert [Honest.ClientAt(u, p - 1)][0 := c'] == [c'];
    } else {
      var n := ServerReads(p);
      ServerMoves(u, n);
      var s' := Honest.ServerAt(u, n + 1);
      assert [Honest.ServerAt(u, n)][0 := s'] == [s'];
    }
  }

  lemma BothUnforged(u: Honest.Setup, p: nat)
    requires u.tls.curve.order > 1 && u.client.chain != [] && p < 7
    ensures FinishedUnforged(u.tls, {u.tls.publicOf(u.ck)}, BothAt(u, p), BothEvent(u, p))
  {
    hide Honest.FlightOf, Honest.Agreed, ClientRecord;
    if p == 6 {
      var w := BothAt(u, 6);
      assert SentBy(u.tls, w.clients[0], u.tls.publicOf(u.ck), w.servers[0].t);
    }
  }

  lemma {:induction false} BothRead(u: Honest.Setup, p: nat) returns (events: seq<Event>)
    requires u.tls.curve.order > 1 && Honest.Honest(u) && u.server.requireAuth && u.client.chain != [] && p <= 7
    ensures FinishedLegal(u.tls, {u.tls.publicOf(u.ck)}, events)
    ensures After(u.tls, events) == BothAt(u, p)
  {
    hide Honest.Honest, BothAt, BothEvent, After, FinishedLegal, FinishedUnforged, Step;
    var shares := {u.tls.publicOf(u.ck)};
    if p == 0 {
      events := BothOpened(u);
    } else {
      var before := BothRead(u, p - 1);
      var e := BothEvent(u, p - 1);
      BothStep(u, p - 1);
      BothUnforged(u, p - 1);
      AfterOne(u.tls, {}, before, e);
      FinishedOne(u.tls, shares, before, e);
      events := before + [e];
    }
  }

  lemma BothOpened(u: Honest.Setup) returns (events: seq<Event>)
    requires u.tls.curve.order > 1 && Honest.Honest(u)
    ensures FinishedLegal(u.tls, {u.tls.publicOf(u.ck)}, events)
    ensures After(u.tls, events) == BothAt(u, 0)
  {
    HonestServer(u);
    Honest.StartsOnLine(u);
    assert 0 < u.ck < u.tls.curve.order && ClientStart(u.tls, u.client, u.ck).client == Honest.ClientAt(u, 0);
    hide Honest.Honest, Honest.ClientAt, Honest.ServerAt, ClientStart;
    var shares := {u.tls.publicOf(u.ck)};
    var e1, e2 := OpenClient(u.client, u.ck), OpenServer(u.server, u.sk);
    AfterOne(u.tls, {}, [], e1);
    FinishedOne(u.tls, shares, [], e1);
    AfterOne(u.tls, {}, [] + [e1], e2);
    FinishedOne(u.tls, shares, [] + [e1], e2);
    events := [] + [e1] + [e2];
  }

  /** The premises of CompletedServer can be met: an honest exchange with a client certificate is
      such a run. */
  lemma CompletedServerExists(u: Honest.Setup) returns (events: seq<Event>)
    requires u.tls.curve.order > 1 && Honest.Honest(u) && u.server.requireAuth && u.client.chain != []
    ensures FinishedLegal(u.tls, {u.tls.publicOf(u.ck)}, events)
    ensures var w := After(u.tls, events);
            && |w.servers| == 1 && w.servers[0].stage.ServerDone? && w.servers[0].config.requireAuth
            && w.servers[0].answer.Some? && w.servers[0].answer.value.hello.share == u.tls.publicOf(u.ck)
  {
    hide Honest.Honest, Honest.FlightOf, Honest.Agreed, After, FinishedLegal;
    events := BothRead(u, 7);
  }
}
