# Verified model of the GM cryptography stack

A Dafny 4.11 model of the protocol, mode, codec and state-keeping code of the GM workspace
(gm-crypto, gm-tls, gm-sm9-rs, gm-ca, gm-der, gm-http-client), with proofs about every input and
every run. `dafny verify dfyconfig.toml` checks the whole project.

What the proofs are about:

* **Key agreement as protocols.** `Sm2Kex` is the three-message SM2 key exchange session and
  `Sm2KexRuns` any number of such sessions over a network that delivers whatever it likes.
  `GmTls` is the full GM/TLS 1.3 handshake as client and server step machines, `GmTlsDriver` the
  sequential code that reads and writes records, `GmTlsHonest` a client and a server under every
  schedule of deliveries, `GmTlsAgreement` any number of both over an arbitrary network,
  `GmTlsHello` where a hello ends, `GmTlsTail` runs in which bytes follow a ClientHello, and
  `GmTlsFinished` what a server that required a client certificate knows of its client.
  `GmTlsExact` says when each side completes, for the whole handshake, in terms of the records.
* **SM9 algebra.** `Sm9Group`, `Sm9Sign`, `Sm9Encrypt`, `Sm9KeyExchange`: every correctness proof
  carries the extraction inverse s / (h1 + s) through a pairing.
* **State over time.** `Limiter` (per-caller token buckets with reaping), `KeyRotation` (versions,
  grace periods, pruning), `Pool` (idle connections): each is shown equal, in every run, to a much
  simpler object.
* **Modes, codecs and key streams.** `Sm4`, `Sm4Gcm`, `Der`, `Certificate`,
  `CertificateTime`, `CertificateValues`, `Sm2Cipher`, `Kdf`.

`Bytes`, `ModArith`, `Retry` and `Sm2Curve` hold what these share. `Consistency` shows that the
assumptions can be met: a small group and curve with the stated laws, an honest handshake setting,
and legal runs over the arbitrary network in which both protocols complete.

How the primitives appear:

* SM3, HMAC-SM3, the block cipher and the GHASH multiplication are arbitrary functions with
  fixed-size results. The block cipher has an inverse where a theorem says so.
* Curve points are multiples of a generator and pairings are products of exponents modulo N, so
  that commutativity and bilinearity are arithmetic. Every non-zero exponent has an inverse.
* Signatures are unforgeable in the sense that an honest key's signature which a party accepts was
  made by a session holding the key. Collision freedom is assumed only of the strings hashed in
  the run at hand.
* Clocks, random draws and records from the network are parameters. Loops over random draws take
  an infinite sequence of draws.
* Failing library calls (signing, encoding, parsing) are `Option` or `Result` values and every
  error path of the code is followed.

Where a promised law holds only in part, the exact condition is proved:

* The reaping limiter decides like one that never reaps, over runs with one clock reading per
  call, if and only if `refill_period` is at most `idle_ttl + 1` or the capacity is 0
  (`Limiter.ReapingInvisible`). The code reads the clock up to three times per call, and a bucket
  made anew is dated by an earlier reading than one refilled; over all such runs the two decide
  alike if and only if `refill_period` is at most one tick or the capacity is 0
  (`Limiter.ReapingInvisibleAnyReadings`). In every run reaping does no more than shorten the
  period to the smaller of `refill_period` and `idle_ttl + 1` and pick one of the readings
  (`Limiter.ReapingShortensPeriod`).
* The two DER formats of SM2 ciphertexts fail on exactly one admitted plaintext length, 65536
  (`Sm2Cipher.DecryptUndoesEncrypt`).
* CBC decryption answers the empty plaintext for the empty ciphertext, which no plaintext encrypts
  to (`Sm4.CbcIffExactly`).
* The 128-bit counter of GCM equals inc32 up to the standard's limit and not one block further
  (`Sm4Gcm.CountersAgree`).
* An authority key identifier reads back below 128 bytes only (`Certificate.AuthorityKeyIdRoundTrip`).
* SM9 ciphertexts parse back unless C1 is the point at infinity
  (`Sm9Encrypt.SerialisationRoundTrip`).
* The example in the key exchange documentation extracts keys under hid 0x02 while the code hashes
  identities under 0x03; the two sides then reach the same secrets if and only if the hashes of
  both identities agree (`Sm9KeyExchange.OtherHidAgreesExactly`), and a group and hash are given in
  which they do not (`Consistency.EncryptionKeysDisagree`).
* A client that completes the GM/TLS handshake shares its ClientHello, its ServerHello and the
  derived secrets with the holder of the certificate key if and only if the server's decoder used
  the whole ClientHello record it was given (`GmTlsAgreement.Agreement`). The decoders of the
  source (`gm-tls/src/handshake.rs`, lines 162 and 598) stop at the end of the extension block and
  leave what follows unread, while the transcript hash runs over both records without a mark
  between them. A server that refuses a ClientHello with bytes left over has the property; without
  that it fails, and a run in which it fails is given (`Consistency.TailedHelloRun`).
* A server that required a client certificate checks the client's Finished under the key share of
  the ClientHello (`gm-tls/src/gm.rs`, line 797). If that share is a client's whose signatures are
  not forged, the client is done with the same transcript hash (`GmTlsFinished.CompletedServer`);
  of other shares this does not follow (`GmTlsFinished.ServerDoneAlone`).
* A validity time reads back unless its year is negative or one of 1950 to 1999: those take the
  two-digit form but are written with three digits (`CertificateTime.TimeRoundTrip`).
* A failing SM2 `process_msg2` leaves state and result alone but may have recorded the peer
  (`Sm2KexRuns.FailureKeepsState`).

## Model

| member | source | states |
|---|---|---|
| `Sm2Kex.ValidateUserId` | gm-crypto/src/sm2_kex.rs:671-686 | accepts exactly 1 to 16 bytes and pads them with zeros on the right |
| `Sm2Kex.FlatInjective` | gm-crypto/src/sm2_kex.rs:355-360 | the signed string A_ID, B_ID, R1, R2 determines all four parts |
| `Sm2Kex.KexSession.constructor` | gm-crypto/src/sm2_kex.rs:217-258 | a new session is in the initial state with no peer and no result |
| `Sm2Kex.KexSession.GenerateFirst` | gm-crypto/src/sm2_kex.rs:296-312 | message 1, refused for a responder or outside the initial state |
| `Sm2Kex.KexSession.ReceiveFirst` | gm-crypto/src/sm2_kex.rs:322-371 | the new state and the answer are those of the step function, on every accepting and refusing path, including a peer stored before signing fails |
| `Sm2Kex.KexSession.ReceiveSecond` | gm-crypto/src/sm2_kex.rs:381-453 | the same for message 2; the peer is stored before its signature is checked |
| `Sm2Kex.KexSession.ReceiveThird` | gm-crypto/src/sm2_kex.rs:459-547 | the same for message 3 |
| `Sm2Kex.KexSession.ComputeSecret` | gm-crypto/src/sm2_kex.rs:550-613 | the shared secret and confirmation value are those of the session's transcript and shared point, for both roles |
| `Sm2KexRuns.CallKeepsInv` | gm-crypto/src/sm2_kex.rs:322-547 | every call keeps: a result is present exactly in Completed, WaitForResponse and Failed do not occur, a waiting session is a responder with a peer, and a completed session's result is the one its own transcript and shared point give |
| `Sm2KexRuns.ReachableInv` | gm-crypto/src/sm2_kex.rs:296-547 | that invariant in every state reached by any sequence of calls, and the session's keys, identity and role never change |
| `Sm2KexRuns.NewSessionInv` | gm-crypto/src/sm2_kex.rs:217-258 | new sessions satisfy it |
| `Sm2KexRuns.FailureKeepsState` | gm-crypto/src/sm2_kex.rs:322-547 | a failing call leaves state and result unchanged; the only field it can change is the peer, and only in the initial state |
| `Sm2KexRuns.CompletedIsFinal` | gm-crypto/src/sm2_kex.rs:322-547 | after completion every further call fails and nothing changes, for any number of calls |
| `Sm2KexRuns.ResponderCompletesExactly` | gm-crypto/src/sm2_kex.rs:459-547 | a responder completes if and only if it is waiting and a third message carries the confirmation it recomputes from its own transcript |
| `Sm2KexRuns.SharedPointsMeet` | gm-crypto/src/sm2_kex.rs:477-486 | both sides reach one shared point: [a]([b]G) is [b]([a]G) |
| `Sm2KexRuns.SharedPointIs` | gm-crypto/src/sm2_kex.rs:477-486 | the point that scalars a and b share is the multiple a b of the generator, an error when that is the identity |
| `Sm2KexRuns.ResponderAnswersExactly` | gm-crypto/src/sm2_kex.rs:322-371 | a responder answers exactly a first message with a point on the curve other than the identity, in its initial state, when it can sign A_ID, B_ID, R1, R2 |
| `Sm2KexRuns.InitiatorCompletesExactly` | gm-crypto/src/sm2_kex.rs:381-453 | an initiator completes exactly on a second message, in its initial state, whose point is on the curve, whose multiple is not the identity and whose signature over A_ID, B_ID, R1, R2 verifies |
| `Sm2KexRuns.CompletedResult` | gm-crypto/src/sm2_kex.rs:550-613 | shared secret, session key and confirmation of a completed session as hashes of the shared point, identities, ephemeral points and label |
| `Sm2KexRuns.SecretCovers` | gm-crypto/src/sm2_kex.rs:550-613 | up to a collision on what the two hashed, two completed sessions hold the same shared secret if and only if transcripts and shared points are equal, and the same session key if and only if the same shared secret |
| `Sm2KexRuns.RunSecretsCovered` | gm-crypto/src/sm2_kex.rs:322-613 | that for any two completed sessions of any run over an arbitrary network |
| `Sm2KexRuns.ConfirmationCovers` | gm-crypto/src/sm2_kex.rs:585-613 | up to collisions two confirmations are equal if and only if identity, R1, R2, shared point and shared secret are |
| `Sm2KexRuns.MirroredSameSecrets` | gm-crypto/src/sm2_kex.rs:477-547 | sessions with mirrored transcripts compute equal shared secrets and session keys, and the initiator's confirmation is the value the responder recomputes |
| `Sm2KexRuns.DeliverKeepsInv` | gm-crypto/src/sm2_kex.rs:322-547 | one delivery to any session of a world keeps: every signature recorded has a session that made it over its own transcript, and every initiator completed against an honest key is backed by one |
| `Sm2KexRuns.ReachableWorld` | gm-crypto/src/sm2_kex.rs:322-547 | that world invariant after any interleaving of session openings and deliveries in which honest signatures are not forged |
| `Sm2KexRuns.Agreement` | gm-crypto/src/sm2_kex.rs:322-547 | in every such run an initiator completed against an honest key has a partner session holding that key, and exactly (A_ID, B_ID, R1, R2) is recorded as signed by it; if the partner completed, shared secret and session key are equal; if it still waits, the initiator's confirmation completes it |
| `Sm2KexRuns.SecondAccepted` | gm-crypto/src/sm2_kex.rs:296-453 | the answer of an undisturbed responder is accepted and leaves the two sessions mirrored |
| `Sm2KexRuns.UndisturbedExchange` | gm-crypto/src/sm2_kex.rs:296-547 | delivered in order, the three messages complete both sessions with equal shared secret and session key |
| `GmTls.DeriveKeyIv` | gm-tls/src/kdf.rs:28-36 | key and nonce are the HKDF outputs under the labels key and iv; no error is possible at these lengths |
| `GmTls.DeriveSessionKeys` | gm-tls/src/kdf.rs:112-155 | computes the declared key schedule from the shared point and fails exactly on the identity |
| `GmTls.KeySchedule` | gm-tls/src/kdf.rs:28-155 | the whole key schedule as HMACs over the shared coordinates and the labels; each side writes with its own secret and reads with the other's |
| `GmTls.SecretsCover` | gm-tls/src/kdf.rs:112-155 | up to HMAC collisions two shared points give the same master secret if and only if their coordinates are equal, and the two directions have different secrets |
| `Kdf.HkdfChain` | gm-tls/src/kdf.rs:54-106 | each whole block of the output is the HMAC, under HMAC(salt, ikm), of the block before it, the info and the block's number |
| `Kdf.HkdfPrefix` | gm-tls/src/kdf.rs:54-106 | a longer output extends a shorter one |
| `GmTlsDriver.Connect` | gm-tls/src/gm.rs:452-590 | the sequential client, on any records that arrive: result, records written and records left unread are those of the client step machine |
| `GmTlsDriver.ReadCertificate` | gm-tls/src/gm.rs:463-549 | the same for the part from the server's Certificate on, with chain checks before CertificateVerify is read |
| `GmTlsDriver.ReadFinished` | gm-tls/src/gm.rs:551-590 | the same for the server's Finished and the client's own last flight, sent only with a client certificate |
| `GmTlsDriver.Accept` | gm-tls/src/gm.rs:641-824 | the sequential server, on any records that arrive, equals the server step machine, also where an error cuts its first flight short |
| `GmTlsDriver.AnswerHello` | gm-tls/src/gm.rs:641-744 | the server's first flight: key schedule before ServerHello is sent, optional Certificate, then CertificateVerify and Finished |
| `GmTlsDriver.SignFlight` | gm-tls/src/gm.rs:723-744 | CertificateVerify signs the transcript so far, Finished the transcript with CertificateVerify added |
| `GmTlsDriver.ReadClientAuth` | gm-tls/src/gm.rs:746-804 | client Certificate and Finished are read and checked only when required |
| `GmTlsExact.ClientCompletesExactly` | gm-tls/src/gm.rs:452-590 | the client completes on a sequence of records if and only if the first four pass every check (chain present and trusted, CertificateVerify under the chain's key, usable share, Finished under the share, over the chained SM3 transcript); its state, what it sent and what it left unread are then as stated |
| `GmTlsExact.AnswersExactly` | gm-tls/src/gm.rs:641-744 | the server's whole first flight and state for a ClientHello, and when there is none |
| `GmTlsExact.ServerCompletesExactly` | gm-tls/src/gm.rs:641-824 | the server completes if and only if it can answer the first record and, where it requires a client certificate, the next two carry a trusted non-empty chain and a Finished that verifies under the client's share |
| `GmTlsAgreement.TrustInEveryRun` | gm-tls/src/gm.rs:452-804 | in every run over an arbitrary network, a client that checks chains is past the Certificate only with a non-empty chain it trusts, and a server that requires a client certificate likewise |
| `GmTlsDriver.FindCrlIssuer` | gm-tls/src/gm.rs:105-122 | the first trust anchor whose subject is the list's issuer; success if and only if such an anchor exists with every anchor before it parsing |
| `GmTlsHonest.ServerAnswers` | gm-tls/src/gm.rs:641-744 | an honest server answers the client's hello with ServerHello, Certificate, CertificateVerify and Finished over the three transcript hashes |
| `GmTlsHonest.ClientFollows` | gm-tls/src/gm.rs:452-575 | an honest client accepts each of those records in turn |
| `GmTlsHonest.ServerFollows` | gm-tls/src/gm.rs:746-804 | an honest server that requires it accepts the client's Certificate and Finished |
| `GmTlsHonest.DeliveryOnLine` | gm-tls/src/gm.rs:452-824 | from every state of the exchange a delivery moves to the one next state or does nothing, and nothing can be delivered only in the last state |
| `GmTlsHonest.RunOnLine` | gm-tls/src/gm.rs:452-824 | every schedule of deliveries leads to some state of that one line |
| `GmTlsHonest.HandshakeCompletes` | gm-tls/src/gm.rs:452-824 | whatever the schedule, once nothing can be delivered both sides have equal transcript hashes and each writes with the secret the other reads with; both are done with no record unread if and only if the client has a certificate exactly when one is required |
| `GmTlsHonest.HandshakeTerminates` | gm-tls/src/gm.rs:452-824 | the exchange comes to that point on every schedule, in whatever order, that delivers to each side as many times over as the exchange has steps |
| `GmTlsHonest.ConnectMeetsAccept` | gm-tls/src/gm.rs:452-824 | the records the sequential client and server write are those the other reads |
| `GmTlsAgreement.ClientKeeps` | gm-tls/src/gm.rs:452-575 | each record keeps what a client state says about its hellos, transcript, secrets and the signature behind them |
| `GmTlsAgreement.ServerKeeps` | gm-tls/src/gm.rs:641-804 | each record keeps what a server state says about the view it signed, and that view never changes |
| `GmTlsAgreement.ReachableWorld` | gm-tls/src/gm.rs:452-824 | those facts for all clients and servers after any interleaving of openings and deliveries without forged honest signatures |
| `GmTlsAgreement.ViewsMeet` | gm-tls/src/gm.rs:457-545 | a signed view that the client's check accepts has the client's Certificate message and the client's hellos one after the other |
| `GmTlsAgreement.EqualHellosEqualSecrets` | gm-tls/src/gm.rs:547-549 | equal hellos give both sides equal secrets |
| `GmTlsAgreement.UsedSettlesLength` | gm-tls/src/gm.rs:641-643 | the server's ClientHello record begins with the client's and decodes to it; the two records are equal if and only if the server's decoder leaves no byte over |
| `GmTlsFinished.ReachableBacked` | gm-tls/src/gm.rs:746-804 | after any interleaving of openings and deliveries, every server that is done with a required client certificate, and whose client's key share is known and unforged, has the client behind that share |
| `GmTlsFinished.CompletedServer` | gm-tls/src/gm.rs:746-804 | on an arbitrary network that client is done, has a chain of its own and holds the server's transcript hash |
| `GmTlsFinished.ServerDoneAlone` | gm-tls/src/gm.rs:746-804 | for a share that is no client's the same does not follow: the records of any honest exchange with any trusted non-empty chain take the server to its end in a legal run without clients, because the Finished is checked under the key share of the ClientHello |
| `GmTlsFinished.CompletedServerExists` | gm-tls/src/gm.rs:452-804 | an honest exchange with a client certificate meets the premises of CompletedServer |
| `Consistency.SmallServerDoneAlone` | gm-tls/src/gm.rs:746-804 | a concrete such run for every non-empty client chain |
| `GmTlsAgreement.Agreement` | gm-tls/src/gm.rs:452-824 | on an arbitrary network a client that completes with a certificate for an honest key has a server holding that key and configured with that chain, which signed the same Certificate message and decoded the client's own ClientHello; the two hold the same ClientHello and ServerHello records and the same secrets if and only if the server's ClientHello decoder used the whole record it was given |
| `GmTlsHello.ServerFrameKept` | gm-tls/src/handshake.rs:598-682 | a ServerHello (one cipher suite, one compression method) with an extension block is read the same, up to the end of that block, whatever bytes follow it |
| `GmTlsHello.ServerEncodedIsWhole` | gm-tls/src/handshake.rs:563-595 | what the ServerHello encoder writes, within the ranges of its length fields, is read to its last byte |
| `GmTlsHello.FrameKept` | gm-tls/src/handshake.rs:162-276 | a ClientHello with an extension block is read the same, up to the end of that block, whatever bytes follow it |
| `GmTlsHello.EncodedIsWhole` | gm-tls/src/handshake.rs:122-159 | what the encoder writes, within the ranges of its length fields, is read to its last byte |
| `GmTlsHello.ReadExactly` | gm-tls/src/handshake.rs:122-276 | a ClientHello with an extension block is read exactly from what the encoder writes within its ranges and any bytes after it |
| `GmTlsHello.ServerReadExactly` | gm-tls/src/handshake.rs:563-682 | the same of a ServerHello |
| `GmTlsAgreement.SourceSelfDelimiting` | gm-tls/src/handshake.rs:122-276 | so a ClientHello encoder and decoder with the source's layout are self-delimiting for every hello with a key share: added bytes change neither what is read nor how far, and nothing written is left unread |
| `GmTlsTail.TailedRun` | gm-tls/src/handshake.rs:162-276 | records in which bytes follow the ClientHello and precede the ServerHello make a legal run in which the client completes |
| `GmTlsTail.TailedApart` | gm-tls/src/handshake.rs:162-276 | in that run the two sides hold different ClientHello and ServerHello records and, with another key share in the added bytes, different shares |
| `Consistency.TailedHelloRun` | gm-tls/src/handshake.rs:598-682 | a concrete such run under all premises of the agreement theorem, with the source's layouts of both hellos: without the condition on used bytes the conclusion fails |
| `Sm9Group.ReduceOnce` | gm-sm9-rs/src/key/mod.rs:118-125 | one conditional subtraction is reduction modulo N |
| `Sm9Group.ExtractionCancels` | gm-sm9-rs/src/key/mod.rs:126-131 | multiplying by h1 + s and then by the user exponent leaves multiplication by s: the inverse cancels |
| `Sm9Group.UserExponentNonZero` | gm-sm9-rs/src/key/mod.rs:126-135 | a user exponent is never zero |
| `Sm9Group.PairWithUserKey` | gm-sm9-rs/src/key/mod.rs:167-196 | pairing a multiple r of the identity point with the key extracted under the same hid gives e(Ppub, P2)^r, and the multiple is not the identity |
| `Sm9Group.PairAcrossHids` | gm-sm9-rs/src/key/mod.rs:167-196 | under another hid it does so if and only if H1 gives the identity the same scalar |
| `Sm9Group.ExtractedExactly` | gm-sm9-rs/src/key/mod.rs:167-196 | a key is extracted if and only if neither s nor H1 + s is 0 modulo N, and is then the d with d (H1 + s) = s |
| `Sm9Sign.SignKeyExactly` | gm-sm9-rs/src/key/mod.rs:110-135 | the same of a signing key, a point of G1 |
| `Sm9KeyExchange.ConstantTimeEq` | gm-sm9-rs/src/key_exchange.rs:434-443 | the accumulating loop decides equality |
| `Sm9KeyExchange.KdfKeyExchange` | gm-sm9-rs/src/key_exchange.rs:363-398 | the loop yields the key stream over IDA, IDB, RA, RB, g1, g2, g3 in that order, for every length |
| `Sm9KeyExchange.Sm3Multi` | gm-sm9-rs/src/key_exchange.rs:425-431 | hashing chunk by chunk is hashing the chunks one after the other |
| `Sm9KeyExchange.ConfirmationCovers` | gm-sm9-rs/src/key_exchange.rs:285-328 | up to hash collisions two confirmation values are equal if and only if the role bytes, the serialised g1, g2 and g3, both points and the two identities written one after the other are equal; where one identity ends and the other begins is not covered |
| `Sm9KeyExchange.KeyCovers` | gm-sm9-rs/src/key_exchange.rs:363-398 | up to a collision on the first hash, the keys a responder and an initiator output are equal, at 32 bytes or more, if and only if the serialised g1, g2 and g3, both points and the two identities written one after the other are equal |
| `Sm9KeyExchange.FinishesExactly` | gm-sm9-rs/src/key_exchange.rs:230-280 | the initiator finishes if and only if the point is not the identity and S_B, if present, is the nested hash under 0x82; S_A is the same under 0x83 |
| `Sm9KeyExchange.RespondsWith` | gm-sm9-rs/src/key_exchange.rs:162-213 | the responder's S_B is that nested hash, sent if and only if asked for |
| `Sm9KeyExchange.SecretsAre` | gm-sm9-rs/src/key_exchange.rs:120-280 | g1, g2 and g3 are e(Ppub, P2) raised to rA, rB and rA rB |
| `Sm9KeyExchange.VerifyConfirmation` | gm-sm9-rs/src/key_exchange.rs:333-345 | accepts exactly the confirmation 0x83 over g1 and the inner hash |
| `Sm9KeyExchange.ResponderProcess` | gm-sm9-rs/src/key_exchange.rs:162-213 | fails exactly when the received point is the identity |
| `Sm9KeyExchange.Respond` | gm-sm9-rs/src/key_exchange.rs:162-213 | the responder step computes that function, with its own key derivation loop and optional confirmation |
| `Sm9KeyExchange.Finish` | gm-sm9-rs/src/key_exchange.rs:230-280 | the initiator step computes its function: the confirmation is compared before the key is derived |
| `Sm9KeyExchange.SecretsCoincide` | gm-sm9-rs/src/key_exchange.rs:120-280 | g1, g2 and g3 of the two sides coincide for all identities, master secrets and ephemerals, and neither exchanged point is the identity |
| `Sm9KeyExchange.ExchangeAgrees` | gm-sm9-rs/src/key_exchange.rs:120-345 | the whole run succeeds with or without confirmation: equal shared keys of every length, S_B accepted by the initiator, S_A accepted by verify_sa |
| `Sm9KeyExchange.OtherHidAgreesExactly` | gm-sm9-rs/src/key_exchange.rs:58-280 | with keys extracted under any other hid the two sides reach the same g1, g2 and g3 if and only if H1 gives both identities the same scalars under both |
| `Consistency.EncryptionKeysDisagree` | gm-sm9-rs/src/key_exchange.rs:18-40 | a concrete group and hash in which the documented example, with keys extracted under hid 2, brings no pair of ephemerals together |
| `Consistency.BothIdentitiesCount` | gm-sm9-rs/src/key_exchange.rs:58-280 | one in which only A's scalar differs: g1 agrees and the secrets do not |
| `Sm9Sign.Sign` | gm-sm9-rs/src/sign.rs:285-332 | the bounded retry loop returns the first attempt that is not rejected, or an error after 128 |
| `Sm9Sign.CommitmentRecovered` | gm-sm9-rs/src/sign.rs:305-378 | l d (h1 + s) + s h is s r: the verifier's exponent arithmetic |
| `Sm9Sign.RecoversCommitment` | gm-sm9-rs/src/sign.rs:351-379 | verification recomputes w' equal to the signer's w, for every message, identity and r |
| `Sm9Sign.SignatureNotIdentity` | gm-sm9-rs/src/sign.rs:307-310 | S is never the identity when l is not 0 |
| `Sm9Sign.SignatureVerifies` | gm-sm9-rs/src/sign.rs:285-388 | every r with l not 0 gives a signature that verifies |
| `Sm9Sign.FaultCheckSilent` | gm-sm9-rs/src/sign.rs:312-324 | with the matching identity the sign-then-verify check never asks for a retry; an attempt is repeated exactly when r equals its own challenge |
| `Sm9Sign.SigningSound` | gm-sm9-rs/src/sign.rs:285-388 | for all draws: what is returned verifies, the fault check does not change what is returned, and signing fails exactly when all 128 draws are rejected |
| `Sm9Sign.RecoversExactly` | gm-sm9-rs/src/sign.rs:351-379 | checked for any other identity, w' equals w if and only if H1 gives it the same scalar |
| `Sm9Sign.AcceptedExactly` | gm-sm9-rs/src/sign.rs:351-388 | a signature on m with exponent r is accepted for any message m' and identity if and only if H2(m', w') and H2(m, w) agree modulo N - 1, with w' the recovered value and w = e(P1, Ppubs)^r |
| `Sm9Sign.SignedAcceptedExactly` | gm-sm9-rs/src/sign.rs:285-388 | that for every signature the signing loop returns, with the draw it came from |
| `Sm9Sign.AcceptedInRange` | gm-sm9-rs/src/sign.rs:351-388 | whatever is accepted has S not the identity and h the recomputed challenge |
| `Sm9Encrypt.IsAllZeros` | gm-sm9-rs/src/encrypt.rs:318-320 | the fold decides whether every byte is zero |
| `Sm9Encrypt.KemEncryptImpl` | gm-sm9-rs/src/encrypt.rs:178-218 | the retry loop returns the first attempt whose key stream is not all zero, and stops with an error on a point at infinity |
| `Sm9Encrypt.KemAgrees` | gm-sm9-rs/src/encrypt.rs:178-268 | both sides derive one key stream through the pairing, and no draw fails |
| `Sm9Encrypt.OpenUndoesSeal` | gm-sm9-rs/src/encrypt.rs:155-250 | the masked message and its check value open under the same key stream, for every message |
| `Sm9Encrypt.DecryptUndoesEncrypt` | gm-sm9-rs/src/encrypt.rs:155-268 | decryption under the matching key and identity returns the message, including the empty one, whatever the draws |
| `Sm9Encrypt.EncryptFailsOnlyOnZeros` | gm-sm9-rs/src/encrypt.rs:178-218 | encryption fails if and only if for each of the 128 draws the key stream over C1, g^r and the identity is all zeros |
| `Sm9Encrypt.DecryptsExactly` | gm-sm9-rs/src/encrypt.rs:155-268 | decryption answers m if and only if C1 is not the identity, the key over C1, e(C1, de) and the identity is not all zeros, C2 is m masked with its first part and C3 the hash of its second part and C2 |
| `Sm9Encrypt.EncryptedAs` | gm-sm9-rs/src/encrypt.rs:155-218 | a ciphertext is C1 = [r]Q, the masked message and the check value for the key over C1, e(Ppub, P2)^r and the identity, for the r of one of the draws |
| `Sm9Encrypt.SerialisationRoundTrip` | gm-sm9-rs/src/encrypt.rs:49-136 | both byte orders parse back to the ciphertext if and only if C1 is not the point at infinity |
| `Limiter.TokenBucket.constructor` | gm-ca/src/service.rs:434-441 | a new bucket is full |
| `Limiter.TokenBucket.Refill` | gm-ca/src/service.rs:443-451 | a full refill once a whole period has passed, else no change |
| `Limiter.TokenBucket.TryConsume` | gm-ca/src/service.rs:453-461 | refill, then take a token if there is one |
| `Limiter.PerCallerLimiter.constructor` | gm-ca/src/service.rs:485-492 | no caller has a bucket |
| `Limiter.PerCallerLimiter.Retain` | gm-ca/src/service.rs:499-501 | exactly the buckets idle for longer than the time-to-live are dropped |
| `Limiter.PerCallerLimiter.CheckCall` | gm-ca/src/service.rs:497-512 | the whole map of shared mutable buckets after one check, and its decision |
| `Limiter.Isolation` | gm-ca/src/service.rs:497-512 | a caller's decisions in any run are those on the subsequence of its own calls, for any time-to-live and with up to three clock readings per call |
| `Limiter.ReapingShortensPeriod` | gm-ca/src/service.rs:497-512 | in every run, with up to three readings per call, the reaping limiter decides exactly like one that never reaps with refill period min(refill_period, idle_ttl + 1), on a run in which each call reads the clock once, at one of its own readings |
| `Limiter.OneReadingShortens` | gm-ca/src/service.rs:497-512 | with one reading per call, on the same run |
| `Limiter.DrainDiffers` | gm-ca/src/service.rs:497-512 | a concrete run, one reading per call, on which a time-to-live shorter than the refill period less one tick shows |
| `Limiter.TickDiffers` | gm-ca/src/service.rs:497-512 | a concrete run on which, with a longer time-to-live, the order of readings inside one call shows |
| `Limiter.ReapingInvisible` | gm-ca/src/service.rs:497-512 | over all runs with one reading per call, reaping changes no decision if and only if refill_period is at most idle_ttl + 1 or the capacity is 0 |
| `Limiter.ReapingInvisibleAnyReadings` | gm-ca/src/service.rs:497-512 | over all runs, with the readings the code takes, reaping changes no decision if and only if refill_period is at most one tick or the capacity is 0 |
| `Limiter.ConsumeBudget` | gm-ca/src/service.rs:443-461 | no call accepts more than it takes from what the bucket can still grant up to a given time, wherever in the call its deciding reading lies |
| `Limiter.RateBound` | gm-ca/src/service.rs:434-512 | in every run, with up to three readings per call, and every window of length L, one caller has at most capacity * (L / period + 2) accepted calls, period being refill_period or idle_ttl + 1 if shorter |
| `KeyRotation.KeyRing.constructor` | gm-sm9-rs/src/key_rotation.rs:104-122 | an empty ring |
| `KeyRotation.KeyRing.RegisterKey` | gm-sm9-rs/src/key_rotation.rs:129-148 | version 1, refused when any key is present |
| `KeyRotation.KeyRing.RotateKey` | gm-sm9-rs/src/key_rotation.rs:173-215 | supersede the current version with its grace period, install the next, wrapping at 32 bits, prune, and log the step |
| `KeyRotation.KeyRing.PruneExpired` | gm-sm9-rs/src/key_rotation.rs:372-392 | collecting and then removing versions one by one equals one filter |
| `KeyRotation.KeyRing.IsKeyValid` | gm-sm9-rs/src/key_rotation.rs:218-230 | present and active or not yet expired |
| `KeyRotation.RunClosedForm` | gm-sm9-rs/src/key_rotation.rs:129-392 | after any register/rotate run with a non-decreasing clock and fewer than 2^32 versions the retained versions, with their entries, are exactly those the pruning filter evaluated once at the last pruning over the whole history would keep |
| `KeyRotation.ValidityClosedForm` | gm-sm9-rs/src/key_rotation.rs:218-230 | a version is valid exactly when it is current or inside its grace period; pruning never shows |
| `KeyRotation.RemovedExactly` | gm-sm9-rs/src/key_rotation.rs:372-392 | a version that was made is gone if and only if a rotation happened, its grace period had ended at the last pruning and more than the retention limit of versions came after it |
| `KeyRotation.RetainedAsMade` | gm-sm9-rs/src/key_rotation.rs:129-392 | nothing else is in the ring, and what is there has the key, times and activity it was made with |
| `KeyRotation.LivesOfCalls` | gm-sm9-rs/src/key_rotation.rs:129-215 | each rotation makes one version with its key and time and lets the one before it expire after its grace period |
| `KeyRotation.RecordsOfCalls` | gm-sm9-rs/src/key_rotation.rs:173-215 | each rotation is on record with its time and grace period, in order |
| `KeyRotation.OneActive` | gm-sm9-rs/src/key_rotation.rs:129-215 | exactly one version is active, the current one |
| `KeyRotation.ValidityNeverReturns` | gm-sm9-rs/src/key_rotation.rs:129-240 | validity once lost does not come back, whatever follows |
| `KeyRotation.GraceKept` | gm-sm9-rs/src/key_rotation.rs:372-392 | a version missing from the ring had expired by the last pruning and lies below the retention window; none in its grace period is removed |
| `KeyRotation.HistoryChain` | gm-sm9-rs/src/key_rotation.rs:173-215 | the log is a gap-free chain of versions ending at the current one |
| `Pool.KeyInjective` | gm-http-client/src/pool.rs:82-82 | different hosts or ports have different keys, even when the host contains a colon |
| `Pool.PopIsNewest` | gm-http-client/src/pool.rs:85-96 | get yields the newest usable stream and removes only it from the usable ones; it yields nothing exactly when none is usable and then leaves an empty list |
| `Pool.GetExactly` | gm-http-client/src/pool.rs:77-100 | get yields the last entry that is alive and was used less than the idle limit ago, nothing exactly when there is none, and leaves other lists alone |
| `Pool.ReturnThenGet` | gm-http-client/src/pool.rs:77-116 | a stream returned to a list with room is the next one a get in time yields, if alive, and the list is then as before; a full list is unchanged |
| `Pool.CleanupExactly` | gm-http-client/src/pool.rs:119-128 | a cleanup keeps exactly the entries that are alive and fresh |
| `Pool.ConnectionPool.constructor` | gm-http-client/src/pool.rs:68-74 | an empty pool |
| `Pool.ConnectionPool.GetConnection` | gm-http-client/src/pool.rs:77-100 | the popping loop, on the list of that host and port only |
| `Pool.ConnectionPool.ReturnConnection` | gm-http-client/src/pool.rs:103-116 | appended with the current time, dropped when the list is full |
| `Pool.ConnectionPool.CleanUp` | gm-http-client/src/pool.rs:119-128 | every list is filtered, in whatever order the lists are visited |
| `Pool.RunInv` | gm-http-client/src/pool.rs:77-128 | in every run, including cleanups whose reading was taken before they waited for the lock, each list is ordered by last use and within max_per_host and each stream is in one place |
| `Pool.HandedOutOnce` | gm-http-client/src/pool.rs:77-116 | between two gets that yield one stream its owner returned it |
| `Pool.CleanupInvisible` | gm-http-client/src/pool.rs:77-128 | deleting every cleanup from a run without returns leaves all gets with the same streams, if dead streams stay dead, also when a cleanup comes with an older clock reading |
| `Bytes.XorAt` | gm-crypto/src/sm4.rs:142-158 | bit i of an exclusive-or is set if and only if exactly one of the two bits is |
| `Sm4.EncryptChunks` | gm-crypto/src/sm4.rs:142-158 | the chunk loop computes CBC encryption |
| `Sm4.DecryptChunks` | gm-crypto/src/sm4.rs:185-199 | the chunk loop computes CBC decryption |
| `Sm4.EncryptCbcRawImpl` | gm-crypto/src/sm4.rs:128-159 | refuses a wrong IV length and an empty or ragged input, else CBC |
| `Sm4.DecryptCbcRawImpl` | gm-crypto/src/sm4.rs:167-200 | the same for decryption |
| `Sm4.EncryptCbcImpl` | gm-crypto/src/sm4.rs:203-235 | always pads, by 1 to 16 bytes |
| `Sm4.DecryptCbcImpl` | gm-crypto/src/sm4.rs:238-297 | the padding scan stays inside the buffer and accepts exactly what Unpad accepts |
| `Sm4.CbcDecOfEnc` | gm-crypto/src/sm4.rs:128-200 | raw decryption undoes raw encryption |
| `Sm4.CbcEncOfDec` | gm-crypto/src/sm4.rs:128-200 | raw encryption undoes raw decryption |
| `Sm4.RawCbcIff` | gm-crypto/src/sm4.rs:128-200 | the raw pair are mutual inverses and fail on the same inputs |
| `Sm4.CbcChain` | gm-crypto/src/sm4.rs:142-158 | every ciphertext block is the encryption of its plaintext block masked with the ciphertext block before it, or the IV |
| `Sm4.PaddedAs` | gm-crypto/src/sm4.rs:203-235 | encrypt_cbc is encrypt_cbc_raw on the message and n bytes of value n that fill the last block |
| `Sm4.UnpadIffPad` | gm-crypto/src/sm4.rs:267-296 | removing padding succeeds with m if and only if padding m gives the buffer |
| `Sm4.CbcIff` | gm-crypto/src/sm4.rs:203-297 | for every non-empty aligned c, decrypt_cbc returns m if and only if encrypt_cbc of m is c |
| `Sm4.CbcIffExactly` | gm-crypto/src/sm4.rs:203-297 | on aligned inputs the equivalence holds if and only if c is not empty |
| `Sm4Gcm.Inc32InPlace` | gm-crypto/src/sm4.rs:452-456 | the in-place increment of the last four bytes, wrapping |
| `Sm4Gcm.StartCounter` | gm-crypto/src/sm4.rs:313-329 | J0 written into a block and incremented in place gives the first counter block |
| `Sm4Gcm.CountersAgree` | gm-crypto/src/sm4.rs:327-336 | the 128-bit counter blocks equal those of inc32 for n blocks if and only if n is at most 2^32 - 2, the limit of section 5.2.1.1 of NIST SP 800-38D |
| `Sm4Gcm.CountersPart` | gm-crypto/src/sm4.rs:327-336 | at the block after that they differ, for every nonce |
| `Sm4Gcm.StreamIsGctr` | gm-crypto/src/sm4.rs:327-336 | so every plaintext within the limit is masked with the GCTR stream |
| `Sm4Gcm.GHash.constructor` | gm-crypto/src/sm4.rs:318-322 | the hash state starts at zero |
| `Sm4Gcm.GHash.Update` | gm-crypto/src/sm4.rs:421-449 | the state after a row of blocks |
| `Sm4Gcm.GHash.UpdatePadded` | gm-crypto/src/sm4.rs:421-439 | whole blocks and a zero-padded last one |
| `Sm4Gcm.GHash.UpdateLengths` | gm-crypto/src/sm4.rs:442-449 | the block of the two bit lengths, each modulo 2^64 |
| `Sm4Gcm.Chunk` | gm-crypto/src/sm4.rs:421-439 | the chunk loop computes the padded blocks |
| `Sm4Gcm.FrameInjective` | gm-crypto/src/sm4.rs:421-449 | below 2^61 bytes the blocks GHASH sees determine additional data and ciphertext |
| `Sm4Gcm.FrameCollidesAtLimit` | gm-crypto/src/sm4.rs:442-449 | at 2^61 bytes they do not |
| `Sm4Gcm.ComputeTag` | gm-crypto/src/sm4.rs:318-348 | the tag is the masked GHASH of the frame |
| `Sm4Gcm.EncryptGcmImpl` | gm-crypto/src/sm4.rs:300-351 | the whole sealing operation and its refusals |
| `Sm4Gcm.DecryptGcmImpl` | gm-crypto/src/sm4.rs:354-417 | the whole opening operation and its refusals |
| `Sm4Gcm.GcmIff` | gm-crypto/src/sm4.rs:300-417 | decrypt_gcm returns p if and only if encrypt_gcm of p returns that ciphertext and tag |
| `Sm4Gcm.TagIsStandard` | gm-crypto/src/sm4.rs:318-348 | the tag is GHASH of the padded strings and lengths (sections 6.4 and 7.1 of NIST SP 800-38D) masked with the encryption of J0 |
| `Sm4Gcm.SealedAs` | gm-crypto/src/sm4.rs:300-351 | within the standard's limit byte i is masked with the encryption of the nonce and the counter 2 + i div 16, and the tag is the standard's |
| `Sm4Gcm.TagCovers` | gm-crypto/src/sm4.rs:318-348 | up to GHASH collisions two tags under one nonce are equal if and only if additional data and ciphertext are |
| `Sm2Cipher.DerEncodeInteger` | gm-crypto/src/sm2.rs:889-907 | appends the minimal non-negative INTEGER of a number |
| `Sm2Cipher.IntegerLenExact` | gm-crypto/src/sm2.rs:866-877 | the announced integer length is the length written if and only if the content octets are fewer than 128, and never too long |
| `Sm2Cipher.OctetStringLenExact` | gm-crypto/src/sm2.rs:879-887 | the announced octet-string length is the length written if and only if there are fewer than 65536 bytes, and never too long |
| `Sm2Cipher.IntegerRoundTrip` | gm-crypto/src/sm2.rs:1069-1104 | a 32-byte number reads back with its leading zeros and leaves the rest alone |
| `Sm2Cipher.RawToDerImpl` | gm-crypto/src/sm2.rs:817-859 | the DER writer with its length computed in advance |
| `Sm2Cipher.ReadInteger` | gm-crypto/src/sm2.rs:1069-1104 | one integer read at a cursor |
| `Sm2Cipher.ReadOctets` | gm-crypto/src/sm2.rs:1106-1122 | one octet string read at a cursor |
| `Sm2Cipher.DerToRawImpl` | gm-crypto/src/sm2.rs:801-815 | the cursor parser equals the parser on remaining input |
| `Sm2Cipher.AnnouncedExactly` | gm-crypto/src/sm2.rs:829-858 | the announced sequence length is the body's length if and only if C2 has fewer than 65536 bytes |
| `Sm2Cipher.RawDerRoundTrip` | gm-crypto/src/sm2.rs:801-859 | for every raw ciphertext of any length, raw to DER to raw is the identity if and only if C2 has fewer than 65536 bytes; otherwise the converter refuses |
| `Sm2Cipher.SignatureRoundTrip` | gm-crypto/src/sm2.rs:922-995 | every 64-byte signature survives DER |
| `Sm2Cipher.SameSecret` | gm-crypto/src/sm2.rs:537-726 | sender and receiver reach one point, not the identity unless C1 is |
| `Sm2Cipher.DecryptRawOfEncrypt` | gm-crypto/src/sm2.rs:537-726 | raw decryption returns the plaintext |
| `Sm2Cipher.Dispatch` | gm-crypto/src/sm2.rs:639-670 | the four formats reach the intended decoder |
| `Sm2Cipher.DecryptUndoesEncrypt` | gm-crypto/src/sm2.rs:537-726 | decryption undoes all four formats whenever encryption succeeds, the two DER ones exactly when the plaintext is not 65536 bytes, the one admitted length the converter announces wrongly |
| `Sm2Cipher.EncryptsExactly` | gm-crypto/src/sm2.rs:537-580 | encryption succeeds if and only if the plaintext has at most 65536 bytes and the shared point is not the identity, with C1 = [k]G, C3 the hash of the plaintext between the shared coordinates and C2 the plaintext masked with their key stream |
| `Sm2Cipher.DecryptsExactly` | gm-crypto/src/sm2.rs:672-726 | raw decryption answers m if and only if C1 is on the curve with a multiple that is not the identity and C2 and C3 are those of m |
| `Kdf.KdfSm3` | gm-crypto/src/sm2.rs:744-768 | the loop computes the counter stream and succeeds exactly up to 32 * (2^32 - 1) bytes |
| `Kdf.Sm2Kdf` | gm-crypto/src/sm2_kex.rs:803-831 | the loop computes the same stream and succeeds exactly from 1 to 32 * (2^32 - 2) bytes |
| `Kdf.Sm9Kdf` | gm-sm9-rs/src/encrypt.rs:271-289 | whole digests, then truncation; the 32-bit counter wraps |
| `Kdf.HkdfSm3` | gm-tls/src/kdf.rs:54-106 | HKDF of section 2.3 of RFC 5869 for exactly the lengths up to 8160; the counter-overflow error is never taken |
| `Kdf.StreamPrefix` | gm-crypto/src/sm2.rs:744-768 | a longer request extends a shorter one |
| `Kdf.StreamByte` | gm-crypto/src/sm2.rs:744-768 | byte i of the stream is byte i mod 32 of digest i div 32 |
| `Kdf.CounterByte` | gm-crypto/src/sm2.rs:744-768 | byte i of the key stream over z comes from the hash of z and the big-endian counter i div 32 + 1 |
| `Der.ParseDerLength` | gm-der/src/decode.rs:11-41 | the accumulating loop computes the length parser, with its refusals |
| `Der.LengthRoundTrip` | gm-der/src/decode.rs:11-41 | every length below 2^32 reads back |
| `Der.LengthSplit` | gm-der/src/decode.rs:11-41 | a successful length parse takes 1 to 5 bytes and its value fits 32 bits |
| `Der.TlvSplit` | gm-der/src/decode.rs:44-156 | a successful parse splits its input exactly into header, content and rest, and the header is no shorter than the encoder's |
| `Der.FieldsRoundTrip` | gm-der/src/decode.rs:44-156 | a row of fields reads back field by field, leaving the rest |
| `Der.PartsRoundTrip` | gm-der/src/decode.rs:44-156 | a row of elements with any accepted length fields, not only the shortest, reads back element by element |
| `Der.ListRoundTrip` | gm-der/src/decode.rs:44-156 | a list of elements reads back |
| `Der.LengthMinimal` | gm-der/src/encode.rs:13-35 | der_len writes the shortest field the parser reads as that length |
| `Der.TlvRoundTrip` | gm-der/src/encode.rs:38-130 | what is encoded reads back with the rest untouched if and only if the content is shorter than 2^32 bytes |
| `Der.DerItems` | gm-der/src/encode.rs:79-122 | summing lengths first and appending after writes one element around the concatenation |
| `Certificate.FirstEight` | gm-ca/src/cert_profile.rs:138-162 | the eight guarded set_bit steps build the first byte, flag 0 most significant, and the highest set bit |
| `Certificate.KeyUsageToDer` | gm-ca/src/cert_profile.rs:121-192 | the bit-setting code writes the declared bit string |
| `Certificate.KeyUsageRoundTrip` | gm-ca/src/cert_profile.rs:121-192 | the bit string carries exactly the nine flags and its first byte is the number of unused bits |
| `Certificate.ExtKeyUsageValue` | gm-ca/src/cert_profile.rs:235-243 | the loop writes the purposes in order |
| `Certificate.PurposesRoundTrip` | gm-ca/src/cert_profile.rs:217-243 | the purposes read back in order and no two share an identifier |
| `Certificate.SanValue` | gm-ca/src/cert_profile.rs:310-316 | the loop writes the names in order |
| `Certificate.SanRoundTrip` | gm-ca/src/cert_profile.rs:266-316 | the names read back in order |
| `Certificate.BasicConstraintsRoundTrip` | gm-ca/src/cert.rs:648-655 | the CA flag reads back, and the path length exactly for a CA |
| `Certificate.AuthorityKeyIdRoundTrip` | gm-ca/src/cert.rs:681-690 | the key identifier reads back if and only if it has fewer than 128 bytes |
| `Certificate.ExtRoundTrip` | gm-ca/src/cert.rs:631-639 | identifier, criticality and value of an extension read back |
| `Certificate.ExtensionsRoundTrip` | gm-ca/src/cert.rs:631-794 | a row of extensions reads back in order |
| `Certificate.Push` | gm-ca/src/cert.rs:717-793 | one conditional push |
| `Certificate.PushCritical` | gm-ca/src/cert.rs:720-755 | the two critical extensions, each under its condition |
| `Certificate.PushKeyIds` | gm-ca/src/cert.rs:776-791 | the two key identifiers, each under its condition |
| `Certificate.BuildExtensions` | gm-ca/src/cert.rs:711-794 | the six conditional pushes write exactly the extensions the profile selects, in order |
| `Certificate.NameRoundTrip` | gm-ca/src/cert.rs:834-842 | a common name reads back |
| `Certificate.BuildTbsCertificate` | gm-ca/src/cert.rs:940-990 | the pushes write the TBSCertificate of the fields, the times as utctime writes them and the subject bytes copied through |
| `Certificate.SerialNumber` | gm-ca/src/cert.rs:964-965 | the serial INTEGER denotes the same number and is not negative |
| `Certificate.TbsRoundTrip` | gm-ca/src/cert.rs:940-990 | every TBSCertificate field reads back in order, notBefore and notAfter apart, for any subject that is one SEQUENCE element, however its length is written |
| `Certificate.CertificateRoundTrip` | gm-ca/src/cert.rs:940-1034 | for every certificate shorter than 2^32 bytes, reading it with gm-der (section 4.1 of RFC 5280) recovers every field in order, the two times apart, and exactly its extensions |
| `CertificateTime.TimeRoundTrip` | gm-ca/src/cert.rs:844-878 | a time reads back (section 4.1.2.5 of RFC 5280) if and only if its year is not negative and not one of 1950 to 1999 |
| `CertificateTime.UtctimeOk` | gm-ca/src/cert.rs:844-878 | every time is written as one element |
| `CertificateTime.ValidityRead` | gm-ca/src/cert.rs:971-971 | the content of a Validity splits into the two times it was made from |
| `Certificate.ValidityRoundTrip` | gm-ca/src/cert.rs:940-1034 | the two times of an issued certificate read back if and only if neither year is negative or one of 1950 to 1999 |
| `Certificate.IssueCertificate` | gm-ca/src/cert.rs:711-1034 | a certificate issued under a profile reads back with exactly the extensions the profile selects |
| `CertificateValues.AuthorityKeyReads` | gm-ca/src/cert.rs:681-690 | an authority key identifier value reads back if and only if it has fewer than 128 bytes |
| `CertificateValues.SelectedRead` | gm-ca/src/cert.rs:711-794 | the values of all selected extensions read back in order if and only if the authority key identifier, if selected, has fewer than 128 bytes |
| `CertificateValues.ProfileRoundTrip` | gm-ca/src/cert.rs:711-1034 | parsing an issued certificate and then each extension value recovers the CA flag with path length, key usage, purposes, names and key identifiers the profile selects |
| `CertificateValues.HeadsExactly` | gm-ca/src/cert.rs:711-794 | the extensions of a parsed issued certificate are those the profile asks for, in order, by identifier; key usage is always critical, basic constraints exactly for a CA, no other extension is |

## Left out

- Sm2KexRuns.Agreement: says nothing of an initiator's identity to the responder, because the
  initiator signs nothing in this protocol.
- GmTlsAgreement.Agreement: equal records and secrets carry the condition that the server's decoder
  left no byte over; that ephemeral and certificate keys differ is an assumption.
- GmTlsHonest.HandshakeCompletes: no session ticket is offered or issued and the server has a
  certificate.
- KeyRotation.KeyRing.RotateKey: the version counter wraps at 2^32 as in a release build; a debug
  build panics.
- KeyRotation.RunClosedForm: fewer than 2^32 versions are made.
- Kdf.Sm9Kdf: the counter wraps as in a release build; a debug build panics after 2^32 - 1 digests.
- Sm9KeyExchange.KdfKeyExchange: the same.
- Sm9Encrypt.SerialisationRoundTrip: coordinates are 32-byte strings as written; reading a value
  not below the field prime is not part of this model.
- Certificate.CertificateRoundTrip: the subject is one SEQUENCE element; the builder copies any bytes.
- CertificateTime.TimeRoundTrip: years from -9999 to 9999, the range of the time library without its
  large-date feature.
- GmTlsFinished.CompletedServer: equal transcript hashes are stated; that the client's scalar is used
  by no one else is an assumption.
- Der.TlvRoundTrip: lengths of 2^32 and more are covered only as failures; `Der.TlvRead` says what
  is read of them.
- Sm9KeyExchange.ConstantTimeEq: the accumulator is whether any bit is set; timing is not modelled.
- Sm9Encrypt.IsAllZeros: the same.
- Pool.RunInv: returned streams are ones the caller holds and has not returned before.
- Random generation and rejection of a zero scalar: draws are reduced to [1, N - 1].
- SM4, SM3, SM2 curve, field and pairing arithmetic and point encodings.
- The encryption half of key rotation, which repeats the signing half line by line.
- GM/TLS handshake message layouts beyond the frame of the two hellos, record layer, session tickets, resumption, key update and
  certificate path validation: decoders and checks are parameters.
- TLCP, foreign-function back ends, HTTP client, gRPC endpoints, database, audit and metrics code.
- CSR, CRL and PEM handling, RSA signing, certificate profile presets.
- Pool size queries and the background cleanup task.
- Zeroization.
