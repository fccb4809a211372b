/** How much of a record ClientHello::from_bytes and ServerHello::from_bytes read
    (gm-tls/src/handshake.rs). Each layout is a row of fields, most of them length-prefixed, and ends
    with an extension block; bytes after that block are not looked at. */
module GmTlsHello {
  import opened Bytes
  import opened GmTls

  function U16(data: Bytes, p: nat): (n: nat)
    requires p + 2 <= |data|
    ensures n < 0x1_0000
  {
    var high: nat, low: nat := data[p], data[p + 1];
    256 * high + low
  }

  /** Past version, random and session identifier. */
  function AfterSession(data: Bytes): (p: Option<nat>)
    ensures p.Some? ==> p.value <= |data|
  {
    if |data| < 35 || data[34] > 32 || 35 + data[34] > |data| then None else Some(35 + data[34])
  }

  /** Past the cipher suites. */
  function AfterSuites(data: Bytes): (p: Option<nat>)
    ensures p.Some? ==> p.value <= |data|
  {
    var s := AfterSession(data);
    if s.None? || s.value + 2 > |data| then None
    else
      var n := U16(data, s.value);
      if s.value + 2 + n > |data| || n % 2 != 0 then None else Some(s.value + 2 + n)
  }

  /** Past the compression methods, where the extensions begin. */
  function AfterMethods(data: Bytes): (p: Option<nat>)
    ensures p.Some? ==> p.value <= |data|
  {
    var s := AfterSuites(data);
    if s.None? || s.value == |data| || s.value + 1 + data[s.value] > |data| then None
    else Some(s.value + 1 + data[s.value])
  }

  /** ServerHello: past the session identifier, one cipher suite and one compression method. */
  function AfterCompression(data: Bytes): (p: Option<nat>)
    ensures p.Some? ==> p.value <= |data|
  {
    var s := AfterSession(data);
    if s.None? || s.value + 3 > |data| then None else Some(s.value + 3)
  }

  /** The part before the extensions, the extension block unless it is absent, and the number of
      bytes these take. */
  datatype Frame = Frame(head: Bytes, extensions: Option<Bytes>, used: nat)

  /** The frame of a record whose extensions begin at `start`. */
  function FrameFrom(data: Bytes, start: nat): (f: Option<Frame>)
    requires start <= |data|
    ensures f.Some? ==> f.value.used <= |data|
  {
    if start == |data| then Some(Frame(data, None, |data|))
    else if start + 2 > |data| then None
    else
      var p, n := start + 2, U16(data, start);
      if p + n > |data| then None else Some(Frame(data[..start], Some(data[p..p + n]), p + n))
  }

  function FrameOf(data: Bytes): (f: Option<Frame>)
    ensures f.Some? ==> f.value.used <= |data|
  {
    var s := AfterMethods(data);
    if s.None? then None else FrameFrom(data, s.value)
  }

  function ServerFrameOf(data: Bytes): (f: Option<Frame>)
    ensures f.Some? ==> f.value.used <= |data|
  {
    var s := AfterCompression(data);
    if s.None? then None else FrameFrom(data, s.value)
  }

  function Used(data: Bytes): (n: nat)
    ensures n <= |data|
  {
    var f := FrameOf(data);
    if f.None? then 0 else f.value.used
  }

  function Interpreted(interpret: (Bytes, Option<Bytes>) -> Option<Hello>, f: Option<Frame>): (h: Option<Hello>) {
    if f.None? then None else interpret(f.value.head, f.value.extensions)
  }

  /** ClientHello::from_bytes: the extension block, like the fields before it, is interpreted apart
      from what follows it. */
  function ReadHello(interpret: (Bytes, Option<Bytes>) -> Option<Hello>, data: Bytes): (h: Option<Hello>) {
    Interpreted(interpret, FrameOf(data))
  }

  /** ServerHello::from_bytes, in the same way. */
  function ReadServerHello(interpret: (Bytes, Option<Bytes>) -> Option<Hello>, data: Bytes): (h: Option<Hello>) {
    Interpreted(interpret, ServerFrameOf(data))
  }

  lemma FrameFromKept(x: Bytes, y: Bytes, s: nat)
    requires x <= y && s <= |x| && FrameFrom(x, s).Some? && FrameFrom(x, s).value.extensions.Some?
    ensures FrameFrom(y, s) == FrameFrom(x, s)
  {
    var p, n := s + 2, U16(x, s);
    assert U16(y, s) == n && y[..s] == x[..s] && y[p..p + n] == x[p..p + n];
  }

  /** A record with an extension block keeps its frame when bytes are added after it. */
  lemma FrameKept(x: Bytes, y: Bytes)
    requires x <= y && FrameOf(x).Some? && FrameOf(x).value.extensions.Some?
    ensures FrameOf(y) == FrameOf(x)
  {
    hide AfterMethods, FrameFrom;
    MethodsKept(x, y);
    FrameFromKept(x, y, AfterMethods(x).value);
  }

  lemma MethodsKept(x: Bytes, y: Bytes)
    requires x <= y && AfterMethods(x).Some?
    ensures AfterMethods(y) == AfterMethods(x)
  {
    var s := AfterSession(x).value;
    assert AfterSession(y) == AfterSession(x);
    assert U16(y, s) == U16(x, s);
    assert AfterSuites(y) == AfterSuites(x);
  }

  /** The same of a ServerHello. */
  lemma ServerFrameKept(x: Bytes, y: Bytes)
    requires x <= y && ServerFrameOf(x).Some? && ServerFrameOf(x).value.extensions.Some?
    ensures ServerFrameOf(y) == ServerFrameOf(x)
  {
    hide FrameFrom;
    var s := AfterCompression(x).value;
    assert AfterCompression(y) == Some(s);
    FrameFromKept(x, y, s);
  }

  // ---------------------------------------------------------------- the encoder

  /** What ClientHello::to_bytes writes: the suites and the extensions already encoded. */
  datatype HelloFields = HelloFields(
    version: Bytes, random: Bytes, session: Bytes, suites: Bytes, methods: Bytes, exts: Bytes)

  predicate InRange(h: HelloFields) {
    && |h.version| == 2 && |h.random| == 32 && |h.session| <= 32 && |h.suites| % 2 == 0 && |h.suites| < 0x1_0000
    && |h.methods| < 256 && |h.exts| < 0x1_0000
  }

  /** ClientHello::to_bytes. */
  function HelloBytes(h: HelloFields): (r: Bytes) {
    h.version + h.random + [|h.session| % 256] + h.session + BE(|h.suites| % 0x1_0000, 2) + h.suites
    + [|h.methods| % 256] + h.methods + BE(|h.exts| % 0x1_0000, 2) + h.exts
  }

  ghost predicate WrittenHello(data: Bytes) {
    exists h :: InRange(h) && data == HelloBytes(h)
  }

  /** What ServerHello::to_bytes writes. */
  datatype ServerFields = ServerFields(
    version: Bytes, random: Bytes, session: Bytes, suite: nat, compression: byte, exts: Bytes)

  predicate ServerInRange(h: ServerFields) {
    |h.version| == 2 && |h.random| == 32 && |h.session| <= 32 && |h.exts| < 0x1_0000
  }

  /** ServerHello::to_bytes. */
  function ServerHelloBytes(h: ServerFields): (r: Bytes) {
    h.version + h.random + [|h.session| % 256] + h.session + BE(h.suite, 2) + [h.compression]
    + BE(|h.exts| % 0x1_0000, 2) + h.exts
  }

  ghost predicate WrittenServerHello(data: Bytes) {
    exists h :: ServerInRange(h) && data == ServerHelloBytes(h)
  }

  lemma U16OfBE(a: Bytes, n: nat, b: Bytes)
    requires n < 0x1_0000
    ensures U16(a + BE(n, 2) + b, |a|) == n
  {
    assert BE(n, 2) == BE(n / 256, 1) + [n % 256];
    assert BE(n / 256, 1) == BE(n / 256 / 256, 0) + [n / 256 % 256];
    var whole := a + BE(n, 2) + b;
    assert whole[|a|] == n / 256 && whole[|a| + 1] == n % 256;
  }

  lemma SessionRead(version: Bytes, random: Bytes, session: Bytes, rest: Bytes)
    requires |version| == 2 && |random| == 32 && |session| <= 32
    ensures AfterSession(version + random + [|session|] + session + rest) == Some(35 + |session|)
  {
    assert (version + random + [|session|] + session + rest)[34] == |session|;
  }

  lemma SuitesRead(a: Bytes, suites: Bytes, rest: Bytes)
    requires |suites| % 2 == 0 && |suites| < 0x1_0000
    requires AfterSession(a + BE(|suites|, 2) + (suites + rest)) == Some(|a|)
    ensures AfterSuites(a + BE(|suites|, 2) + (suites + rest)) == Some(|a| + 2 + |suites|)
  {
    hide BE, AfterSession;
    U16OfBE(a, |suites|, suites + rest);
  }

  lemma MethodsRead(b: Bytes, methods: Bytes, rest: Bytes)
    requires |methods| < 256
    requires AfterSuites(b + [|methods|] + (methods + rest)) == Some(|b|)
    ensures AfterMethods(b + [|methods|] + (methods + rest)) == Some(|b| + 1 + |methods|)
  {
    hide AfterSuites;
    assert (b + [|methods|] + (methods + rest))[|b|] == |methods|;
  }

  lemma CutThrice(a: Bytes, b: Bytes, c: Bytes)
    ensures (a + b + c)[..|a|] == a && (a + b + c)[|a| + |b|..|a| + |b| + |c|] == c
  {
  }

  lemma ExtensionsRead(c: Bytes, exts: Bytes)
    requires |exts| < 0x1_0000
    ensures FrameFrom(c + BE(|exts|, 2) + exts, |c|) == Some(Frame(c, Some(exts), |c| + 2 + |exts|))
  {
    hide BE, U16;
    U16OfBE(c, |exts|, exts);
    CutThrice(c, BE(|exts|, 2), exts);
  }

  /** One string, cut where each field begins. */
  lemma HelloCuts(a: Bytes, n: Bytes, suites: Bytes, k: Bytes, methods: Bytes, m: Bytes, exts: Bytes)
    ensures var data := a + n + suites + k + methods + m + exts;
            && data == a + (n + suites + (k + methods + (m + exts)))
            && data == a + n + (suites + (k + methods + (m + exts)))
            && data == (a + n + suites) + k + (methods + (m + exts))
            && data == (a + n + suites + k + methods) + m + exts
  {
  }

  /** Whatever the encoder writes, within the ranges of its length fields, is read to the end. */
  lemma EncodedIsWhole(h: HelloFields)
    requires InRange(h)
    ensures var data := HelloBytes(h);
            && FrameOf(data).Some? && FrameOf(data).value.extensions == Some(h.exts) && Used(data) == |data|
  {
    hide BE, AfterSession, AfterSuites, AfterMethods, FrameFrom;
    var a := h.version + h.random + [|h.session|] + h.session;
    var n, k, m := BE(|h.suites|, 2), [|h.methods|], BE(|h.exts|, 2);
    var d := m + h.exts;
    var rest := k + h.methods + d;
    var data := a + n + h.suites + k + h.methods + m + h.exts;
    assert HelloBytes(h) == data;
    HelloCuts(a, n, h.suites, k, h.methods, m, h.exts);
    SessionRead(h.version, h.random, h.session, n + h.suites + rest);
    SuitesRead(a, h.suites, rest);
    MethodsRead(a + n + h.suites, h.methods, d);
    ExtensionsRead(a + n + h.suites + k + h.methods, h.exts);
  }

  /** The same of a ServerHello. */
  lemma ServerEncodedIsWhole(h: ServerFields)
    requires ServerInRange(h)
    ensures var data := ServerHelloBytes(h);
            ServerFrameOf(data).Some? && ServerFrameOf(data).value.extensions == Some(h.exts)
            && ServerFrameOf(data).value.used == |data|
  {
    hide BE, AfterSession, FrameFrom;
    var data := ServerHelloBytes(h);
    var a := h.version + h.random + [|h.session|] + h.session;
    var c := a + BE(h.suite, 2) + [h.compression];
    var d := BE(|h.exts|, 2) + h.exts;
    assert data == a + (BE(h.suite, 2) + [h.compression] + d);
    SessionRead(h.version, h.random, h.session, BE(h.suite, 2) + [h.compression] + d);
    assert data == c + BE(|h.exts|, 2) + h.exts;
    ExtensionsRead(c, h.exts);
  }

  // ---------------------------------------------------------------- nothing else is read

  lemma BEOfU16(data: Bytes, p: nat)
    requires p + 2 <= |data|
    ensures BE(U16(data, p), 2) == data[p..p + 2]
  {
    var n := U16(data, p);
    assert BE(n, 2) == BE(n / 256, 1) + [n % 256];
    assert BE(n / 256, 1) == BE(n / 256 / 256, 0) + [n / 256 % 256];
  }

  /** The fields that stand in a record with an extension block. */
  function FieldsIn(data: Bytes): (h: HelloFields)
    requires FrameOf(data).Some? && FrameOf(data).value.extensions.Some?
  {
    var p, q, s := AfterSession(data).value, AfterSuites(data).value, AfterMethods(data).value;
    HelloFields(data[..2], data[2..34], data[35..p], data[p + 2..q], data[q + 1..s],
                FrameOf(data).value.extensions.value)
  }

  lemma Rejoin(data: Bytes, a: nat, b: nat)
    requires a <= b <= |data|
    ensures data[..a] + data[a..b] == data[..b]
  {
  }

  lemma RejoinAll(data: Bytes, p: nat, q: nat, s: nat, u: nat)
    requires 35 <= p && p + 2 <= q && q + 1 <= s && s + 2 <= u <= |data|
    ensures data[..2] + data[2..34] + data[34..35] + data[35..p] + data[p..p + 2] + data[p + 2..q] + data[q..q + 1]
            + data[q + 1..s] + data[s..s + 2] + data[s + 2..u] == data[..u]
  {
    Rejoin(data, 2, 34);
    Rejoin(data, 34, 35);
    Rejoin(data, 35, p);
    Rejoin(data, p, p + 2);
    Rejoin(data, p + 2, q);
    Rejoin(data, q, q + 1);
    Rejoin(data, q + 1, s);
    Rejoin(data, s, s + 2);
    Rejoin(data, s + 2, u);
  }

  /** Where the fields of such a record end. */
  lemma FieldsRange(data: Bytes)
    requires FrameOf(data).Some? && FrameOf(data).value.extensions.Some?
    ensures AfterSession(data).Some? && AfterSuites(data).Some? && AfterMethods(data).Some?
    ensures var p, q, s := AfterSession(data).value, AfterSuites(data).value, AfterMethods(data).value;
            var u := FrameOf(data).value.used;
            && 35 <= p && p + 2 <= q && q + 1 <= s && s + 2 <= u <= |data|
            && p == 35 + data[34] && q == p + 2 + U16(data, p) && s == q + 1 + data[q] && u == s + 2 + U16(data, s)
            && FrameOf(data).value.extensions.value == data[s + 2..u]
            && p <= 67 && (q - p) % 2 == 0
  {
  }

  lemma WithLengths(h: HelloFields, a: Bytes, b: Bytes, c: Bytes, d: Bytes)
    requires a == [|h.session| % 256] && b == BE(|h.suites| % 0x1_0000, 2)
    requires c == [|h.methods| % 256] && d == BE(|h.exts| % 0x1_0000, 2)
    ensures HelloBytes(h)
            == h.version + h.random + a + h.session + b + h.suites + c + h.methods + d + h.exts
  {
  }

  lemma FieldsStand(data: Bytes)
    requires FrameOf(data).Some? && FrameOf(data).value.extensions.Some?
    ensures InRange(FieldsIn(data)) && HelloBytes(FieldsIn(data)) == data[..FrameOf(data).value.used]
  {
    hide BE, U16, FrameOf, AfterSession, AfterSuites, AfterMethods, HelloBytes;
    FieldsRange(data);
    var p, q, s, u := AfterSession(data).value, AfterSuites(data).value, AfterMethods(data).value,
                      FrameOf(data).value.used;
    BEOfU16(data, p);
    BEOfU16(data, s);
    var h := HelloFields(data[..2], data[2..34], data[35..p], data[p + 2..q], data[q + 1..s], data[s + 2..u]);
    assert FieldsIn(data) == h;
    assert [|h.session| % 256] == data[34..35] && [|h.methods| % 256] == data[q..q + 1];
    WithLengths(h, data[34..35], data[p..p + 2], data[q..q + 1], data[s..s + 2]);
    RejoinAll(data, p, q, s, u);
  }

  /** A ClientHello with an extension block is read exactly from what the encoder writes, within the
      ranges of its fields, and any bytes after it. */
  lemma ReadExactly(data: Bytes, exts: Bytes)
    ensures (exists h, tail :: InRange(h) && data == HelloBytes(h) + tail && h.exts == exts) <==>
            FrameOf(data).Some? && FrameOf(data).value.extensions == Some(exts)
  {
    if FrameOf(data).Some? && FrameOf(data).value.extensions == Some(exts) {
      FieldsStand(data);
      var h, u := FieldsIn(data), FrameOf(data).value.used;
      hide FrameOf, HelloBytes;
      assert data == data[..u] + data[u..];
    } else if exists h, tail :: InRange(h) && data == HelloBytes(h) + tail && h.exts == exts {
      var h, tail :| InRange(h) && data == HelloBytes(h) + tail && h.exts == exts;
      hide FrameOf, HelloBytes;
      EncodedIsWhole(h);
      FrameKept(HelloBytes(h), data);
      assert false;
    }
  }

  lemma RejoinServer(data: Bytes, p: nat, u: nat)
    requires 35 <= p && p + 5 <= u <= |data|
    ensures data[..2] + data[2..34] + data[34..35] + data[35..p] + data[p..p + 2] + data[p + 2..p + 3]
            + data[p + 3..p + 5] + data[p + 5..u] == data[..u]
  {
    Rejoin(data, 2, 34);
    Rejoin(data, 34, 35);
    Rejoin(data, 35, p);
    Rejoin(data, p, p + 2);
    Rejoin(data, p + 2, p + 3);
    Rejoin(data, p + 3, p + 5);
    Rejoin(data, p + 5, u);
  }

  lemma ServerWithLengths(h: ServerFields, a: Bytes, b: Bytes, c: Bytes, d: Bytes)
    requires a == [|h.session| % 256] && b == BE(h.suite, 2) && c == [h.compression]
    requires d == BE(|h.exts| % 0x1_0000, 2)
    ensures ServerHelloBytes(h) == h.version + h.random + a + h.session + b + c + d + h.exts
  {
  }

  lemma ServerFieldsStand(data: Bytes) returns (h: ServerFields)
    requires ServerFrameOf(data).Some? && ServerFrameOf(data).value.extensions.Some?
    ensures ServerInRange(h) && h.exts == ServerFrameOf(data).value.extensions.value
    ensures ServerHelloBytes(h) == data[..ServerFrameOf(data).value.used]
  {
    hide BE, U16, ServerHelloBytes, ServerFrameOf, AfterSession;
    ServerFieldsRange(data);
    var p, u := AfterSession(data).value, ServerFrameOf(data).value.used;
    BEOfU16(data, p);
    BEOfU16(data, p + 3);
    h := ServerFields(data[..2], data[2..34], data[35..p], U16(data, p), data[p + 2], data[p + 5..u]);
    assert [|h.session| % 256] == data[34..35] && [h.compression] == data[p + 2..p + 3];
    ServerWithLengths(h, data[34..35], data[p..p + 2], data[p + 2..p + 3], data[p + 3..p + 5]);
    RejoinServer(data, p, u);
  }

  lemma ServerFieldsRange(data: Bytes)
    requires ServerFrameOf(data).Some? && ServerFrameOf(data).value.extensions.Some?
    ensures AfterSession(data).Some?
    ensures var p, u := AfterSession(data).value, ServerFrameOf(data).value.used;
            && 35 <= p <= 67 && p + 5 <= u <= |data| && p == 35 + data[34] && u == p + 5 + U16(data, p + 3)
            && ServerFrameOf(data).value.extensions.value == data[p + 5..u]
  {
  }

  /** The same of a ServerHello. */
  lemma ServerReadExactly(data: Bytes, exts: Bytes)
    ensures (exists h, tail :: ServerInRange(h) && data == ServerHelloBytes(h) + tail && h.exts == exts) <==>
            ServerFrameOf(data).Some? && ServerFrameOf(data).value.extensions == Some(exts)
  {
    if ServerFrameOf(data).Some? && ServerFrameOf(data).value.extensions == Some(exts) {
      var h := ServerFieldsStand(data);
      var u := ServerFrameOf(data).value.used;
      hide ServerFrameOf, ServerHelloBytes;
      assert data == data[..u] + data[u..];
    } else if exists h, tail :: ServerInRange(h) && data == ServerHelloBytes(h) + tail && h.exts == exts {
      var h, tail :| ServerInRange(h) && data == ServerHelloBytes(h) + tail && h.exts == exts;
      hide ServerFrameOf, ServerHelloBytes;
      ServerEncodedIsWhole(h);
      ServerFrameKept(ServerHelloBytes(h), data);
      assert false;
    }
  }
}
