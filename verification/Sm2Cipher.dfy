/** SM2 ciphertexts and signatures of gm-crypto (gm-crypto/src/sm2.rs): the DER and raw layouts,
    whose lengths are computed apart from the bytes they announce, and the four encryption
    formats. */
module Sm2Cipher {
  import opened Bytes
  import opened Der
  import opened Kdf
  import opened ModArith
  import opened Sm2Curve

  // ---------------------------------------------------------------- integers

  function StripLeadingZeros(v: Bytes): (r: Bytes)
    ensures |r| <= |v| && (r != [] ==> r[0] != 0)
  {
    if v == [] || v[0] != 0 then v else StripLeadingZeros(v[1..])
  }

  lemma {:induction false} StripKeepsTail(v: Bytes)
    ensures v == Zeros(|v| - |StripLeadingZeros(v)|) + StripLeadingZeros(v)
    decreases |v|
  {
    if v != [] && v[0] == 0 {
      StripKeepsTail(v[1..]);
      var n := |v| - |StripLeadingZeros(v)|;
      assert Zeros(n) == [0] + Zeros(n - 1);
      assert v == [0] + v[1..];
    }
  }

  /** The INTEGER content der_encode_integer writes. */
  function IntContent(v: Bytes): (r: Bytes)
    ensures 1 <= |r| <= |v| + 1
  {
    var s := StripLeadingZeros(v);
    if s == [] then [0] else if s[0] >= 0x80 then [0] + s else s
  }

  /** der_encode_integer appends to a buffer. */
  method DerEncodeInteger(der: Bytes, value: Bytes) returns (r: Bytes)
    ensures r == der + Tlv(INTEGER, IntContent(value))
  {
    var stripped := StripLeadingZeros(value);
    var bytes: Bytes;
    if stripped == [] {
      bytes := [0];
    } else if stripped[0] >= 0x80 {
      r := der + [0x02];
      r := r + DerLen(|stripped| + 1);
      r := r + [0];
      r := r + stripped;
      assert r == der + Tlv(INTEGER, [0] + stripped);
      return;
    } else {
      bytes := stripped;
    }
    r := der + [0x02];
    r := r + DerLen(|bytes|);
    r := r + bytes;
  }

  /** der_integer_len. */
  function DerIntegerLen(v: Bytes): (n: nat) {
    var s := StripLeadingZeros(v);
    if s == [] then 3 else if s[0] >= 0x80 then 3 + |s| else 2 + |s|
  }

  /** The announced length of an integer is the length it is written with if and only if its
      content octets fit the short form; a longer one is announced too short. */
  lemma IntegerLenExact(v: Bytes)
    ensures DerIntegerLen(v) == |Tlv(INTEGER, IntContent(v))| <==> |IntContent(v)| < 128
    ensures DerIntegerLen(v) <= |Tlv(INTEGER, IntContent(v))|
  {
  }

  /** der_octet_string_len: its last case stops at two length bytes. */
  function DerOctetStringLen(d: Bytes): (n: nat) {
    if |d| < 128 then 2 + |d| else if |d| < 256 then 3 + |d| else 4 + |d|
  }

  /** The announced length of an octet string is the length it is written with if and only if it
      has fewer than 65536 bytes; a longer one is announced too short. */
  lemma OctetStringLenExact(d: Bytes)
    ensures DerOctetStringLen(d) == |Tlv(OCTET_STRING, d)| <==> |d| < 0x1_0000
    ensures DerOctetStringLen(d) <= |Tlv(OCTET_STRING, d)| <= DerOctetStringLen(d) + 2
  {
  }

  /** parse_der_integer of this file: strip the sign, left-pad to 32 bytes. */
  function ParseInteger32(data: Bytes): (r: Result<Read<Bytes>>)
    ensures r.Ok? ==> |r.value.value| == 32 && |r.value.rest| <= |data|
  {
    match ParseTlv(INTEGER, data)
    case Err => Err
    case Ok(Read(rest, content)) =>
      TlvSplit(INTEGER, data);
      var s := StripLeadingZeros(content);
      var value := if s == [] then Zeros(|content|) else s;
      if |value| > 32 then Err else Ok(Read(rest, Zeros(32 - |value|) + value))
  }

  lemma StripOfContent(v: Bytes)
    ensures StripLeadingZeros(IntContent(v)) == StripLeadingZeros(v)
    ensures StripLeadingZeros(v) == [] ==> IntContent(v) == [0]
  {
    var s := StripLeadingZeros(v);
    if s != [] && s[0] >= 0x80 {
      assert ([0] + s)[1..] == s && StripLeadingZeros(s) == s;
    } else if s == [] {
      assert StripLeadingZeros([0]) == StripLeadingZeros([0][1..]);
    }
  }

  /** A 32-byte number reads back with all its leading zeros. */
  lemma IntegerRoundTrip(v: Bytes, rest: Bytes)
    requires |v| == 32
    ensures ParseInteger32(Tlv(INTEGER, IntContent(v)) + rest) == Ok(Read(rest, v))
  {
    var s := StripLeadingZeros(v);
    TlvRoundTrip(INTEGER, IntContent(v), rest);
    StripOfContent(v);
    StripKeepsTail(v);
    if s == [] {
      assert Zeros(31) + Zeros(1) == Zeros(32) == v;
    } else {
      assert Zeros(32 - |s|) + s == v;
    }
  }

  // ---------------------------------------------------------------- the cipher layouts

  function CipherBody(x: Bytes, y: Bytes, c3: Bytes, c2: Bytes): (r: Bytes) {
    Tlv(INTEGER, IntContent(x)) + Tlv(INTEGER, IntContent(y)) + Tlv(OCTET_STRING, c3) + Tlv(OCTET_STRING, c2)
  }

  function AnnouncedLen(x: Bytes, y: Bytes, c3: Bytes, c2: Bytes): (n: nat) {
    DerIntegerLen(x) + DerIntegerLen(y) + DerOctetStringLen(c3) + DerOctetStringLen(c2)
  }

  predicate RawShape(raw: Bytes) { |raw| >= 97 && raw[0] == 4 }

  /** sm2_cipher_raw_to_der. */
  function RawToDer(raw: Bytes): (r: Result<Bytes>) {
    if !RawShape(raw) then Err else
    var x, y, c3, c2 := raw[1..33], raw[33..65], raw[65..97], raw[97..];
    Ok([SEQUENCE] + DerLen(AnnouncedLen(x, y, c3, c2)) + CipherBody(x, y, c3, c2))
  }

  method RawToDerImpl(raw: Bytes) returns (r: Result<Bytes>)
    ensures r == RawToDer(raw)
  {
    hide Tlv, DerLen, IntContent, DerIntegerLen, DerOctetStringLen;
    if |raw| < 97 { return Err; }
    if raw[0] != 4 { return Err; }
    var c1x, c1y, c3, c2 := raw[1..33], raw[33..65], raw[65..97], raw[97..];
    var contentLen := DerIntegerLen(c1x) + DerIntegerLen(c1y) + DerOctetStringLen(c3) + DerOctetStringLen(c2);
    var der: Bytes := [0x30] + DerLen(contentLen);
    ghost var head := der;
    der := DerEncodeInteger(der, c1x);
    der := DerEncodeInteger(der, c1y);
    der := der + Tlv(OCTET_STRING, c3);
    der := der + Tlv(OCTET_STRING, c2);
    assert der == head + CipherBody(c1x, c1y, c3, c2);
    r := Ok(der);
  }

  /** Two integers, read one after the other. */
  function ParseTwoIntegers(body: Bytes): (r: Result<Read<(Bytes, Bytes)>>)
    ensures r.Ok? ==> |r.value.rest| <= |body| && |r.value.value.0| == 32 && |r.value.value.1| == 32
  {
    match ParseInteger32(body)
    case Err => Err
    case Ok(Read(r1, x)) =>
      match ParseInteger32(r1)
      case Err => Err
      case Ok(Read(r2, y)) => Ok(Read(r2, (x, y)))
  }

  /** The fields after the SEQUENCE header; they are read from all that is left of the input. */
  function ParseCipherBody(body: Bytes): (r: Result<Read<Bytes>>) {
    match ParseTwoIntegers(body)
    case Err => Err
    case Ok(Read(r2, (x, y))) =>
      match ParseTlv(OCTET_STRING, r2)
      case Err => Err
      case Ok(Read(r3, c3)) =>
        match ParseTlv(OCTET_STRING, r3)
        case Err => Err
        case Ok(Read(r4, c2)) => Ok(Read(r4, [4] + x + y + c3 + c2))
  }

  /** sm2_cipher_der_to_raw: what the fields used up must be what the SEQUENCE announced. */
  function DerToRaw(der: Bytes): (r: Result<Bytes>) {
    if der == [] || der[0] != SEQUENCE then Err else
    match ParseLength(der[1..])
    case Err => Err
    case Ok(Read(body, seqLen)) =>
      if seqLen > |body| then Err else
      match ParseCipherBody(body)
      case Err => Err
      case Ok(Read(rest, raw)) => if |body| - |rest| != seqLen then Err else Ok(raw)
  }

  /** A suffix of a suffix, addressed from the start of the whole. */
  lemma SuffixOfSuffix(der: Bytes, body: Bytes, rest: Bytes)
    requires |rest| <= |body| <= |der|
    requires der[|der| - |body|..] == body && body[|body| - |rest|..] == rest
    ensures der[|der| - |rest|..] == rest
  {
  }

  /** One field read at a cursor: the cursor moves to what the field parser left. */
  method ReadInteger(der: Bytes, pos: nat) returns (r: Result<(Bytes, nat)>)
    requires pos <= |der|
    ensures match ParseInteger32(der[pos..])
            case Err => r == Err
            case Ok(p) => r.Ok? && r.value.0 == p.value && pos <= r.value.1 <= |der| && der[r.value.1..] == p.rest
  {
    hide ParseTlv, StripLeadingZeros;
    var x := ParseInteger32(der[pos..]);
    if x.Err? { return Err; }
    TlvSplit(INTEGER, der[pos..]);
    SuffixOfSuffix(der, der[pos..], x.value.rest);
    r := Ok((x.value.value, |der| - |x.value.rest|));
  }

  method ReadOctets(der: Bytes, pos: nat) returns (r: Result<(Bytes, nat)>)
    requires pos <= |der|
    ensures match ParseTlv(OCTET_STRING, der[pos..])
            case Err => r == Err
            case Ok(p) => r.Ok? && r.value.0 == p.value && pos <= r.value.1 <= |der| && der[r.value.1..] == p.rest
  {
    hide ParseTlv;
    var x := ParseTlv(OCTET_STRING, der[pos..]);
    if x.Err? { return Err; }
    TlvSplit(OCTET_STRING, der[pos..]);
    SuffixOfSuffix(der, der[pos..], x.value.rest);
    r := Ok((x.value.value, |der| - |x.value.rest|));
  }

  /** parse_sm2_cipher_der with its position cursor, then the concatenation. */
  method DerToRawImpl(der: Bytes) returns (r: Result<Bytes>)
    ensures r == DerToRaw(der)
  {
    hide ParseLength, ParseTlv, ParseInteger32;
    if der == [] || der[0] != 0x30 { return Err; }
    var len := ParseLength(der[1..]);
    if len.Err? { return Err; }
    LengthSplit(der[1..]);
    SuffixOfSuffix(der, der[1..], len.value.rest);
    var pos := |der| - |len.value.rest|;
    if pos + len.value.value > |der| { return Err; }
    var seqEnd := pos + len.value.value;
    var x := ReadInteger(der, pos);
    if x.Err? { return Err; }
    var y := ReadInteger(der, x.value.1);
    if y.Err? { return Err; }
    var c3 := ReadOctets(der, y.value.1);
    if c3.Err? { return Err; }
    var c2 := ReadOctets(der, c3.value.1);
    if c2.Err? { return Err; }
    if c2.value.1 != seqEnd { return Err; }
    r := Ok([4] + x.value.0 + y.value.0 + c3.value.0 + c2.value.0);
  }

  lemma TwoIntegersRoundTrip(x: Bytes, y: Bytes, rest: Bytes)
    requires |x| == 32 && |y| == 32
    ensures ParseTwoIntegers(Tlv(INTEGER, IntContent(x)) + Tlv(INTEGER, IntContent(y)) + rest) == Ok(Read(rest, (x, y)))
  {
    hide Tlv, IntContent, ParseInteger32;
    var ty := Tlv(INTEGER, IntContent(y));
    assert Tlv(INTEGER, IntContent(x)) + ty + rest == Tlv(INTEGER, IntContent(x)) + (ty + rest);
    IntegerRoundTrip(x, ty + rest);
    IntegerRoundTrip(y, rest);
  }

  lemma CipherBodyRoundTrip(x: Bytes, y: Bytes, c3: Bytes, c2: Bytes)
    requires |x| == 32 && |y| == 32 && |c3| < LEN_LIMIT
    ensures var m := |c2| % 0x1_0000_0000;
            ParseCipherBody(CipherBody(x, y, c3, c2)) == Ok(Read(c2[m..], [4] + x + y + c3 + c2[..m]))
  {
    hide Tlv, ParseTlv, IntContent, ParseTwoIntegers;
    var t3, t2 := Tlv(OCTET_STRING, c3), Tlv(OCTET_STRING, c2);
    assert CipherBody(x, y, c3, c2) == Tlv(INTEGER, IntContent(x)) + Tlv(INTEGER, IntContent(y)) + (t3 + t2);
    TwoIntegersRoundTrip(x, y, t3 + t2);
    TlvRoundTrip(OCTET_STRING, c3, t2);
    TlvRead(OCTET_STRING, c2);
  }

  lemma RawParts(raw: Bytes)
    requires RawShape(raw)
    ensures [4] + raw[1..33] + raw[33..65] + raw[65..97] + raw[97..] == raw
  {
  }

  /** A SEQUENCE header followed by its body is read up to the announced length. */
  lemma HeaderRoundTrip(n: nat, body: Bytes)
    ensures var der, m: nat := [SEQUENCE] + DerLen(n) + body, n % 0x1_0000_0000;
            der[0] == SEQUENCE && ParseLength(der[1..]) == Ok(Read(body, m))
  {
    hide DerLen, ParseLength;
    assert ([SEQUENCE] + DerLen(n) + body)[1..] == DerLen(n) + body;
    LengthRead(n, body);
  }

  /** What the header announces, against what the body holds. */
  lemma AnnouncedExactly(x: Bytes, y: Bytes, c3: Bytes, c2: Bytes)
    requires |x| == 32 && |y| == 32 && |c3| == 32
    ensures AnnouncedLen(x, y, c3, c2) <= |CipherBody(x, y, c3, c2)| <= AnnouncedLen(x, y, c3, c2) + 2
    ensures AnnouncedLen(x, y, c3, c2) == |CipherBody(x, y, c3, c2)| <==> |c2| < 0x1_0000
    ensures |c2| <= |CipherBody(x, y, c3, c2)| <= |c2| + 120
  {
    hide Tlv, IntContent, DerLen;
    IntegerLenExact(x);
    IntegerLenExact(y);
    OctetStringLenExact(c3);
    OctetStringLenExact(c2);
  }

  /** The two lengths the reader compares, both seen modulo 2^32, are equal only if the lengths are. */
  lemma LengthsCompared(announced: nat, body: nat, c2: nat)
    requires announced <= body <= announced + 2 && c2 <= body
    ensures body - (c2 - c2 % 0x1_0000_0000) == announced % 0x1_0000_0000 ==> announced == body
  {
  }

  /** Raw to DER and back is the identity if and only if C2 has fewer than 65536 bytes; with more
      the converter refuses its own output. */
  lemma RawDerRoundTrip(raw: Bytes)
    requires RawShape(raw)
    ensures DerToRaw(RawToDer(raw).value) == if |raw| - 97 < 0x1_0000 then Ok(raw) else Err
  {
    hide DerLen, ParseLength, CipherBody, ParseCipherBody, AnnouncedLen;
    var x, y, c3, c2 := raw[1..33], raw[33..65], raw[65..97], raw[97..];
    var n, body := AnnouncedLen(x, y, c3, c2), CipherBody(x, y, c3, c2);
    AnnouncedExactly(x, y, c3, c2);
    HeaderRoundTrip(n, body);
    CipherBodyRoundTrip(x, y, c3, c2);
    if |c2| < 0x1_0000 {
      assert c2[..|c2|] == c2;
      RawParts(raw);
    } else {
      LengthsCompared(n, |body|, |c2|);
    }
  }

  // ---------------------------------------------------------------- the signature layouts

  /** sm2_signature_raw_to_der. */
  function SigRawToDer(raw: Bytes): (r: Bytes)
    requires |raw| == 64
  {
    var r, s := raw[..32], raw[32..];
    [SEQUENCE] + DerLen(DerIntegerLen(r) + DerIntegerLen(s))
    + (Tlv(INTEGER, IntContent(r)) + Tlv(INTEGER, IntContent(s)))
  }

  /** sm2_signature_der_to_raw. */
  function SigDerToRaw(der: Bytes): (r: Result<Bytes>) {
    if der == [] || der[0] != SEQUENCE then Err else
    match ParseLength(der[1..])
    case Err => Err
    case Ok(Read(body, seqLen)) =>
      if seqLen > |body| then Err else
      match ParseTwoIntegers(body)
      case Err => Err
      case Ok(Read(rest, (r, s))) => if |body| - |rest| != seqLen then Err else Ok(r + s)
  }

  /** Every 64-byte signature survives the trip through DER. */
  lemma SignatureRoundTrip(raw: Bytes)
    requires |raw| == 64
    ensures SigDerToRaw(SigRawToDer(raw)) == Ok(raw)
  {
    hide DerLen, ParseLength, Tlv, IntContent, DerIntegerLen, ParseTwoIntegers;
    var r, s := raw[..32], raw[32..];
    var tr, ts := Tlv(INTEGER, IntContent(r)), Tlv(INTEGER, IntContent(s));
    IntegerLenExact(r);
    IntegerLenExact(s);
    IntegerLenSmall(r);
    IntegerLenSmall(s);
    HeaderRoundTrip(DerIntegerLen(r) + DerIntegerLen(s), tr + ts);
    assert tr + ts + [] == tr + ts;
    TwoIntegersRoundTrip(r, s, []);
    assert r + s == raw;
  }

  lemma IntegerLenSmall(v: Bytes)
    requires |v| == 32
    ensures DerIntegerLen(v) <= 35
  {
  }

  // ---------------------------------------------------------------- encryption

  /** The SEC1 encoding of a point: a single zero for the identity. */
  function PointBytes(c: Curve, k: nat): (r: Bytes) { if k == 0 then [0] else [4] + X(c, k) + Y(c, k) }

  const SM2_MAX_PLAINTEXT_LEN: nat := 64 * 1024

  /** Sm2Encryptor::encrypt with ephemeral scalar k under public key [pub]G. */
  function Encrypt(c: Curve, sm3: Sm3, pub: nat, k: nat, data: Bytes): (r: Result<Bytes>)
    requires c.order > 1
  {
    if |data| > SM2_MAX_PLAINTEXT_LEN then Err else
    var s := Times(c, k, pub);
    if s == 0 then Err else
    var c2 := XorSeq(data, Stream(Counter(sm3, X(c, s) + Y(c, s)), |data|));
    Ok(PointBytes(c, Times(c, k, 1)) + Digest(sm3, X(c, s) + data + Y(c, s)) + c2)
  }

  /** Sm2Decryptor::decrypt_raw with private scalar d. */
  function DecryptRaw(c: Curve, sm3: Sm3, d: nat, data: Bytes): (r: Result<Bytes>)
    requires c.order > 1
  {
    if |data| < 97 || data[0] != 4 then Err else
    var c3, c2 := data[65..97], data[97..];
    match c.find(data[1..33], data[33..65])
    case None => Err
    case Some(c1) =>
      var s := Times(c, d, c1);
      if Times(c, c1, 1) == 0 || s == 0 || |c2| > KDF_SM3_MAX then Err else
      var m := XorSeq(c2, Stream(Counter(sm3, X(c, s) + Y(c, s)), |c2|));
      if Digest(sm3, X(c, s) + m + Y(c, s)) != c3 then Err else Ok(m)
  }

  const MAGIC: Bytes := [0x53, 0x4D]

  function EncryptDer(c: Curve, sm3: Sm3, pub: nat, k: nat, data: Bytes): (r: Result<Bytes>)
    requires c.order > 1
  {
    match Encrypt(c, sm3, pub, k, data) case Err => Err case Ok(raw) => RawToDer(raw)
  }

  /** encrypt_versioned and encrypt_versioned_der: magic, version 1, format byte, payload. */
  function Versioned(format: byte, payload: Result<Bytes>): (r: Result<Bytes>) {
    match payload case Err => Err case Ok(p) => Ok(MAGIC + [1, format] + p)
  }

  function DecryptViaDer(c: Curve, sm3: Sm3, d: nat, der: Bytes): (r: Result<Bytes>)
    requires c.order > 1
  {
    match DerToRaw(der) case Err => Err case Ok(raw) => DecryptRaw(c, sm3, d, raw)
  }

  /** Sm2Decryptor::decrypt: the format is found from the first bytes; the version is ignored. */
  function Decrypt(c: Curve, sm3: Sm3, d: nat, data: Bytes): (r: Result<Bytes>)
    requires c.order > 1
  {
    if |data| >= 4 && data[..2] == MAGIC then
      if data[3] == 0 then DecryptRaw(c, sm3, d, data[4..])
      else if data[3] == 1 then DecryptViaDer(c, sm3, d, data[4..])
      else Err
    else if data != [] && data[0] == 0x30 then DecryptViaDer(c, sm3, d, data)
    else if data != [] && data[0] == 0x04 then DecryptRaw(c, sm3, d, data)
    else Err
  }

  /** Sender and receiver reach the same point, and it is not the identity unless C1 is. */
  lemma SameSecret(c: Curve, k: nat, d: nat)
    requires c.order > 1
    ensures Times(c, d, Times(c, k, 1)) == Times(c, k, Times(c, d, 1))
    ensures Times(c, k, Times(c, d, 1)) != 0 ==> Times(c, k, 1) != 0
    ensures Times(c, Times(c, k, 1), 1) == Times(c, k, 1)
  {
    ModExchange(k, d, c.order);
    TimesOne(c, k);
    TimesOne(c, d);
    TimesOne(c, Times(c, k, 1));
  }

  lemma TimesOne(c: Curve, k: nat)
    requires c.order > 1
    ensures Times(c, k, 1) == k % c.order
  {
    assert k * 1 == k;
  }

  /** Raw decryption under the matching private key returns the plaintext. */
  lemma DecryptRawOfEncrypt(c: Curve, sm3: Sm3, d: nat, k: nat, data: Bytes)
    requires CurveOk(c) && Encrypt(c, sm3, Times(c, d, 1), k, data).Ok?
    ensures |data| <= SM2_MAX_PLAINTEXT_LEN
    ensures var raw := Encrypt(c, sm3, Times(c, d, 1), k, data).value;
            RawShape(raw) && |raw| == 97 + |data| && DecryptRaw(c, sm3, d, raw) == Ok(data)
  {
    hide Digest, Stream, Counter, XorSeq, X, Y, Times;
    var raw := Encrypt(c, sm3, Times(c, d, 1), k, data).value;
    var c1, s := Times(c, k, 1), Times(c, k, Times(c, d, 1));
    SameSecret(c, k, d);
    assert Multiple(c, c1);
    var stream := Stream(Counter(sm3, X(c, s) + Y(c, s)), |data|);
    var c3, c2 := Digest(sm3, X(c, s) + data + Y(c, s)), XorSeq(data, stream);
    assert raw == [4] + X(c, c1) + Y(c, c1) + c3 + c2;
    PartsOfRaw(X(c, c1), Y(c, c1), c3, c2);
    XorSeqTwice(data, stream);
  }

  lemma PartsOfRaw(x: Bytes, y: Bytes, c3: Bytes, c2: Bytes)
    requires |x| == 32 && |y| == 32 && |c3| == 32
    ensures var raw := [4] + x + y + c3 + c2;
            raw[1..33] == x && raw[33..65] == y && raw[65..97] == c3 && raw[97..] == c2
  {
  }

  /** Decryption undoes all four formats whenever encryption succeeds: always for the two raw
      ones, and for the two DER ones exactly when the plaintext is not 65536 bytes long, the one
      admitted length the DER converter announces wrongly. */
  lemma DecryptUndoesEncrypt(c: Curve, sm3: Sm3, d: nat, k: nat, data: Bytes)
    requires CurveOk(c) && Encrypt(c, sm3, Times(c, d, 1), k, data).Ok?
    ensures var raw := Encrypt(c, sm3, Times(c, d, 1), k, data);
            var der := EncryptDer(c, sm3, Times(c, d, 1), k, data);
            var viaDer := if |data| == 0x1_0000 then Err else Ok(data);
            && der.Ok?
            && Decrypt(c, sm3, d, raw.value) == Ok(data)
            && Decrypt(c, sm3, d, Versioned(0, raw).value) == Ok(data)
            && Decrypt(c, sm3, d, der.value) == viaDer
            && Decrypt(c, sm3, d, Versioned(1, der).value) == viaDer
  {
    hide Decrypt, DecryptRaw, DerToRaw, Encrypt, Times;
    var raw := Encrypt(c, sm3, Times(c, d, 1), k, data).value;
    DecryptRawOfEncrypt(c, sm3, d, k, data);
    RawDerRoundTrip(raw);
    var der := RawToDer(raw).value;
    Dispatch(c, sm3, d, raw, 0);
    Dispatch(c, sm3, d, der, 1);
  }

  /** The four ways into `Decrypt` reach the intended decoder. */
  lemma Dispatch(c: Curve, sm3: Sm3, d: nat, payload: Bytes, format: byte)
    requires c.order > 1 && format <= 1 && payload != [] && payload[0] == (if format == 0 then 0x04 else 0x30)
    ensures var r := if format == 0 then DecryptRaw(c, sm3, d, payload) else DecryptViaDer(c, sm3, d, payload);
            Decrypt(c, sm3, d, payload) == r && Decrypt(c, sm3, d, MAGIC + [1, format] + payload) == r
  {
    hide DecryptRaw, DecryptViaDer;
    var v := MAGIC + [1, format] + payload;
    assert v[..2] == MAGIC && v[3] == format && v[4..] == payload;
    if |payload| >= 4 { assert payload[..2][0] != MAGIC[0]; }
  }

  // ---------------------------------------------------------------- what a ciphertext is

  /** Encryption succeeds if and only if the plaintext has at most 65536 bytes and the shared point
      is not the identity; C1 is then [k]G, C3 the hash of the plaintext between the shared
      coordinates, and C2 the plaintext masked with the key stream over them. */
  lemma EncryptsExactly(c: Curve, sm3: Sm3, pub: nat, k: nat, data: Bytes)
    requires c.order > 1
    ensures var r, s, c1 := Encrypt(c, sm3, pub, k, data), k * pub % c.order, k % c.order;
            && (r.Ok? <==> |data| <= 65536 && s != 0)
            && (r.Ok? ==> r.value == [4] + X(c, c1) + Y(c, c1) + Digest(sm3, X(c, s) + data + Y(c, s))
                                     + XorSeq(data, KeyBytes(sm3, X(c, s) + Y(c, s), |data|)))
  {
    var s := Times(c, k, pub);
    TimesOne(c, k);
    ZeroMultiple(k, pub, c.order);
    hide X, Y, Digest, XorSeq, Stream, Counter, KeyBytes;
    StreamIsKeyBytes(sm3, X(c, s) + Y(c, s), |data|);
  }

  lemma ZeroMultiple(k: nat, p: nat, n: nat)
    requires n > 0
    ensures k % n == 0 ==> k * p % n == 0
  {
    ModMulLeft(k, p, n);
    if k % n == 0 { assert (k % n) * p == 0; }
  }

  /** Raw decryption answers a message if and only if C1 is a point on the curve whose multiple by
      the private scalar is not the identity, C2 is the message masked with the key stream over
      the shared coordinates and C3 is the hash of the message between them. */
  lemma DecryptsExactly(c: Curve, sm3: Sm3, d: nat, raw: Bytes, message: Bytes)
    requires c.order > 1
    ensures DecryptRaw(c, sm3, d, raw) == Ok(message) <==>
            && |raw| == 97 + |message| && raw[0] == 4 && |message| <= KDF_SM3_MAX
            && c.find(raw[1..33], raw[33..65]).Some?
            && var c1 := c.find(raw[1..33], raw[33..65]).value;
            && c1 % c.order != 0 && d * c1 % c.order != 0
            && var x, y := X(c, d * c1 % c.order), Y(c, d * c1 % c.order);
            && raw[97..] == XorSeq(message, KeyBytes(sm3, x + y, |message|))
            && raw[65..97] == Digest(sm3, x + message + y)
  {
    if |raw| >= 97 && c.find(raw[1..33], raw[33..65]).Some? {
      var c1, c2 := c.find(raw[1..33], raw[33..65]).value, raw[97..];
      TimesOne(c, c1);
      var s := Times(c, d, c1);
      hide X, Y, Digest, XorSeq, Stream, Counter, KeyBytes;
      StreamIsKeyBytes(sm3, X(c, s) + Y(c, s), |c2|);
      XorSeqTwice(c2, KeyBytes(sm3, X(c, s) + Y(c, s), |c2|));
      if |message| == |c2| { XorSeqTwice(message, KeyBytes(sm3, X(c, s) + Y(c, s), |c2|)); }
    }
  }
}
