/** The X.509 certificate builder of gm-ca (gm-ca/src/cert.rs, gm-ca/src/cert_profile.rs), read
    back with the gm-der parsers in the layout of section 4.1 of RFC 5280.

    The subject name comes in as finished DER; text is its bytes. */
module Certificate {
  import opened Bytes
  import opened Der
  import opened CertificateTime

  // ---------------------------------------------------------------- extension values

  datatype KeyUsage = KeyUsage(
    digitalSignature: bool, nonRepudiation: bool, keyEncipherment: bool, dataEncipherment: bool,
    keyAgreement: bool, keyCertSign: bool, crlSign: bool, encipherOnly: bool, decipherOnly: bool)

  /** The flag with bit number `i` in section 4.2.1.3 of RFC 5280. */
  predicate Flag(k: KeyUsage, i: nat)
    requires i < 9
  {
    match i
    case 0 => k.digitalSignature
    case 1 => k.nonRepudiation
    case 2 => k.keyEncipherment
    case 3 => k.dataEncipherment
    case 4 => k.keyAgreement
    case 5 => k.keyCertSign
    case 6 => k.crlSign
    case 7 => k.encipherOnly
    case _ => k.decipherOnly
  }

  /** The highest set bit, -1 if none. */
  function LastBit(k: KeyUsage, n: nat): (r: int)
    requires n <= 9
    ensures -1 <= r < n
    ensures r >= 0 ==> Flag(k, r)
    ensures forall i :: r < i < n ==> !Flag(k, i)
  {
    if n == 0 then -1 else if Flag(k, n - 1) then n - 1 else LastBit(k, n - 1)
  }

  /** The first `n` flags as a binary number, flag 0 being the most significant digit. */
  function Binary(k: KeyUsage, n: nat): (r: nat)
    requires n <= 9
    ensures r < Pow2(n)
  {
    if n == 0 then 0 else 2 * Binary(k, n - 1) + (if Flag(k, n - 1) then 1 else 0)
  }

  /** KeyUsageBits::to_der_bytes, as proved of its bit-setting code below. */
  function KeyUsageBytes(k: KeyUsage): (r: Bytes) {
    var last := LastBit(k, 9);
    if last < 0 then [0]
    else
      assert Pow2(8) == 256;
      if last < 8 then [7 - last, Binary(k, 8)] else [7, Binary(k, 8), 0x80]
  }

  lemma BinaryStep(k: KeyUsage, i: nat, mask: nat)
    requires i < 8 && 2 * mask == Pow2(8 - i)
    ensures Binary(k, i + 1) * Pow2(7 - i) == Binary(k, i) * Pow2(8 - i) + (if Flag(k, i) then mask else 0)
  {
    var b := Binary(k, i);
    assert Pow2(7 - i) == mask;
    assert (2 * b) * mask == b * (2 * mask);
    assert (2 * b + 1) * mask == (2 * b) * mask + mask;
  }

  /** What the code holds after its first i flags. */
  predicate After(k: KeyUsage, i: nat, byte0: nat, lastBit: int)
    requires i <= 8
  {
    byte0 == Binary(k, i) * Pow2(8 - i) && lastBit == LastBit(k, i)
  }

  lemma NextFlag(k: KeyUsage, i: nat, mask: nat, byte0: nat, lastBit: int)
    requires i < 8 && 2 * mask == Pow2(8 - i) && After(k, i, byte0, lastBit)
    ensures if Flag(k, i) then After(k, i + 1, byte0 + mask, i) else After(k, i + 1, byte0, lastBit)
  {
    BinaryStep(k, i, mask);
  }

  lemma Masks()
    ensures Pow2(8) == 0x100 && Pow2(7) == 0x80 && Pow2(6) == 0x40 && Pow2(5) == 0x20
    ensures Pow2(4) == 0x10 && Pow2(3) == 0x08 && Pow2(2) == 0x04 && Pow2(1) == 0x02
  {
  }

  /** One guarded set_bit. */
  method SetBit(flag: bool, byte0: nat, lastBit: int, pos: nat, mask: nat, ghost k: KeyUsage) returns (b: nat, l: int)
    requires pos < 8 && 2 * mask == Pow2(8 - pos) && After(k, pos, byte0, lastBit) && flag == Flag(k, pos)
    ensures After(k, pos + 1, b, l)
  {
    NextFlag(k, pos, mask, byte0, lastBit);
    b, l := byte0, lastBit;
    if flag {
      b := b + mask;
      if pos > l {
        l := pos;
      }
    }
  }

  /** Each set flag sets its own bit, from the most significant one down. */
  method FirstEight(k: KeyUsage) returns (byte0: nat, lastBit: int)
    ensures After(k, 8, byte0, lastBit)
  {
    byte0, lastBit := 0, -1;
    assert After(k, 0, byte0, lastBit);
    hide Binary, LastBit, Pow2, After;
    Masks();
    byte0, lastBit := SetBit(k.digitalSignature, byte0, lastBit, 0, 0x80, k);
    byte0, lastBit := SetBit(k.nonRepudiation, byte0, lastBit, 1, 0x40, k);
    byte0, lastBit := SetBit(k.keyEncipherment, byte0, lastBit, 2, 0x20, k);
    byte0, lastBit := SetBit(k.dataEncipherment, byte0, lastBit, 3, 0x10, k);
    byte0, lastBit := SetBit(k.keyAgreement, byte0, lastBit, 4, 0x08, k);
    byte0, lastBit := SetBit(k.keyCertSign, byte0, lastBit, 5, 0x04, k);
    byte0, lastBit := SetBit(k.crlSign, byte0, lastBit, 6, 0x02, k);
    byte0, lastBit := SetBit(k.encipherOnly, byte0, lastBit, 7, 0x01, k);
  }

  lemma LastFlag(k: KeyUsage, byte0: nat, lastBit: int)
    requires After(k, 8, byte0, lastBit)
    ensures byte0 == Binary(k, 8) < 256 && LastBit(k, 9) == if k.decipherOnly then 8 else lastBit
  {
    assert Pow2(8) == 256;
  }

  /** KeyUsageBits::to_der_bytes. */
  method KeyUsageToDer(k: KeyUsage) returns (r: Bytes)
    ensures r == KeyUsageBytes(k)
  {
    var byte0, lastBit := FirstEight(k);
    var byte1: byte := 0;
    LastFlag(k, byte0, lastBit);
    hide Binary, LastBit, Pow2, After;
    if k.decipherOnly {
      byte1 := 0x80;
      lastBit := 8;
    }
    if lastBit < 0 {
      return [0];
    }
    var unusedBits := if lastBit < 8 then 7 - lastBit else 7;
    r := if lastBit < 8 then [unusedBits, byte0] else [unusedBits, byte0, byte1];
  }

  function Halve(n: nat, times: nat): (r: nat)
    decreases times, n
  {
    if times == 0 then n else Halve(n / 2, times - 1)
  }

  /** Bit `i` of a BIT STRING content, counted from the most significant bit of its first byte;
      bits beyond the end are zero. */
  predicate BitAt(content: Bytes, i: nat) {
    1 + i / 8 < |content| && Halve(content[1 + i / 8], 7 - i % 8) % 2 == 1
  }

  lemma {:induction false} BinaryDigit(k: KeyUsage, n: nat, i: nat)
    requires i < n <= 9
    ensures Halve(Binary(k, n), n - 1 - i) % 2 == 1 <==> Flag(k, i)
    decreases n
  {
    if i < n - 1 {
      assert Binary(k, n) / 2 == Binary(k, n - 1);
      BinaryDigit(k, n - 1, i);
    }
  }

  /** The encoded bit string carries exactly the nine flags, and its first byte is the number of
      unused bits after the last set one. */
  lemma KeyUsageRoundTrip(k: KeyUsage)
    ensures forall i :: 0 <= i < 9 ==> (BitAt(KeyUsageBytes(k), i) <==> Flag(k, i))
    ensures var last := LastBit(k, 9);
            var r := KeyUsageBytes(k);
            last >= 0 ==> 8 * (|r| - 1) == last + 1 + r[0]
  {
    var r := KeyUsageBytes(k);
    forall i | 0 <= i < 9 ensures BitAt(r, i) <==> Flag(k, i) {
      if i < 8 { BinaryDigit(k, 8, i); }
    }
  }

  datatype Purpose = ServerAuth | ClientAuth | CodeSigning | EmailProtection | TimeStamping | OcspSigning

  function PurposeOid(p: Purpose): (r: Bytes) {
    [0x2B, 0x06, 0x01, 0x05, 0x05, 0x07, 0x03,
     match p case ServerAuth => 1 case ClientAuth => 2 case CodeSigning => 3
             case EmailProtection => 4 case TimeStamping => 8 case OcspSigning => 9]
  }

  function PurposeElements(ps: seq<Purpose>): (r: seq<Element>)
    ensures |r| == |ps| && forall i :: 0 <= i < |ps| ==> r[i] == Element(OID, PurposeOid(ps[i]))
  {
    seq(|ps|, i requires 0 <= i < |ps| => Element(OID, PurposeOid(ps[i])))
  }

  /** build_ext_key_usage_value. */
  method ExtKeyUsageValue(ps: seq<Purpose>) returns (v: Bytes)
    ensures v == Tlv(SEQUENCE, EncodeList(PurposeElements(ps)))
  {
    var inner: Bytes := [];
    for i := 0 to |ps|
      invariant inner + EncodeList(PurposeElements(ps)[i..]) == EncodeList(PurposeElements(ps))
    {
      assert PurposeElements(ps)[i..][1..] == PurposeElements(ps)[i + 1..];
      inner := inner + Tlv(OID, PurposeOid(ps[i]));
    }
    assert inner == inner + EncodeList(PurposeElements(ps)[|ps|..]);
    v := Tlv(SEQUENCE, inner);
  }

  datatype GeneralName =
    | DnsName(name: Bytes)
    | Ipv4(octets: Bytes)
    | Ipv6(octets: Bytes)
    | Uri(name: Bytes)
    | Rfc822Name(name: Bytes)
  {
    predicate Valid() { (Ipv4? ==> |octets| == 4) && (Ipv6? ==> |octets| == 16) }

    function ToElement(): (e: Element) {
      match this
      case DnsName(s) => Element(0x82, s)
      case Ipv4(o) => Element(0x87, o)
      case Ipv6(o) => Element(0x87, o)
      case Uri(s) => Element(0x86, s)
      case Rfc822Name(s) => Element(0x81, s)
    }

    /** GeneralName::to_der; addresses carry a literal length byte. */
    function ToDer(): (r: Bytes)
      requires Valid()
      ensures r == Tlv(ToElement().tag, ToElement().content)
    {
      match this
      case DnsName(s) => [0x82] + DerLen(|s|) + s
      case Ipv4(o) => [0x87] + [4] + o
      case Ipv6(o) => [0x87] + [16] + o
      case Uri(s) => [0x86] + DerLen(|s|) + s
      case Rfc822Name(s) => [0x81] + DerLen(|s|) + s
    }
  }

  function NameElements(names: seq<GeneralName>): (r: seq<Element>)
    ensures |r| == |names| && forall i :: 0 <= i < |names| ==> r[i] == names[i].ToElement()
  {
    seq(|names|, i requires 0 <= i < |names| => names[i].ToElement())
  }

  ghost predicate ValidNames(names: seq<GeneralName>) { forall n :: n in names ==> n.Valid() }

  lemma ListStep(items: seq<Element>, done: Bytes, i: nat)
    requires i < |items|
    ensures done + EncodeList(items[i..]) == done + Tlv(items[i].tag, items[i].content) + EncodeList(items[i + 1..])
  {
    hide Tlv;
    assert items[i..][0] == items[i] && items[i..][1..] == items[i + 1..];
  }

  /** build_san_value. */
  method SanValue(names: seq<GeneralName>) returns (v: Bytes)
    requires ValidNames(names)
    ensures v == Tlv(SEQUENCE, EncodeList(NameElements(names)))
  {
    hide Tlv, EncodeList;
    var inner: Bytes := [];
    ghost var items := NameElements(names);
    assert items[0..] == items;
    for i := 0 to |names|
      invariant inner + EncodeList(items[i..]) == EncodeList(items)
    {
      ListStep(items, inner, i);
      inner := inner + names[i].ToDer();
    }
    NoMore(items, inner);
    v := Tlv(SEQUENCE, inner);
  }

  lemma NoMore(items: seq<Element>, done: Bytes)
    ensures done + EncodeList(items[|items|..]) == done && items[0..] == items
  {
  }

  /** An element read back as a name; the address family is its length. */
  function ToName(e: Element): (r: Result<GeneralName>) {
    if e.tag == 0x82 then Ok(DnsName(e.content))
    else if e.tag == 0x87 && |e.content| == 4 then Ok(Ipv4(e.content))
    else if e.tag == 0x87 && |e.content| == 16 then Ok(Ipv6(e.content))
    else if e.tag == 0x86 then Ok(Uri(e.content))
    else if e.tag == 0x81 then Ok(Rfc822Name(e.content))
    else Err
  }

  lemma NameReadsBack(n: GeneralName)
    requires n.Valid()
    ensures ToName(n.ToElement()) == Ok(n)
  {
  }

  /** The names of a subject alternative name value read back in order. */
  lemma SanRoundTrip(names: seq<GeneralName>, value: Bytes)
    requires ValidNames(names) && |value| < LEN_LIMIT
    requires value == Tlv(SEQUENCE, EncodeList(NameElements(names)))
    ensures ParseAll([SEQUENCE], value) == Ok([EncodeList(NameElements(names))])
    ensures ParseList(EncodeList(NameElements(names))) == Ok(NameElements(names))
    ensures forall i :: 0 <= i < |names| ==> ToName(NameElements(names)[i]) == Ok(names[i])
  {
    OneField(SEQUENCE, EncodeList(NameElements(names)));
    ListRoundTrip(NameElements(names));
    forall i | 0 <= i < |names| ensures ToName(NameElements(names)[i]) == Ok(names[i]) {
      assert names[i] in names;
      NameReadsBack(names[i]);
    }
  }

  lemma SingleField(tag: byte, data: Bytes)
    ensures ParseAll([tag], data).Ok? ==>
              ParseTlv(tag, data).Ok? && ParseAll([tag], data).value == [ParseTlv(tag, data).value.value]
  {
    var tags: seq<byte> := [tag];
    assert tags[1..] == [];
  }

  lemma OneField(tag: byte, content: Bytes)
    ensures EncodeFields([tag], [content]) == Tlv(tag, content)
    ensures |Tlv(tag, content)| < LEN_LIMIT ==> ParseAll([tag], Tlv(tag, content)) == Ok([content])
  {
    assert EncodeFields([], []) == [];
    assert Tlv(tag, content) + [] == Tlv(tag, content);
    if |Tlv(tag, content)| < LEN_LIMIT { AllRoundTrip([tag], [content]); }
  }

  /** The purposes of an extended key usage value read back in order, and no two purposes share
      an identifier. */
  lemma PurposesRoundTrip(ps: seq<Purpose>, value: Bytes)
    requires value == Tlv(SEQUENCE, EncodeList(PurposeElements(ps))) && |value| < LEN_LIMIT
    ensures ParseAll([SEQUENCE], value) == Ok([EncodeList(PurposeElements(ps))])
    ensures ParseList(EncodeList(PurposeElements(ps))) == Ok(PurposeElements(ps))
    ensures forall p, q :: PurposeOid(p) == PurposeOid(q) ==> p == q
  {
    OneField(SEQUENCE, EncodeList(PurposeElements(ps)));
    ListRoundTrip(PurposeElements(ps));
    forall p, q | PurposeOid(p) == PurposeOid(q) ensures p == q {
      assert PurposeOid(p)[7] == PurposeOid(q)[7];
    }
  }

  /** build_basic_constraints. */
  function BasicConstraints(isCa: bool, pathLen: Option<byte>): (r: Bytes) {
    Tlv(SEQUENCE, DerBool(isCa) + (if isCa && pathLen.Some? then DerIntegerPositive([pathLen.value]) else []))
  }

  /** The reading side: cA, then an optional one-byte path length behind an optional sign byte. */
  function ParseBasicConstraints(value: Bytes): (r: Result<(bool, Option<byte>)>) {
    match ParseAll([SEQUENCE], value)
    case Err => Err
    case Ok(c) =>
      match ParseFields([BOOLEAN], c[0])
      case Err => Err
      case Ok(Read(rest, b)) =>
        if |b[0]| != 1 then Err else
        var ca := b[0][0] != 0;
        if rest == [] then Ok((ca, None)) else
        match ParseAll([INTEGER], rest)
        case Err => Err
        case Ok(n) => if n[0] == [] then Err else Ok((ca, Some(n[0][|n[0]| - 1])))
  }

  /** The path length survives exactly when the certificate is a CA certificate. */
  lemma BasicConstraintsRoundTrip(isCa: bool, pathLen: Option<byte>)
    ensures ParseBasicConstraints(BasicConstraints(isCa, pathLen)) == Ok((isCa, if isCa then pathLen else None))
  {
    var flag: Bytes := [if isCa then 0xFF else 0x00];
    var tail := if isCa && pathLen.Some? then DerIntegerPositive([pathLen.value]) else [];
    assert DerBool(isCa) == Tlv(BOOLEAN, flag);
    OneField(SEQUENCE, DerBool(isCa) + tail);
    OneField(BOOLEAN, flag);
    FieldsRoundTrip([BOOLEAN], [flag], tail);
    if isCa && pathLen.Some? {
      OneField(INTEGER, IntegerContent([pathLen.value]));
    }
  }

  /** build_authority_key_id_from_hash: the length byte is a bare cast to u8. */
  function AuthorityKeyId(keyId: Bytes): (r: Bytes) {
    Tlv(SEQUENCE, [0xA0, |keyId| % 256] + keyId)
  }

  /** The key identifier reads back if and only if it has fewer than 128 bytes; the callers pass
      20. */
  lemma AuthorityKeyIdRoundTrip(keyId: Bytes)
    ensures ParseAll([0xA0], [0xA0, |keyId| % 256] + keyId) == Ok([keyId]) <==> |keyId| < 128
    ensures |keyId| < 128 ==> ParseAll([SEQUENCE], AuthorityKeyId(keyId)) == Ok([[0xA0, |keyId| % 256] + keyId])
  {
    var d := [0xA0, |keyId| % 256] + keyId;
    if |keyId| < 128 {
      assert d == Tlv(0xA0, keyId);
      OneField(SEQUENCE, d);
      OneField(0xA0, keyId);
    } else {
      assert d[1..] == [|keyId| % 256] + keyId;
      assert ParseTlv(0xA0, d).Ok? ==> |ParseTlv(0xA0, d).value.value| < |keyId|;
      SingleField(0xA0, d);
    }
  }

  // ---------------------------------------------------------------- extensions

  datatype Ext = Ext(oid: Bytes, critical: bool, value: Bytes)

  function ExtBody(e: Ext): (r: Bytes) {
    Tlv(OID, e.oid) + (if e.critical then DerBool(true) else []) + Tlv(OCTET_STRING, e.value)
  }

  /** build_extension. */
  function BuildExtension(e: Ext): (r: Bytes) { Tlv(SEQUENCE, ExtBody(e)) }

  /** The body of one Extension: identifier, optional criticality, value. */
  function ParseExt(body: Bytes): (r: Result<Ext>) {
    match ParseFields([OID], body)
    case Err => Err
    case Ok(Read(rest, oid)) =>
      if rest != [] && rest[0] == BOOLEAN then
        match ParseAll([BOOLEAN, OCTET_STRING], rest)
        case Err => Err
        case Ok(f) => Ok(Ext(oid[0], f[0] != [0], f[1]))
      else
        match ParseAll([OCTET_STRING], rest)
        case Err => Err
        case Ok(f) => Ok(Ext(oid[0], false, f[0]))
  }

  lemma TrueIsTlv()
    ensures DerBool(true) == Tlv(BOOLEAN, [0xFF])
  {
  }

  lemma StartsWithTag(tag: byte, content: Bytes)
    ensures Tlv(tag, content) != [] && Tlv(tag, content)[0] == tag
  {
  }

  lemma ExtRoundTrip(e: Ext)
    requires |ExtBody(e)| < LEN_LIMIT
    ensures ParseExt(ExtBody(e)) == Ok(e)
  {
    hide Tlv, ParseTlv, ParseFields, EncodeFields;
    var flag: Bytes := [0xFF];
    var rest := (if e.critical then DerBool(true) else []) + Tlv(OCTET_STRING, e.value);
    assert ExtBody(e) == Tlv(OID, e.oid) + rest;
    OneField(OID, e.oid);
    FieldsRoundTrip([OID], [e.oid], rest);
    if e.critical {
      TrueIsTlv();
      TwoFields(BOOLEAN, flag, OCTET_STRING, e.value);
    } else {
      OneField(OCTET_STRING, e.value);
      StartsWithTag(OCTET_STRING, e.value);
      assert rest == Tlv(OCTET_STRING, e.value);
    }
  }

  function ExtElements(exts: seq<Ext>): (r: seq<Element>)
    ensures |r| == |exts| && forall i :: 0 <= i < |exts| ==> r[i] == Element(SEQUENCE, ExtBody(exts[i]))
  {
    seq(|exts|, i requires 0 <= i < |exts| => Element(SEQUENCE, ExtBody(exts[i])))
  }

  function ParseExtElements(items: seq<Element>): (r: Result<seq<Ext>>) {
    if items == [] then Ok([])
    else if items[0].tag != SEQUENCE then Err
    else
      match ParseExt(items[0].content)
      case Err => Err
      case Ok(e) =>
        match ParseExtElements(items[1..])
        case Err => Err
        case Ok(more) => Ok([e] + more)
  }

  /** The SEQUENCE OF Extension, read with the list parser. */
  function ParseExtensions(value: Bytes): (r: Result<seq<Ext>>) {
    match ParseAll([SEQUENCE], value)
    case Err => Err
    case Ok(c) =>
      match ParseList(c[0])
      case Err => Err
      case Ok(items) => ParseExtElements(items)
  }

  lemma {:induction false} ExtElementsRoundTrip(exts: seq<Ext>)
    requires |EncodeList(ExtElements(exts))| < LEN_LIMIT
    ensures ParseExtElements(ExtElements(exts)) == Ok(exts)
    decreases |exts|
  {
    if exts != [] {
      var items := ExtElements(exts);
      assert items[1..] == ExtElements(exts[1..]);
      ExtRoundTrip(exts[0]);
      ExtElementsRoundTrip(exts[1..]);
      assert [exts[0]] + exts[1..] == exts;
    }
  }

  lemma ExtensionsRoundTrip(exts: seq<Ext>)
    requires |Tlv(SEQUENCE, EncodeList(ExtElements(exts)))| < LEN_LIMIT
    ensures ParseExtensions(Tlv(SEQUENCE, EncodeList(ExtElements(exts)))) == Ok(exts)
  {
    OneField(SEQUENCE, EncodeList(ExtElements(exts)));
    ListRoundTrip(ExtElements(exts));
    ExtElementsRoundTrip(exts);
  }

  // ---------------------------------------------------------------- the profile

  const BASIC_CONSTRAINTS_OID: Bytes := [0x55, 0x1D, 0x13]
  const KEY_USAGE_OID: Bytes := [0x55, 0x1D, 0x0F]
  const EXT_KEY_USAGE_OID: Bytes := [0x55, 0x1D, 0x25]
  const SUBJECT_ALT_NAME_OID: Bytes := [0x55, 0x1D, 0x11]
  const SUBJECT_KEY_ID_OID: Bytes := [0x55, 0x1D, 0x0E]
  const AUTHORITY_KEY_ID_OID: Bytes := [0x55, 0x1D, 0x23]

  datatype Profile = Profile(
    keyUsage: KeyUsage, extKeyUsage: seq<Purpose>, isCa: bool, pathLen: Option<byte>,
    includeSan: bool, includeAki: bool, includeBasicConstraints: bool, includeSki: bool)

  function When(b: bool, e: Ext): (r: seq<Ext>) { if b then [e] else [] }

  function SelectedCritical(p: Profile): (r: seq<Ext>) {
    When(p.includeBasicConstraints, Ext(BASIC_CONSTRAINTS_OID, p.isCa, BasicConstraints(p.isCa, p.pathLen)))
    + When(LastBit(p.keyUsage, 9) >= 0, Ext(KEY_USAGE_OID, true, Tlv(BIT_STRING, KeyUsageBytes(p.keyUsage))))
  }

  /** The extensions the profile selects, in order. */
  function Selected(p: Profile, ski: Bytes, aki: Bytes, sans: seq<GeneralName>): (r: seq<Ext>) {
    SelectedCritical(p)
    + When(p.extKeyUsage != [], Ext(EXT_KEY_USAGE_OID, false,
                                      Tlv(SEQUENCE, EncodeList(PurposeElements(p.extKeyUsage)))))
    + When(p.includeSan && sans != [], Ext(SUBJECT_ALT_NAME_OID, false, Tlv(SEQUENCE, EncodeList(NameElements(sans)))))
    + When(p.includeSki, Ext(SUBJECT_KEY_ID_OID, false, Tlv(OCTET_STRING, ski)))
    + When(p.includeAki, Ext(AUTHORITY_KEY_ID_OID, false, AuthorityKeyId(aki)))
  }

  function Encoded(exts: seq<Ext>): (r: seq<Bytes>)
    ensures |r| == |exts| && forall i :: 0 <= i < |exts| ==> r[i] == BuildExtension(exts[i])
  {
    seq(|exts|, i requires 0 <= i < |exts| => BuildExtension(exts[i]))
  }

  lemma {:induction false} FlattenEncoded(exts: seq<Ext>)
    ensures Flatten(Encoded(exts)) == EncodeList(ExtElements(exts))
    decreases |exts|
  {
    if exts != [] {
      FlattenEncoded(exts[1..]);
      assert Encoded(exts)[1..] == Encoded(exts[1..]) && ExtElements(exts)[1..] == ExtElements(exts[1..]);
    }
  }

  /** One conditional push. */
  method Push(exts: seq<Bytes>, e: Ext, ghost picked: seq<Ext>) returns (r: seq<Bytes>)
    requires exts == Encoded(picked)
    ensures r == Encoded(picked + [e])
  {
    r := exts + [BuildExtension(e)];
  }

  /** build_extensions: six pushes under six conditions, then der_sequence_v. */
  method BuildExtensions(ski: Bytes, aki: Bytes, sans: seq<GeneralName>, p: Profile) returns (v: Bytes)
    requires ValidNames(sans)
    ensures v == Tlv(SEQUENCE, EncodeList(ExtElements(Selected(p, ski, aki, sans))))
  {
    ghost var picked := SelectedCritical(p);
    var exts := PushCritical(p);
    ghost var next := picked + When(p.extKeyUsage != [],
      Ext(EXT_KEY_USAGE_OID, false, Tlv(SEQUENCE, EncodeList(PurposeElements(p.extKeyUsage)))));
    if p.extKeyUsage != [] {
      var value := ExtKeyUsageValue(p.extKeyUsage);
      exts := Push(exts, Ext(EXT_KEY_USAGE_OID, false, value), picked);
    }
    assert exts == Encoded(next);
    picked, next := next, next + When(p.includeSan && sans != [],
      Ext(SUBJECT_ALT_NAME_OID, false, Tlv(SEQUENCE, EncodeList(NameElements(sans)))));
    if p.includeSan && sans != [] {
      var value := SanValue(sans);
      exts := Push(exts, Ext(SUBJECT_ALT_NAME_OID, false, value), picked);
    }
    assert exts == Encoded(next);
    exts := PushKeyIds(exts, p, ski, aki, next);
    FlattenEncoded(Selected(p, ski, aki, sans));
    v := DerItems(SEQUENCE, exts);
  }

  /** The last two conditional pushes of build_extensions. */
  method PushKeyIds(before: seq<Bytes>, p: Profile, ski: Bytes, aki: Bytes, ghost picked: seq<Ext>)
    returns (exts: seq<Bytes>)
    requires before == Encoded(picked)
    ensures exts == Encoded(picked
                            + When(p.includeSki, Ext(SUBJECT_KEY_ID_OID, false, Tlv(OCTET_STRING, ski)))
                            + When(p.includeAki, Ext(AUTHORITY_KEY_ID_OID, false, AuthorityKeyId(aki))))
  {
    exts := before;
    ghost var next := picked + When(p.includeSki, Ext(SUBJECT_KEY_ID_OID, false, Tlv(OCTET_STRING, ski)));
    if p.includeSki {
      exts := Push(exts, Ext(SUBJECT_KEY_ID_OID, false, Tlv(OCTET_STRING, ski)), picked);
    }
    assert exts == Encoded(next);
    if p.includeAki {
      exts := Push(exts, Ext(AUTHORITY_KEY_ID_OID, false, AuthorityKeyId(aki)), next);
    }
  }

  /** The first two conditional pushes of build_extensions. */
  method PushCritical(p: Profile) returns (exts: seq<Bytes>)
    ensures exts == Encoded(SelectedCritical(p))
  {
    ghost var picked: seq<Ext> := [];
    exts := [];
    if p.includeBasicConstraints {
      var e := Ext(BASIC_CONSTRAINTS_OID, p.isCa, BasicConstraints(p.isCa, p.pathLen));
      exts := Push(exts, e, picked);
      picked := picked + [e];
    }
    var k := p.keyUsage;
    AnyFlag(k);
    if k.digitalSignature || k.nonRepudiation || k.keyEncipherment || k.dataEncipherment || k.keyAgreement
       || k.keyCertSign || k.crlSign || k.encipherOnly || k.decipherOnly {
      var content := KeyUsageToDer(k);
      var e := Ext(KEY_USAGE_OID, true, Tlv(BIT_STRING, content));
      exts := Push(exts, e, picked);
      picked := picked + [e];
    }
    assert picked == SelectedCritical(p);
  }

  lemma AnyFlag(k: KeyUsage)
    ensures LastBit(k, 9) >= 0 <==>
      k.digitalSignature || k.nonRepudiation || k.keyEncipherment || k.dataEncipherment || k.keyAgreement
      || k.keyCertSign || k.crlSign || k.encipherOnly || k.decipherOnly
  {
    assert Flag(k, 0) == k.digitalSignature && Flag(k, 1) == k.nonRepudiation && Flag(k, 2) == k.keyEncipherment;
    assert Flag(k, 3) == k.dataEncipherment && Flag(k, 4) == k.keyAgreement && Flag(k, 5) == k.keyCertSign;
    assert Flag(k, 6) == k.crlSign && Flag(k, 7) == k.encipherOnly && Flag(k, 8) == k.decipherOnly;
  }

  // ---------------------------------------------------------------- the certificate

  const CN_OID: Bytes := [0x55, 0x04, 0x03]

  function AttributeBody(cn: Bytes): (r: Bytes) { Tlv(OID, CN_OID) + Tlv(UTF8_STRING, cn) }
  function NameBody(cn: Bytes): (r: Bytes) { Tlv(SET, Tlv(SEQUENCE, AttributeBody(cn))) }

  /** der_name. */
  function DerName(cn: Bytes): (r: Bytes) { Tlv(SEQUENCE, NameBody(cn)) }

  function ParseName(body: Bytes): (r: Result<Bytes>) {
    match ParseAll([SET], body)
    case Err => Err
    case Ok(s) =>
      match ParseAll([SEQUENCE], s[0])
      case Err => Err
      case Ok(a) =>
        match ParseAll([OID, UTF8_STRING], a[0])
        case Err => Err
        case Ok(f) => if f[0] == CN_OID then Ok(f[1]) else Err
  }

  lemma TwoFields(t1: byte, c1: Bytes, t2: byte, c2: Bytes)
    ensures EncodeFields([t1, t2], [c1, c2]) == Tlv(t1, c1) + Tlv(t2, c2)
    ensures |Tlv(t1, c1) + Tlv(t2, c2)| < LEN_LIMIT ==>
              ParseAll([t1, t2], Tlv(t1, c1) + Tlv(t2, c2)) == Ok([c1, c2])
  {
    hide Tlv, ParseTlv, ParseAll;
    var tags: seq<byte> := [t1, t2];
    assert tags[1..] == [t2] && [c1, c2][1..] == [c2];
    OneField(t2, c2);
    if |Tlv(t1, c1) + Tlv(t2, c2)| < LEN_LIMIT { AllRoundTrip(tags, [c1, c2]); }
  }

  lemma NameRoundTrip(cn: Bytes)
    requires |NameBody(cn)| < LEN_LIMIT
    ensures ParseName(NameBody(cn)) == Ok(cn)
  {
    OneField(SET, Tlv(SEQUENCE, AttributeBody(cn)));
    OneField(SEQUENCE, AttributeBody(cn));
    TwoFields(OID, CN_OID, UTF8_STRING, cn);
  }

  /** What goes into a certificate. The two algorithm identifiers and the subject are given by
      the content of their SEQUENCE, the two times by their finished encodings. */
  datatype Fields = Fields(
    serial: Bytes, sigAlg: Bytes, issuerCn: Bytes, notBefore: Bytes, notAfter: Bytes, subject: Bytes,
    spkiAlg: Bytes, publicKey: Bytes, exts: Option<seq<Ext>>, signature: Bytes)

  /** The subject, copied from a request as finished DER, is one SEQUENCE; its length field need
      not be the shortest. */
  predicate SubjectOk(f: Fields) {
    ParseTlv(SEQUENCE, f.subject).Ok? && ParseTlv(SEQUENCE, f.subject).value.rest == []
  }

  /** The subject is one SEQUENCE and each time one element, as utctime writes it. */
  predicate Issuable(f: Fields) {
    SubjectOk(f) && TimeOk(f.notBefore) && TimeOk(f.notAfter)
  }

  /** What a reader gets: the serial number and the subject are the contents of their elements. */
  function AsRead(f: Fields): (r: Fields)
    requires SubjectOk(f)
  {
    f.(serial := IntegerContent(f.serial), subject := ParseTlv(SEQUENCE, f.subject).value.value)
  }

  const TBS_TAGS: seq<byte> := [0xA0, 0x02, 0x30, 0x30, 0x30, 0x30, 0x30]

  function Spki(f: Fields): (r: Bytes) { Tlv(SEQUENCE, f.spkiAlg) + DerBitString(f.publicKey) }

  /** The seven fixed parts, and what is in them. */
  function TbsParts(f: Fields): (r: seq<Bytes>)
    ensures |r| == 7
  {
    [Tlv(0xA0, DerIntegerPositive([2])), DerIntegerPositive(f.serial), Tlv(SEQUENCE, f.sigAlg), DerName(f.issuerCn),
     Tlv(SEQUENCE, f.notBefore + f.notAfter), f.subject, Tlv(SEQUENCE, Spki(f))]
  }

  function TbsContents(f: Fields): (r: seq<Bytes>)
    requires SubjectOk(f)
    ensures |r| == 7
  {
    [DerIntegerPositive([2]), IntegerContent(f.serial), f.sigAlg, NameBody(f.issuerCn), f.notBefore + f.notAfter,
     ParseTlv(SEQUENCE, f.subject).value.value, Spki(f)]
  }

  function ExtsField(exts: Option<seq<Ext>>): (r: Bytes) {
    if exts.None? then [] else Tlv(0xA3, Tlv(SEQUENCE, EncodeList(ExtElements(exts.value))))
  }

  function TbsBody(f: Fields): (r: Bytes) { Flatten(TbsParts(f)) + ExtsField(f.exts) }

  function CertBody(f: Fields): (r: Bytes) {
    Tlv(SEQUENCE, TbsBody(f)) + Tlv(SEQUENCE, f.sigAlg) + DerBitString(f.signature)
  }

  function Cert(f: Fields): (r: Bytes) { Tlv(SEQUENCE, CertBody(f)) }

  /** build_tbs_certificate: seven parts, an optional eighth, concatenated by der_sequence_v. */
  method BuildTbsCertificate(serial: Bytes, notBefore: Moment, notAfter: Moment, issuerCn: Bytes, subjectDer: Bytes,
                             sigAlgId: Bytes, spkiAlgId: Bytes, publicKey: Bytes, extensions: Option<Bytes>,
                             ghost f: Fields)
    returns (tbs: Bytes)
    requires f.serial == serial && f.issuerCn == issuerCn && f.publicKey == publicKey && f.subject == subjectDer
    requires f.notBefore == Utctime(notBefore) && f.notAfter == Utctime(notAfter)
    requires sigAlgId == Tlv(SEQUENCE, f.sigAlg) && spkiAlgId == Tlv(SEQUENCE, f.spkiAlg)
    requires extensions.Some? == f.exts.Some?
    requires extensions.Some? ==> extensions.value == Tlv(SEQUENCE, EncodeList(ExtElements(f.exts.value)))
    ensures tbs == Tlv(SEQUENCE, TbsBody(f))
  {
    hide Utctime, DerLen, NameBody, IntegerContent, EncodeList, ExtElements;
    var version := Tlv(0xA0, DerIntegerPositive([2]));
    var serialDer := DerIntegerPositive(serial);
    var issuer := DerName(issuerCn);
    var validity := Tlv(SEQUENCE, Utctime(notBefore) + Utctime(notAfter));
    var spki := Tlv(SEQUENCE, spkiAlgId + DerBitString(publicKey));
    var parts := [version, serialDer, sigAlgId, issuer, validity, subjectDer, spki];
    if extensions.Some? {
      FlattenAppend(parts, Tlv(0xA3, extensions.value));
      parts := parts + [Tlv(0xA3, extensions.value)];
    }
    tbs := DerItems(SEQUENCE, parts);
  }

  /** build_certificate_der. */
  function BuildCertificateDer(tbs: Bytes, sigAlgId: Bytes, signature: Bytes): (r: Bytes) {
    Tlv(SEQUENCE, tbs + sigAlgId + DerBitString(signature))
  }

  /** A bit string with no unused bits. */
  function Bits(content: Bytes): (r: Result<Bytes>) {
    if content != [] && content[0] == 0 then Ok(content[1..]) else Err
  }

  /** The seven fixed fields of a TBSCertificate. */
  function ReadFixed(c: seq<Bytes>, sigAlg: Bytes, signature: Bytes): (r: Result<Fields>)
    requires |c| == 7
  {
    var version, issuer, spki := ParseAll([INTEGER], c[0]), ParseName(c[3]), ParseAll([SEQUENCE, BIT_STRING], c[6]);
    var times := ReadValidity(c[4]);
    if version != Ok([[2]]) || c[2] != sigAlg || issuer.Err? || times.Err? || spki.Err? then Err else
    var key := Bits(spki.value[1]);
    if key.Err? then Err else
    Ok(Fields(c[1], sigAlg, issuer.value, times.value.0, times.value.1, c[5], spki.value[0], key.value, None,
              signature))
  }

  function ReadExts(rest: Bytes): (r: Result<Option<seq<Ext>>>) {
    if rest == [] then Ok(None) else
    match ParseAll([0xA3], rest)
    case Err => Err
    case Ok(e) =>
      match ParseExtensions(e[0])
      case Err => Err
      case Ok(exts) => Ok(Some(exts))
  }

  /** The layout of section 4.1 of RFC 5280, read with the gm-der parsers only. */
  function ParseTbs(tbs: Bytes, sigAlg: Bytes, signature: Bytes): (r: Result<Fields>) {
    match ParseFields(TBS_TAGS, tbs)
    case Err => Err
    case Ok(Read(rest, c)) =>
      var f, exts := ReadFixed(c, sigAlg, signature), ReadExts(rest);
      if f.Err? || exts.Err? then Err else Ok(f.value.(exts := exts.value))
  }

  function ParseCertificate(der: Bytes): (r: Result<Fields>) {
    match ParseAll([SEQUENCE], der)
    case Err => Err
    case Ok(cert) =>
      match ParseAll([SEQUENCE, SEQUENCE, BIT_STRING], cert[0])
      case Err => Err
      case Ok(parts) =>
        var sig := Bits(parts[2]);
        if sig.Err? then Err else ParseTbs(parts[0], parts[1], sig.value)
  }

  lemma ThreeFields(t1: byte, c1: Bytes, t2: byte, c2: Bytes, t3: byte, c3: Bytes)
    requires |Tlv(t1, c1) + Tlv(t2, c2) + Tlv(t3, c3)| < LEN_LIMIT
    ensures ParseAll([t1, t2, t3], Tlv(t1, c1) + Tlv(t2, c2) + Tlv(t3, c3)) == Ok([c1, c2, c3])
  {
    hide Tlv, ParseTlv, ParseAll;
    var tags: seq<byte> := [t1, t2, t3];
    assert tags[1..] == [t2, t3] && [c1, c2, c3][1..] == [c2, c3];
    TwoFields(t2, c2, t3, c3);
    assert EncodeFields(tags, [c1, c2, c3]) == Tlv(t1, c1) + Tlv(t2, c2) + Tlv(t3, c3);
    AllRoundTrip(tags, [c1, c2, c3]);
  }

  /** The INTEGER written for a serial number denotes the same number and is not negative. */
  lemma SerialNumber(serial: Bytes)
    ensures FromBE(IntegerContent(serial)) == FromBE(serial)
    ensures serial != [] ==> IntegerContent(serial)[0] < 0x80
  {
    LeadingZero(serial);
  }

  lemma {:induction false} LeadingZero(s: Bytes)
    ensures FromBE([0] + s) == FromBE(s)
    decreases |s|
  {
    if s == [] {
      assert FromBE([0]) == 256 * FromBE([0][..0]) + 0;
    } else {
      LeadingZero(s[..|s| - 1]);
      assert ([0] + s)[..|s|] == [0] + s[..|s| - 1];
    }
  }

  lemma {:induction false} PartWithin(parts: seq<Bytes>, i: nat)
    requires i < |parts|
    ensures |parts[i]| <= |Flatten(parts)|
    decreases i
  {
    if i > 0 { PartWithin(parts[1..], i - 1); }
  }

  lemma FixedRoundTrip(f: Fields)
    requires Issuable(f) && |NameBody(f.issuerCn)| < LEN_LIMIT && |Spki(f)| < LEN_LIMIT
    ensures ReadFixed(TbsContents(f), f.sigAlg, f.signature) == Ok(AsRead(f).(exts := None))
  {
    hide TimeOk, ReadValidity;
    OneField(INTEGER, [2]);
    NameRoundTrip(f.issuerCn);
    ValidityRead(f.notBefore, f.notAfter);
    TwoFields(SEQUENCE, f.spkiAlg, BIT_STRING, [0] + f.publicKey);
    assert ([0] + f.publicKey)[1..] == f.publicKey;
  }

  lemma ExtsFieldRoundTrip(exts: Option<seq<Ext>>)
    requires |ExtsField(exts)| < LEN_LIMIT
    ensures ReadExts(ExtsField(exts)) == Ok(exts)
  {
    if exts.Some? {
      OneField(0xA3, Tlv(SEQUENCE, EncodeList(ExtElements(exts.value))));
      ExtensionsRoundTrip(exts.value);
    }
  }

  /** Every part, the subject included, is one element. */
  lemma PartsWhole(f: Fields)
    requires SubjectOk(f) && |Flatten(TbsParts(f))| < LEN_LIMIT
    ensures AllWhole(TBS_TAGS, TbsParts(f), TbsContents(f))
  {
    hide Tlv, Whole;
    var parts, contents := TbsParts(f), TbsContents(f);
    forall i | 0 <= i < 7 ensures Whole(TBS_TAGS[i], parts[i], contents[i]) {
      PartWithin(parts, i);
      if i == 5 {
        SubjectWhole(f);
      } else {
        assert parts[i] == Tlv(TBS_TAGS[i], contents[i]);
        EncodedWhole(TBS_TAGS[i], contents[i]);
      }
    }
  }

  lemma SubjectWhole(f: Fields)
    requires SubjectOk(f)
    ensures Whole(SEQUENCE, f.subject, ParseTlv(SEQUENCE, f.subject).value.value)
  {
  }

  lemma TbsRoundTrip(f: Fields)
    requires Issuable(f) && |TbsBody(f)| < LEN_LIMIT
    ensures ParseTbs(TbsBody(f), f.sigAlg, f.signature) == Ok(AsRead(f))
  {
    hide Tlv, ParseTlv, Flatten, ReadFixed, ReadExts, TimeOk;
    PartsWhole(f);
    PartsRoundTrip(TBS_TAGS, TbsParts(f), TbsContents(f), ExtsField(f.exts));
    PartWithin(TbsParts(f), 3);
    PartWithin(TbsParts(f), 6);
    FixedRoundTrip(f);
    ExtsFieldRoundTrip(f.exts);
  }

  /** Reading a built certificate recovers every field in order and exactly its extensions, for
      every certificate of fewer than 2^32 bytes. The serial number comes back as the content of
      its INTEGER, the same number (SerialNumber), and each time as the element that was written. */
  lemma CertificateRoundTrip(f: Fields)
    requires Issuable(f) && |Cert(f)| < LEN_LIMIT
    ensures ParseCertificate(Cert(f)) == Ok(AsRead(f))
  {
    hide Tlv, ParseTlv, ParseAll, ParseTbs, TbsBody, AsRead, SubjectOk, TimeOk;
    OneField(SEQUENCE, CertBody(f));
    ThreeFields(SEQUENCE, TbsBody(f), SEQUENCE, f.sigAlg, BIT_STRING, [0] + f.signature);
    assert ([0] + f.signature)[1..] == f.signature;
    TbsRoundTrip(f);
  }

  /** The same for a certificate issued under a profile: the extensions read back are those the
      profile selects. */
  method IssueCertificate(f: Fields, p: Profile, ski: Bytes, aki: Bytes, sans: seq<GeneralName>,
                          notBefore: Moment, notAfter: Moment)
    returns (der: Bytes)
    requires ValidNames(sans) && InCalendar(notBefore) && InCalendar(notAfter)
    requires f.notBefore == Utctime(notBefore) && f.notAfter == Utctime(notAfter)
    ensures var g := f.(exts := Some(Selected(p, ski, aki, sans)));
            && der == Cert(g)
            && (SubjectOk(g) && |der| < LEN_LIMIT ==> ParseCertificate(der) == Ok(AsRead(g)))
  {
    hide Tlv, ParseTlv, Selected, ParseCertificate, SubjectOk, AsRead, TimeOk, Utctime;
    ghost var g := f.(exts := Some(Selected(p, ski, aki, sans)));
    var extensions := BuildExtensions(ski, aki, sans, p);
    var tbs := BuildTbsCertificate(f.serial, notBefore, notAfter, f.issuerCn, f.subject,
                                   Tlv(SEQUENCE, f.sigAlg), Tlv(SEQUENCE, f.spkiAlg), f.publicKey, Some(extensions), g);
    der := BuildCertificateDer(tbs, Tlv(SEQUENCE, f.sigAlg), f.signature);
    UtctimeOk(notBefore);
    UtctimeOk(notAfter);
    if SubjectOk(g) && |der| < LEN_LIMIT { CertificateRoundTrip(g); }
  }

  /** Issuing and reading back keeps the two times if and only if neither year is negative or one
      of 1950 to 1999. */
  lemma ValidityRoundTrip(f: Fields, notBefore: Moment, notAfter: Moment)
    requires SubjectOk(f) && |Cert(f)| < LEN_LIMIT && InCalendar(notBefore) && InCalendar(notAfter)
    requires f.notBefore == Utctime(notBefore) && f.notAfter == Utctime(notAfter)
    ensures var read := ParseCertificate(Cert(f));
            && read.Ok?
            && (ReadTime(read.value.notBefore) == Some(notBefore) && ReadTime(read.value.notAfter) == Some(notAfter)
                <==> && notBefore.year >= 0 && !(1950 <= notBefore.year < 2000)
                     && notAfter.year >= 0 && !(1950 <= notAfter.year < 2000))
  {
    hide Cert, ParseCertificate, SubjectOk, TimeOk, Utctime, ReadTime, ParseTlv;
    UtctimeOk(notBefore);
    UtctimeOk(notAfter);
    CertificateRoundTrip(f);
    TimeRoundTrip(notBefore);
    TimeRoundTrip(notAfter);
  }
}
