/** What is inside the extensions of an issued certificate: every value the profile selects is
    read back from the certificate's bytes. */
module CertificateValues {
  import opened Bytes
  import opened Der
  import opened Certificate

  datatype Value =
    | Constraints(isCa: bool, pathLen: Option<byte>)
    | Usage(usage: KeyUsage)
    | Purposes(purposes: seq<Purpose>)
    | Names(names: seq<GeneralName>)
    | SubjectKey(id: Bytes)
    | AuthorityKey(id: Bytes)

  // ---------------------------------------------------------------- reading values

  function ReadUsage(bits: Bytes): (k: KeyUsage) {
    KeyUsage(BitAt(bits, 0), BitAt(bits, 1), BitAt(bits, 2), BitAt(bits, 3), BitAt(bits, 4), BitAt(bits, 5),
             BitAt(bits, 6), BitAt(bits, 7), BitAt(bits, 8))
  }

  function ReadPurpose(e: Element): (p: Result<Purpose>) {
    if e.tag != OID then Err
    else if e.content == PurposeOid(ServerAuth) then Ok(ServerAuth)
    else if e.content == PurposeOid(ClientAuth) then Ok(ClientAuth)
    else if e.content == PurposeOid(CodeSigning) then Ok(CodeSigning)
    else if e.content == PurposeOid(EmailProtection) then Ok(EmailProtection)
    else if e.content == PurposeOid(TimeStamping) then Ok(TimeStamping)
    else if e.content == PurposeOid(OcspSigning) then Ok(OcspSigning)
    else Err
  }

  function ReadPurposes(items: seq<Element>): (r: Result<seq<Purpose>>) {
    if items == [] then Ok([])
    else
      var p, more := ReadPurpose(items[0]), ReadPurposes(items[1..]);
      if p.Err? || more.Err? then Err else Ok([p.value] + more.value)
  }

  function ReadNames(items: seq<Element>): (r: Result<seq<GeneralName>>) {
    if items == [] then Ok([])
    else
      var n, more := ToName(items[0]), ReadNames(items[1..]);
      if n.Err? || more.Err? then Err else Ok([n.value] + more.value)
  }

  /** The one element of a value and the list in it. */
  function ReadList(value: Bytes): (r: Result<seq<Element>>) {
    var c := ParseAll([SEQUENCE], value);
    if c.Err? then Err else ParseList(c.value[0])
  }

  function ReadKeyId(value: Bytes): (r: Result<Bytes>) {
    var c := ParseAll([SEQUENCE], value);
    if c.Err? then Err
    else
      var k := ParseAll([0xA0], c.value[0]);
      if k.Err? then Err else Ok(k.value[0])
  }

  function ReadConstraints(value: Bytes): (r: Result<Value>) {
    var c := ParseBasicConstraints(value);
    if c.Err? then Err else Ok(Constraints(c.value.0, c.value.1))
  }

  function ReadUsageValue(value: Bytes): (r: Result<Value>) {
    var bits := ParseAll([BIT_STRING], value);
    if bits.Err? then Err else Ok(Usage(ReadUsage(bits.value[0])))
  }

  function ReadPurposesValue(value: Bytes): (r: Result<Value>) {
    var items := ReadList(value);
    if items.Err? then Err
    else
      var ps := ReadPurposes(items.value);
      if ps.Err? then Err else Ok(Purposes(ps.value))
  }

  function ReadNamesValue(value: Bytes): (r: Result<Value>) {
    var items := ReadList(value);
    if items.Err? then Err
    else
      var ns := ReadNames(items.value);
      if ns.Err? then Err else Ok(Names(ns.value))
  }

  function ReadSubjectKey(value: Bytes): (r: Result<Value>) {
    var id := ParseAll([OCTET_STRING], value);
    if id.Err? then Err else Ok(SubjectKey(id.value[0]))
  }

  function ReadAuthorityKey(value: Bytes): (r: Result<Value>) {
    var id := ReadKeyId(value);
    if id.Err? then Err else Ok(AuthorityKey(id.value))
  }

  /** An extension's value, by its identifier. */
  function ReadValue(e: Ext): (r: Result<Value>) {
    if e.oid == BASIC_CONSTRAINTS_OID then ReadConstraints(e.value)
    else if e.oid == KEY_USAGE_OID then ReadUsageValue(e.value)
    else if e.oid == EXT_KEY_USAGE_OID then ReadPurposesValue(e.value)
    else if e.oid == SUBJECT_ALT_NAME_OID then ReadNamesValue(e.value)
    else if e.oid == SUBJECT_KEY_ID_OID then ReadSubjectKey(e.value)
    else if e.oid == AUTHORITY_KEY_ID_OID then ReadAuthorityKey(e.value)
    else Err
  }

  function ReadValues(exts: seq<Ext>): (r: Result<seq<Value>>)
    ensures r.Ok? ==> |r.value| == |exts|
  {
    if exts == [] then Ok([])
    else
      var v, more := ReadValue(exts[0]), ReadValues(exts[1..]);
      if v.Err? || more.Err? then Err else Ok([v.value] + more.value)
  }

  /** Reading a row of extensions in two parts. */
  function Join(a: Result<seq<Value>>, b: Result<seq<Value>>): (r: Result<seq<Value>>) {
    if a.Err? || b.Err? then Err else Ok(a.value + b.value)
  }

  lemma {:induction false} ReadInParts(a: seq<Ext>, b: seq<Ext>)
    ensures ReadValues(a + b) == Join(ReadValues(a), ReadValues(b))
    decreases |a|
  {
    hide ReadValue;
    if a == [] {
      assert a + b == b;
      if ReadValues(b).Ok? { assert [] + ReadValues(b).value == ReadValues(b).value; }
    } else {
      ReadInParts(a[1..], b);
      assert (a + b)[0] == a[0] && (a + b)[1..] == a[1..] + b;
      if ReadValues(a).Ok? && ReadValues(b).Ok? {
        var v, x, y := ReadValue(a[0]).value, ReadValues(a[1..]).value, ReadValues(b).value;
        assert [v] + (x + y) == ([v] + x) + y;
      }
    }
  }

  lemma ReadOne(e: Ext)
    ensures ReadValues([e]) == if ReadValue(e).Err? then Err else Ok([ReadValue(e).value])
  {
    hide ReadValue;
    var none: seq<Ext> := [];
    assert [e][1..] == none && ReadValues(none) == Ok([]);
    if ReadValue(e).Ok? { assert [ReadValue(e).value] + [] == [ReadValue(e).value]; }
  }

  // ---------------------------------------------------------------- what the profile selects

  function WhenValue(b: bool, v: Value): (r: seq<Value>) { if b then [v] else [] }

  /** The values behind the extensions of `Selected`, in order; only a CA has a path length. */
  function SelectedValues(p: Profile, ski: Bytes, aki: Bytes, sans: seq<GeneralName>): (r: seq<Value>) {
    WhenValue(p.includeBasicConstraints, Constraints(p.isCa, if p.isCa then p.pathLen else None))
    + WhenValue(LastBit(p.keyUsage, 9) >= 0, Usage(p.keyUsage))
    + WhenValue(p.extKeyUsage != [], Purposes(p.extKeyUsage))
    + WhenValue(p.includeSan && sans != [], Names(sans))
    + WhenValue(p.includeSki, SubjectKey(ski))
    + WhenValue(p.includeAki, AuthorityKey(aki))
  }

  /** A conditional extension reads as the conditional value. */
  lemma ReadWhen(b: bool, e: Ext, v: Value)
    requires b ==> ReadValue(e) == Ok(v)
    ensures ReadValues(When(b, e)) == Ok(WhenValue(b, v))
  {
    hide ReadValue;
    if b { ReadOne(e); }
  }

  // ---------------------------------------------------------------- each value

  lemma UsageReads(k: KeyUsage)
    ensures ReadUsage(KeyUsageBytes(k)) == k
  {
    KeyUsageRoundTrip(k);
    hide BitAt, KeyUsageBytes;
    var bits := KeyUsageBytes(k);
    assert BitAt(bits, 0) == Flag(k, 0) && BitAt(bits, 1) == Flag(k, 1) && BitAt(bits, 2) == Flag(k, 2);
    assert BitAt(bits, 3) == Flag(k, 3) && BitAt(bits, 4) == Flag(k, 4) && BitAt(bits, 5) == Flag(k, 5);
    assert BitAt(bits, 6) == Flag(k, 6) && BitAt(bits, 7) == Flag(k, 7) && BitAt(bits, 8) == Flag(k, 8);
  }

  lemma UsageValueReads(k: KeyUsage)
    ensures ReadUsageValue(Tlv(BIT_STRING, KeyUsageBytes(k))) == Ok(Usage(k))
  {
    assert |KeyUsageBytes(k)| <= 3;
    ShortTlv(BIT_STRING, KeyUsageBytes(k));
    hide KeyUsageBytes, Tlv, ReadUsage, ParseAll;
    OneField(BIT_STRING, KeyUsageBytes(k));
    UsageReads(k);
  }

  lemma ShortTlv(tag: byte, content: Bytes)
    requires |content| < 128
    ensures |Tlv(tag, content)| == 2 + |content| < LEN_LIMIT
  {
  }

  lemma PurposeReads(p: Purpose)
    ensures ReadPurpose(Element(OID, PurposeOid(p))) == Ok(p)
  {
    assert PurposeOid(p)[7] == match p case ServerAuth => 1 case ClientAuth => 2 case CodeSigning => 3
                                       case EmailProtection => 4 case TimeStamping => 8 case OcspSigning => 9;
  }

  lemma {:induction false} PurposesRead(ps: seq<Purpose>)
    ensures ReadPurposes(PurposeElements(ps)) == Ok(ps)
    decreases |ps|
  {
    hide ReadPurpose, PurposeOid;
    if ps != [] {
      PurposesRead(ps[1..]);
      PurposeReads(ps[0]);
      assert PurposeElements(ps)[1..] == PurposeElements(ps[1..]);
      assert [ps[0]] + ps[1..] == ps;
    }
  }

  lemma PurposesValueReads(ps: seq<Purpose>, value: Bytes)
    requires value == Tlv(SEQUENCE, EncodeList(PurposeElements(ps))) && |value| < LEN_LIMIT
    ensures ReadPurposesValue(value) == Ok(Purposes(ps))
  {
    hide Tlv, EncodeList, ParseAll, ParseList, PurposeElements, ReadPurposes;
    PurposesRoundTrip(ps, value);
    PurposesRead(ps);
  }

  lemma {:induction false} NamesRead(names: seq<GeneralName>)
    requires ValidNames(names)
    ensures ReadNames(NameElements(names)) == Ok(names)
    decreases |names|
  {
    hide ToName;
    if names != [] {
      NamesRead(names[1..]);
      NameReadsBack(names[0]);
      assert NameElements(names)[1..] == NameElements(names[1..]);
      assert [names[0]] + names[1..] == names;
    }
  }

  lemma NamesValueReads(names: seq<GeneralName>, value: Bytes)
    requires ValidNames(names) && value == Tlv(SEQUENCE, EncodeList(NameElements(names))) && |value| < LEN_LIMIT
    ensures ReadNamesValue(value) == Ok(Names(names))
  {
    hide Tlv, EncodeList, ParseAll, ParseList, NameElements, ReadNames, ToName;
    SanRoundTrip(names, value);
    NamesRead(names);
  }

  lemma SubjectKeyReads(ski: Bytes)
    requires |Tlv(OCTET_STRING, ski)| < LEN_LIMIT
    ensures ReadSubjectKey(Tlv(OCTET_STRING, ski)) == Ok(SubjectKey(ski))
  {
    hide Tlv, ParseAll;
    OneField(OCTET_STRING, ski);
  }

  /** The authority key identifier reads back exactly when its length fits the one length byte. */
  lemma AuthorityKeyReads(aki: Bytes)
    requires |AuthorityKeyId(aki)| < LEN_LIMIT
    ensures ReadAuthorityKey(AuthorityKeyId(aki)) == Ok(AuthorityKey(aki)) <==> |aki| < 128
  {
    hide Tlv, ParseAll;
    var inner := [0xA0, |aki| % 256] + aki;
    AuthorityKeyIdRoundTrip(aki);
    OneField(SEQUENCE, inner);
    if ParseAll([0xA0], inner).Ok? && ParseAll([0xA0], inner).value[0] == aki {
      assert ParseAll([0xA0], inner).value == [aki];
    }
  }

  // ---------------------------------------------------------------- all of them

  ghost predicate ValuesFit(exts: seq<Ext>) { forall e :: e in exts ==> |e.value| < LEN_LIMIT }

  /** The first five kinds of value. */
  function Others(p: Profile, ski: Bytes, sans: seq<GeneralName>): (r: seq<Ext>) {
    SelectedCritical(p)
    + When(p.extKeyUsage != [], Ext(EXT_KEY_USAGE_OID, false,
                                      Tlv(SEQUENCE, EncodeList(PurposeElements(p.extKeyUsage)))))
    + When(p.includeSan && sans != [], Ext(SUBJECT_ALT_NAME_OID, false, Tlv(SEQUENCE, EncodeList(NameElements(sans)))))
    + When(p.includeSki, Ext(SUBJECT_KEY_ID_OID, false, Tlv(OCTET_STRING, ski)))
  }

  lemma CriticalRead(p: Profile)
    ensures ReadValues(SelectedCritical(p)) ==
            Ok(WhenValue(p.includeBasicConstraints, Constraints(p.isCa, if p.isCa then p.pathLen else None))
               + WhenValue(LastBit(p.keyUsage, 9) >= 0, Usage(p.keyUsage)))
  {
    BasicConstraintsRoundTrip(p.isCa, p.pathLen);
    UsageValueReads(p.keyUsage);
    var c := Ext(BASIC_CONSTRAINTS_OID, p.isCa, BasicConstraints(p.isCa, p.pathLen));
    var u := Ext(KEY_USAGE_OID, true, Tlv(BIT_STRING, KeyUsageBytes(p.keyUsage)));
    assert ReadValue(c) == Ok(Constraints(p.isCa, if p.isCa then p.pathLen else None)) by { OidsApart(); }
    assert ReadValue(u) == Ok(Usage(p.keyUsage)) by { OidsApart(); }
    hide ReadValue, BasicConstraints, Tlv, KeyUsageBytes;
    ReadWhen(p.includeBasicConstraints, c, Constraints(p.isCa, if p.isCa then p.pathLen else None));
    ReadWhen(LastBit(p.keyUsage, 9) >= 0, u, Usage(p.keyUsage));
    ReadInParts(When(p.includeBasicConstraints, c), When(LastBit(p.keyUsage, 9) >= 0, u));
  }

  lemma OidsApart()
    ensures BASIC_CONSTRAINTS_OID[2] == 0x13 && KEY_USAGE_OID[2] == 0x0F && EXT_KEY_USAGE_OID[2] == 0x25
    ensures SUBJECT_ALT_NAME_OID[2] == 0x11 && SUBJECT_KEY_ID_OID[2] == 0x0E && AUTHORITY_KEY_ID_OID[2] == 0x23
  {
  }

  lemma ByOid(critical: bool, value: Bytes)
    ensures ReadValue(Ext(EXT_KEY_USAGE_OID, critical, value)) == ReadPurposesValue(value)
    ensures ReadValue(Ext(SUBJECT_ALT_NAME_OID, critical, value)) == ReadNamesValue(value)
    ensures ReadValue(Ext(SUBJECT_KEY_ID_OID, critical, value)) == ReadSubjectKey(value)
    ensures ReadValue(Ext(AUTHORITY_KEY_ID_OID, critical, value)) == ReadAuthorityKey(value)
  {
    hide ReadConstraints, ReadUsageValue, ReadPurposesValue, ReadNamesValue, ReadSubjectKey, ReadAuthorityKey;
    OidsApart();
  }

  function PurposesExt(p: Profile): (e: Ext) {
    Ext(EXT_KEY_USAGE_OID, false, Tlv(SEQUENCE, EncodeList(PurposeElements(p.extKeyUsage))))
  }

  function NamesExt(sans: seq<GeneralName>): (e: Ext) {
    Ext(SUBJECT_ALT_NAME_OID, false, Tlv(SEQUENCE, EncodeList(NameElements(sans))))
  }

  /** One more conditional extension at the end of a row. */
  lemma ReadOneMore(row: seq<Ext>, values: seq<Value>, b: bool, e: Ext, v: Value)
    requires ReadValues(row) == Ok(values) && (b ==> ReadValue(e) == Ok(v))
    ensures ReadValues(row + When(b, e)) == Ok(values + WhenValue(b, v))
  {
    hide ReadValue, When, WhenValue, ReadValues;
    ReadWhen(b, e, v);
    ReadInParts(row, When(b, e));
  }

  lemma OthersRead(p: Profile, ski: Bytes, sans: seq<GeneralName>)
    requires ValidNames(sans) && ValuesFit(Others(p, ski, sans))
    ensures ReadValues(Others(p, ski, sans)) ==
            Ok(WhenValue(p.includeBasicConstraints, Constraints(p.isCa, if p.isCa then p.pathLen else None))
               + WhenValue(LastBit(p.keyUsage, 9) >= 0, Usage(p.keyUsage))
               + WhenValue(p.extKeyUsage != [], Purposes(p.extKeyUsage))
               + WhenValue(p.includeSan && sans != [], Names(sans))
               + WhenValue(p.includeSki, SubjectKey(ski)))
  {
    hide ReadValue, ReadValues, SelectedCritical, Tlv, EncodeList, PurposeElements, NameElements,
      ReadPurposesValue, ReadNamesValue, ReadSubjectKey, LastBit;
    var e1, e2, e3 := PurposesExt(p), NamesExt(sans), Ext(SUBJECT_KEY_ID_OID, false, Tlv(OCTET_STRING, ski));
    var b1, b2, b3 := p.extKeyUsage != [], p.includeSan && sans != [], p.includeSki;
    var row := SelectedCritical(p);
    CriticalRead(p);
    assert b1 ==> e1 in Others(p, ski, sans);
    assert b2 ==> e2 in Others(p, ski, sans);
    assert b3 ==> e3 in Others(p, ski, sans);
    ByOid(false, e1.value);
    ByOid(false, e2.value);
    ByOid(false, e3.value);
    if b1 { PurposesValueReads(p.extKeyUsage, e1.value); }
    if b2 { NamesValueReads(sans, e2.value); }
    if b3 { SubjectKeyReads(ski); }
    var values := ReadValues(row).value;
    ReadOneMore(row, values, b1, e1, Purposes(p.extKeyUsage));
    ReadOneMore(row + When(b1, e1), values + WhenValue(b1, Purposes(p.extKeyUsage)), b2, e2, Names(sans));
    ReadOneMore(row + When(b1, e1) + When(b2, e2),
                values + WhenValue(b1, Purposes(p.extKeyUsage)) + WhenValue(b2, Names(sans)), b3, e3, SubjectKey(ski));
  }

  /** Every selected value reads back, in order, exactly when the authority key identifier, if
      there is one, has fewer than 128 bytes. */
  lemma SelectedRead(p: Profile, ski: Bytes, aki: Bytes, sans: seq<GeneralName>)
    requires ValidNames(sans) && ValuesFit(Selected(p, ski, aki, sans))
    ensures ReadValues(Selected(p, ski, aki, sans)) == Ok(SelectedValues(p, ski, aki, sans))
            <==> (p.includeAki ==> |aki| < 128)
  {
    var others, e := Others(p, ski, sans), Ext(AUTHORITY_KEY_ID_OID, false, AuthorityKeyId(aki));
    assert Selected(p, ski, aki, sans) == others + When(p.includeAki, e);
    hide Others, Selected, ReadValue, ReadValues, AuthorityKeyId, ReadAuthorityKey, LastBit;
    assert ValuesFit(others) by { FitInPart(others, When(p.includeAki, e)); }
    OthersRead(p, ski, sans);
    var values := ReadValues(others).value;
    if p.includeAki {
      assert e in others + When(p.includeAki, e);
      AuthorityKeyReads(aki);
      ByOid(false, e.value);
      LastRead(others, values, e, AuthorityKey(aki));
    } else {
      ReadOneMore(others, values, false, e, AuthorityKey(aki));
    }
  }

  lemma FitInPart(a: seq<Ext>, b: seq<Ext>)
    requires ValuesFit(a + b)
    ensures ValuesFit(a)
  {
    forall e | e in a ensures |e.value| < LEN_LIMIT { assert e in a + b; }
  }

  lemma LastRead(row: seq<Ext>, values: seq<Value>, e: Ext, v: Value)
    requires ReadValues(row) == Ok(values)
    ensures ReadValues(row + [e]) == Ok(values + [v]) <==> ReadValue(e) == Ok(v)
  {
    hide ReadValue;
    ReadOne(e);
    ReadInParts(row, [e]);
    if ReadValue(e).Ok? {
      assert (values + [ReadValue(e).value])[|values|] == ReadValue(e).value && (values + [v])[|values|] == v;
    }
  }

  // ---------------------------------------------------------------- the certificate

  lemma {:induction false} ValueWithin(exts: seq<Ext>)
    ensures forall e :: e in exts ==> |e.value| < |EncodeList(ExtElements(exts))|
    decreases |exts|
  {
    if exts != [] {
      ValueWithin(exts[1..]);
      assert ExtElements(exts)[1..] == ExtElements(exts[1..]);
    }
  }

  lemma CertificateHolds(f: Fields)
    requires f.exts.Some?
    ensures |EncodeList(ExtElements(f.exts.value))| < |Cert(f)|
  {
    hide EncodeList, ExtElements, Flatten, TbsParts;
    assert |EncodeList(ExtElements(f.exts.value))| < |ExtsField(f.exts)|;
  }

  /** Parsing an issued certificate and then each extension's value recovers the CA flag with its
      path length, the key usage, the purposes, the names and the key identifiers that the profile
      selected, in order, exactly when the authority key identifier has fewer than 128 bytes. */
  lemma ProfileRoundTrip(f: Fields, p: Profile, ski: Bytes, aki: Bytes, sans: seq<GeneralName>)
    requires ValidNames(sans) && Issuable(f)
    requires |Cert(f.(exts := Some(Selected(p, ski, aki, sans))))| < LEN_LIMIT
    ensures var read := ParseCertificate(Cert(f.(exts := Some(Selected(p, ski, aki, sans)))));
            && read.Ok? && read.value.exts.Some?
            && (ReadValues(read.value.exts.value) == Ok(SelectedValues(p, ski, aki, sans))
                <==> (p.includeAki ==> |aki| < 128))
  {
    var exts := Selected(p, ski, aki, sans);
    var g := f.(exts := Some(exts));
    hide Selected, SelectedValues, ReadValues, Cert, ParseCertificate, EncodeList, ExtElements;
    CertificateRoundTrip(g);
    CertificateHolds(g);
    ValueWithin(exts);
    SelectedRead(p, ski, aki, sans);
  }

  // ---------------------------------------------------------------- identifiers and criticality

  datatype Head = Head(oid: Bytes, critical: bool)

  function Heads(exts: seq<Ext>): (r: seq<Head>)
    ensures |r| == |exts|
  {
    seq(|exts|, i requires 0 <= i < |exts| => Head(exts[i].oid, exts[i].critical))
  }

  function WhenHead(b: bool, h: Head): (r: seq<Head>) { if b then [h] else [] }

  predicate AnyUsage(k: KeyUsage) {
    || k.digitalSignature || k.nonRepudiation || k.keyEncipherment || k.dataEncipherment || k.keyAgreement
    || k.keyCertSign || k.crlSign || k.encipherOnly || k.decipherOnly
  }

  /** Which extensions a profile asks for, by their identifiers in section 4.2.1 of RFC 5280, and
      which of them are critical. */
  function ProfileHeads(p: Profile, sans: seq<GeneralName>): (r: seq<Head>) {
    WhenHead(p.includeBasicConstraints, Head([0x55, 0x1D, 0x13], p.isCa))
    + WhenHead(AnyUsage(p.keyUsage), Head([0x55, 0x1D, 0x0F], true))
    + WhenHead(p.extKeyUsage != [], Head([0x55, 0x1D, 0x25], false))
    + WhenHead(p.includeSan && sans != [], Head([0x55, 0x1D, 0x11], false))
    + WhenHead(p.includeSki, Head([0x55, 0x1D, 0x0E], false))
    + WhenHead(p.includeAki, Head([0x55, 0x1D, 0x23], false))
  }

  lemma HeadsAppend(a: seq<Ext>, b: seq<Ext>)
    ensures Heads(a + b) == Heads(a) + Heads(b)
  {
  }

  lemma HeadsWhen(b: bool, e: Ext)
    ensures Heads(When(b, e)) == WhenHead(b, Head(e.oid, e.critical))
  {
  }

  lemma AnyUsageBit(k: KeyUsage)
    ensures LastBit(k, 9) >= 0 <==> AnyUsage(k)
  {
    var r := LastBit(k, 9);
    if r < 0 {
      assert !Flag(k, 0) && !Flag(k, 1) && !Flag(k, 2) && !Flag(k, 3) && !Flag(k, 4);
      assert !Flag(k, 5) && !Flag(k, 6) && !Flag(k, 7) && !Flag(k, 8);
    }
  }

  lemma HeadsOfCritical(p: Profile)
    ensures Heads(SelectedCritical(p)) == WhenHead(p.includeBasicConstraints, Head([0x55, 0x1D, 0x13], p.isCa))
                                          + WhenHead(AnyUsage(p.keyUsage), Head([0x55, 0x1D, 0x0F], true))
  {
    hide Heads, When, BasicConstraints, KeyUsageBytes, Tlv, AnyUsage;
    AnyUsageBit(p.keyUsage);
    var a := Ext(BASIC_CONSTRAINTS_OID, p.isCa, BasicConstraints(p.isCa, p.pathLen));
    var b := Ext(KEY_USAGE_OID, true, Tlv(BIT_STRING, KeyUsageBytes(p.keyUsage)));
    HeadsWhen(p.includeBasicConstraints, a);
    HeadsWhen(LastBit(p.keyUsage, 9) >= 0, b);
    HeadsAppend(When(p.includeBasicConstraints, a), When(LastBit(p.keyUsage, 9) >= 0, b));
  }

  lemma HeadsOfSelected(p: Profile, ski: Bytes, aki: Bytes, sans: seq<GeneralName>)
    ensures Heads(Selected(p, ski, aki, sans)) == ProfileHeads(p, sans)
  {
    hide Heads, When, SelectedCritical, EncodeList, PurposeElements, NameElements,
      AuthorityKeyId, Tlv, WhenHead, AnyUsage;
    HeadsOfCritical(p);
    var a := When(p.extKeyUsage != [],
                  Ext(EXT_KEY_USAGE_OID, false, Tlv(SEQUENCE, EncodeList(PurposeElements(p.extKeyUsage)))));
    var b := When(p.includeSan && sans != [],
                  Ext(SUBJECT_ALT_NAME_OID, false, Tlv(SEQUENCE, EncodeList(NameElements(sans)))));
    var c := When(p.includeSki, Ext(SUBJECT_KEY_ID_OID, false, Tlv(OCTET_STRING, ski)));
    var d := When(p.includeAki, Ext(AUTHORITY_KEY_ID_OID, false, AuthorityKeyId(aki)));
    HeadsWhen(p.extKeyUsage != [],
              Ext(EXT_KEY_USAGE_OID, false, Tlv(SEQUENCE, EncodeList(PurposeElements(p.extKeyUsage)))));
    HeadsWhen(p.includeSan && sans != [],
              Ext(SUBJECT_ALT_NAME_OID, false, Tlv(SEQUENCE, EncodeList(NameElements(sans)))));
    HeadsWhen(p.includeSki, Ext(SUBJECT_KEY_ID_OID, false, Tlv(OCTET_STRING, ski)));
    HeadsWhen(p.includeAki, Ext(AUTHORITY_KEY_ID_OID, false, AuthorityKeyId(aki)));
    var x := SelectedCritical(p);
    HeadsAppend(x, a);
    HeadsAppend(x + a, b);
    HeadsAppend(x + a + b, c);
    HeadsAppend(x + a + b + c, d);
  }

  /** The extensions of a parsed issued certificate are exactly those the profile asks for, in the
      order of the list; key usage is always critical, basic constraints exactly for a CA, and no
      other extension is. */
  lemma HeadsExactly(f: Fields, p: Profile, ski: Bytes, aki: Bytes, sans: seq<GeneralName>)
    requires ValidNames(sans) && Issuable(f)
    requires |Cert(f.(exts := Some(Selected(p, ski, aki, sans))))| < LEN_LIMIT
    ensures var read := ParseCertificate(Cert(f.(exts := Some(Selected(p, ski, aki, sans)))));
            && read.Ok? && read.value.exts.Some?
            && Heads(read.value.exts.value) == ProfileHeads(p, sans)
  {
    hide Selected, Cert, ParseCertificate, Heads, ProfileHeads;
    CertificateRoundTrip(f.(exts := Some(Selected(p, ski, aki, sans))));
    HeadsOfSelected(p, ski, aki, sans);
  }
}
