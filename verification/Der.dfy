/** DER primitives of gm-der: encoders (gm-der/src/encode.rs) and parsers
    (gm-der/src/decode.rs). A parser returns what is left of its input and what it read. */
module Der {
  import opened Bytes

  datatype Read<T> = Read(rest: Bytes, value: T)

  const LEN_LIMIT: nat := 0x1_0000_0000

  // ---------------------------------------------------------------- lengths

  /** der_len; from 2^32 on the four bytes truncate. */
  function DerLen(n: nat): (r: Bytes) {
    if n < 0x80 then [n]
    else if n < 0x100 then [0x81] + BE(n, 1)
    else if n < 0x1_0000 then [0x82] + BE(n, 2)
    else if n < 0x100_0000 then [0x83] + BE(n, 3)
    else [0x84] + BE(n, 4)
  }

  /** parse_der_length. */
  function ParseLength(data: Bytes): (r: Result<Read<nat>>) {
    if data == [] then Err
    else if data[0] < 0x80 then Ok(Read(data[1..], data[0]))
    else
      var k := data[0] - 0x80;
      if k == 0 || k > 4 || |data| < 1 + k then Err
      else Ok(Read(data[1 + k..], FromBE(data[1..1 + k])))
  }

  method ParseDerLength(data: Bytes) returns (r: Result<Read<nat>>)
    ensures r == ParseLength(data)
  {
    if data == [] {
      return Err;
    }
    var first := data[0];
    if first < 0x80 {
      return Ok(Read(data[1..], first));
    }
    var numBytes := first - 0x80;
    if numBytes == 0 || numBytes > 4 {
      return Err;
    }
    if |data| < 1 + numBytes {
      return Err;
    }
    var len: nat := 0;
    for i := 0 to numBytes
      invariant len == FromBE(data[1..1 + i])
    {
      assert data[1..2 + i][..i] == data[1..1 + i];
      len := len * 256 + data[1 + i];
    }
    r := Ok(Read(data[1 + numBytes..], len));
  }

  lemma LongForm(n: nat, k: nat, rest: Bytes)
    requires 1 <= k <= 4 && n < Pow256(k)
    ensures ParseLength([0x80 + k] + BE(n, k) + rest) == Ok(Read(rest, n))
  {
    var d := [0x80 + k] + BE(n, k) + rest;
    assert d[1..1 + k] == BE(n, k) && d[1 + k..] == rest;
    FromBEofBE(n, k);
  }

  /** Every length below 2^32 reads back. */
  lemma LengthRoundTrip(n: nat, rest: Bytes)
    requires n < LEN_LIMIT
    ensures ParseLength(DerLen(n) + rest) == Ok(Read(rest, n))
  {
    Pow256Values();
    assert Pow256(3) == 0x100_0000;
    if n < 0x80 {
      assert (DerLen(n) + rest)[1..] == rest;
    } else if n < 0x100 {
      LongForm(n, 1, rest);
    } else if n < 0x1_0000 {
      LongForm(n, 2, rest);
    } else if n < 0x100_0000 {
      LongForm(n, 3, rest);
    } else {
      LongForm(n, 4, rest);
    }
  }

  /** From 2^32 on the length octets hold the length modulo 2^32. */
  lemma LengthRead(n: nat, rest: Bytes)
    ensures var m: nat := n % 0x1_0000_0000;
            ParseLength(DerLen(n) + rest) == Ok(Read(rest, m))
  {
    if n < 0x1_0000_0000 {
      LengthRoundTrip(n, rest);
    } else {
      Pow256Values();
      BEWraps(n, n % 0x1_0000_0000, n / 0x1_0000_0000);
      LongForm(n % 0x1_0000_0000, 4, rest);
    }
  }

  /** A successful length parse splits its input; the value always fits 32 bits. */
  lemma LengthSplit(data: Bytes)
    requires ParseLength(data).Ok?
    ensures var p := ParseLength(data).value;
            && p.value < LEN_LIMIT
            && |p.rest| < |data| <= |p.rest| + 5
            && p.rest == data[|data| - |p.rest|..]
  {
    if data[0] >= 0x80 {
      var k := data[0] - 0x80;
      BEofFromBE(data[1..1 + k]);
      PowMonotone(k, 4);
      Pow256Values();
    }
  }

  lemma {:induction false} PowMonotone(a: nat, b: nat)
    requires a <= b
    ensures Pow256(a) <= Pow256(b)
  {
    if a < b { PowMonotone(a, b - 1); }
  }

  /** der_len is the shortest length field the parser reads as n. */
  lemma LengthMinimal(data: Bytes)
    requires ParseLength(data).Ok?
    ensures var p := ParseLength(data).value;
            |DerLen(p.value)| <= |data| - |p.rest|
  {
    if data[0] >= 0x80 {
      var k := data[0] - 0x80;
      BEofFromBE(data[1..1 + k]);
      Pow256Values();
      assert Pow256(3) == 0x100_0000;
      LengthSplit(data);
    }
  }

  // ---------------------------------------------------------------- tag, length, value

  /** The common layout of the tag encoders. */
  function Tlv(tag: byte, content: Bytes): (r: Bytes)
    ensures |r| >= |content| + 2
  {
    [tag] + DerLen(|content|) + content
  }

  /** The common shape of the tag parsers. */
  function ParseTlv(tag: byte, data: Bytes): (r: Result<Read<Bytes>>) {
    if data == [] || data[0] != tag then Err else
    match ParseLength(data[1..])
    case Err => Err
    case Ok(Read(remaining, len)) =>
      if |remaining| < len then Err else Ok(Read(remaining[len..], remaining[..len]))
  }

  const SEQUENCE: byte := 0x30
  const SET: byte := 0x31
  const INTEGER: byte := 0x02
  const BOOLEAN: byte := 0x01
  const OID: byte := 0x06
  const OCTET_STRING: byte := 0x04
  const BIT_STRING: byte := 0x03
  const UTF8_STRING: byte := 0x0C

  function IntegerContent(bytes: Bytes): (r: Bytes)
    ensures |r| <= |bytes| + 1
  {
    if bytes != [] && bytes[0] >= 0x80 then [0] + bytes else bytes
  }

  function DerIntegerPositive(bytes: Bytes): (r: Bytes) { Tlv(INTEGER, IntegerContent(bytes)) }
  function DerBitString(bits: Bytes): (r: Bytes) { Tlv(BIT_STRING, [0] + bits) }
  function DerBool(b: bool): (r: Bytes) { [0x01, 0x01, if b then 0xFF else 0x00] }

  /** der_sequence_v and der_set: the length is summed first, the items are appended after. */
  method DerItems(tag: byte, items: seq<Bytes>) returns (v: Bytes)
    ensures v == Tlv(tag, Flatten(items))
  {
    var contentLen := 0;
    for i := 0 to |items|
      invariant contentLen + |Flatten(items[i..])| == |Flatten(items)|
    {
      assert items[i..][1..] == items[i + 1..];
      contentLen := contentLen + |items[i]|;
    }
    v := [tag] + DerLen(contentLen);
    ghost var head := v;
    for i := 0 to |items|
      invariant v + Flatten(items[i..]) == head + Flatten(items)
    {
      assert items[i..][1..] == items[i + 1..];
      assert v + (items[i] + Flatten(items[i + 1..])) == (v + items[i]) + Flatten(items[i + 1..]);
      v := v + items[i];
    }
    assert v == v + Flatten(items[|items|..]);
  }

  /** What was encoded is read back, and nothing after it is touched, if and only if the content
      is shorter than 2^32 bytes. */
  lemma TlvRoundTrip(tag: byte, content: Bytes, rest: Bytes)
    ensures ParseTlv(tag, Tlv(tag, content) + rest) == Ok(Read(rest, content)) <==> |content| < LEN_LIMIT
  {
    var d := Tlv(tag, content) + rest;
    assert d[1..] == DerLen(|content|) + (content + rest);
    if |content| < LEN_LIMIT {
      LengthRoundTrip(|content|, content + rest);
      assert (content + rest)[|content|..] == rest && (content + rest)[..|content|] == content;
    } else if ParseTlv(tag, d).Ok? {
      LengthSplit(d[1..]);
    }
  }

  /** Content of any length is read up to that length modulo 2^32. */
  lemma TlvRead(tag: byte, content: Bytes)
    ensures var m := |content| % 0x1_0000_0000;
            ParseTlv(tag, Tlv(tag, content)) == Ok(Read(content[m..], content[..m]))
  {
    hide DerLen, ParseLength;
    assert Tlv(tag, content)[1..] == DerLen(|content|) + content;
    LengthRead(|content|, content);
  }

  /** A successful parse splits its input exactly into header, content and rest, and the header
      is at least as long as the one the encoder would write. */
  lemma TlvSplit(tag: byte, data: Bytes)
    requires ParseTlv(tag, data).Ok?
    ensures var p := ParseTlv(tag, data).value;
            var h := |data| - |p.value| - |p.rest|;
            && 2 <= h <= 6
            && data == data[..h] + p.value + p.rest
            && p.rest == data[|data| - |p.rest|..]
            && data[0] == tag
            && |Tlv(tag, p.value)| + |p.rest| <= |data|
  {
    hide DerLen, ParseLength;
    var tail := data[1..];
    LengthSplit(tail);
    LengthMinimal(tail);
    var remaining := ParseLength(tail).value.rest;
    var p := ParseTlv(tag, data).value;
    SplitThrice(data, tail, remaining, p.value, p.rest);
  }

  lemma SplitThrice(data: Bytes, tail: Bytes, remaining: Bytes, content: Bytes, rest: Bytes)
    requires data != [] && tail == data[1..] && |remaining| <= |tail|
    requires remaining == tail[|tail| - |remaining|..]
    requires |content| <= |remaining| && content == remaining[..|content|] && rest == remaining[|content|..]
    ensures data == data[..|data| - |content| - |rest|] + content + rest
    ensures rest == data[|data| - |rest|..]
  {
    assert remaining == data[|data| - |remaining|..];
    assert content == data[|data| - |remaining|..|data| - |rest|];
  }

  // ---------------------------------------------------------------- several fields in a row

  /** Fields with the given tags, one after the other. */
  function EncodeFields(tags: seq<byte>, contents: seq<Bytes>): (r: Bytes)
    requires |tags| == |contents|
    decreases |tags|, contents
  {
    if tags == [] then [] else Tlv(tags[0], contents[0]) + EncodeFields(tags[1..], contents[1..])
  }

  /** Parsing with one tag parser after the other. */
  function ParseFields(tags: seq<byte>, data: Bytes): (r: Result<Read<seq<Bytes>>>)
    ensures r.Ok? ==> |r.value.value| == |tags|
    decreases |tags|, data
  {
    if tags == [] then Ok(Read(data, [])) else
    match ParseTlv(tags[0], data)
    case Err => Err
    case Ok(Read(rest, content)) =>
      match ParseFields(tags[1..], rest)
      case Err => Err
      case Ok(Read(rest', more)) => Ok(Read(rest', [content] + more))
  }

  /** A row of fields reads back field by field. */
  lemma {:induction false} FieldsRoundTrip(tags: seq<byte>, contents: seq<Bytes>, rest: Bytes)
    requires |tags| == |contents| && |EncodeFields(tags, contents)| < LEN_LIMIT
    ensures ParseFields(tags, EncodeFields(tags, contents) + rest) == Ok(Read(rest, contents))
    decreases |tags|
  {
    if tags == [] {
      assert EncodeFields(tags, contents) + rest == rest;
    } else {
      var more := EncodeFields(tags[1..], contents[1..]);
      assert EncodeFields(tags, contents) + rest == Tlv(tags[0], contents[0]) + (more + rest);
      TlvRoundTrip(tags[0], contents[0], more + rest);
      FieldsRoundTrip(tags[1..], contents[1..], rest);
      assert [contents[0]] + contents[1..] == contents;
    }
  }

  /** One element and nothing after it, however long its length field is. */
  predicate Whole(tag: byte, part: Bytes, content: Bytes) {
    ParseTlv(tag, part) == Ok(Read([], content))
  }

  lemma EncodedWhole(tag: byte, content: Bytes)
    requires |content| < LEN_LIMIT
    ensures Whole(tag, Tlv(tag, content), content)
  {
    hide Tlv, ParseTlv;
    TlvRoundTrip(tag, content, []);
    assert Tlv(tag, content) + [] == Tlv(tag, content);
  }

  lemma CutInside(a: Bytes, b: Bytes, i: nat, j: nat)
    requires i <= j <= |a|
    ensures (a + b)[i..j] == a[i..j] && (a + b)[..j] == a[..j] && (a + b)[j..] == a[j..] + b
  {
  }

  lemma LengthExtend(data: Bytes, rest: Bytes)
    requires ParseLength(data).Ok?
    ensures ParseLength(data + rest) == Ok(Read(ParseLength(data).value.rest + rest, ParseLength(data).value.value))
  {
    if data[0] >= 0x80 {
      var k := data[0] - 0x80;
      CutInside(data, rest, 1, 1 + k);
    } else {
      CutInside(data, rest, 1, 1);
    }
  }

  /** An element reads the same with anything after it. */
  lemma WholeExtend(tag: byte, part: Bytes, content: Bytes, rest: Bytes)
    requires Whole(tag, part, content)
    ensures ParseTlv(tag, part + rest) == Ok(Read(rest, content))
  {
    hide ParseLength;
    var tail := part[1..];
    LengthExtend(tail, rest);
    CutInside(part, rest, 1, 1);
    var remaining := ParseLength(tail).value.rest;
    assert remaining == content + [] by { assert remaining == remaining[..|content|] + remaining[|content|..]; }
    assert remaining == content;
    CutInside(content, rest, 0, |content|);
  }

  ghost predicate AllWhole(tags: seq<byte>, parts: seq<Bytes>, contents: seq<Bytes>) {
    && |tags| == |parts| == |contents|
    && forall i :: 0 <= i < |tags| ==> Whole(tags[i], parts[i], contents[i])
  }

  /** A row of elements, each however encoded, reads back element by element. */
  lemma {:induction false} PartsRoundTrip(tags: seq<byte>, parts: seq<Bytes>, contents: seq<Bytes>, rest: Bytes)
    requires AllWhole(tags, parts, contents)
    ensures ParseFields(tags, Flatten(parts) + rest) == Ok(Read(rest, contents))
    decreases |tags|
  {
    hide ParseTlv, Whole;
    if tags == [] {
      assert [] + rest == rest;
    } else {
      var more := Flatten(parts[1..]) + rest;
      PartsRoundTrip(tags[1..], parts[1..], contents[1..], rest);
      WholeExtend(tags[0], parts[0], contents[0], more);
      assert Flatten(parts) + rest == parts[0] + more;
      assert [contents[0]] + contents[1..] == contents;
    }
  }

  /** Parsing that must use up the whole input. */
  function ParseAll(tags: seq<byte>, data: Bytes): (r: Result<seq<Bytes>>)
    ensures r.Ok? ==> |r.value| == |tags|
  {
    match ParseFields(tags, data)
    case Err => Err
    case Ok(p) => if p.rest == [] then Ok(p.value) else Err
  }

  lemma AllRoundTrip(tags: seq<byte>, contents: seq<Bytes>)
    requires |tags| == |contents| && |EncodeFields(tags, contents)| < LEN_LIMIT
    ensures ParseAll(tags, EncodeFields(tags, contents)) == Ok(contents)
  {
    FieldsRoundTrip(tags, contents, []);
    assert EncodeFields(tags, contents) + [] == EncodeFields(tags, contents);
  }

  // ---------------------------------------------------------------- lists of elements

  datatype Element = Element(tag: byte, content: Bytes)

  function EncodeList(items: seq<Element>): (r: Bytes) {
    if items == [] then [] else Tlv(items[0].tag, items[0].content) + EncodeList(items[1..])
  }

  /** Repeats the parser the next tag byte calls for until the input is used up. */
  function ParseList(data: Bytes): (r: Result<seq<Element>>)
    decreases |data|
  {
    if data == [] then Ok([]) else
    match ParseTlv(data[0], data)
    case Err => Err
    case Ok(Read(rest, content)) =>
      TlvSplit(data[0], data);
      match ParseList(rest)
      case Err => Err
      case Ok(more) => Ok([Element(data[0], content)] + more)
  }

  lemma ElementRoundTrip(tag: byte, content: Bytes, rest: Bytes)
    requires |Tlv(tag, content)| < LEN_LIMIT
    ensures ParseTlv(tag, Tlv(tag, content) + rest) == Ok(Read(rest, content))
    ensures Tlv(tag, content) + rest != [] && (Tlv(tag, content) + rest)[0] == tag
  {
    TlvRoundTrip(tag, content, rest);
  }

  lemma {:induction false} ListRoundTrip(items: seq<Element>)
    requires |EncodeList(items)| < LEN_LIMIT
    ensures ParseList(EncodeList(items)) == Ok(items)
    decreases |items|
  {
    hide Tlv, ParseTlv;
    if items != [] {
      var e, more := items[0], EncodeList(items[1..]);
      ElementRoundTrip(e.tag, e.content, more);
      ListRoundTrip(items[1..]);
      assert [e] + items[1..] == items;
    }
  }
}
