/** The validity times of gm-ca/src/cert.rs: how `utctime` writes a point in time, and what a reader
    of section 4.1.2.5 of RFC 5280 makes of it. */
module CertificateTime {
  import opened Bytes
  import opened Der

  const UTC_TIME: byte := 0x17
  const GENERALIZED_TIME: byte := 0x18

  datatype Moment = Moment(year: int, month: nat, day: nat, hour: nat, minute: nat, second: nat)

  /** The range of the time library's date type. */
  predicate InCalendar(t: Moment) {
    && -9999 <= t.year <= 9999 && 1 <= t.month <= 12 && 1 <= t.day <= 31
    && t.hour < 24 && t.minute < 60 && t.second < 60
  }

  // ---------------------------------------------------------------- decimal digits

  /** The low `k` decimal digits of `n`. */
  function Digits(n: nat, k: nat): (r: Bytes)
    ensures |r| == k
    decreases k, n
  {
    if k == 0 then [] else Digits(n / 10, k - 1) + [0x30 + n % 10]
  }

  function Width(n: nat): (w: nat)
    ensures w >= 1
  {
    if n < 10 then 1 else 1 + Width(n / 10)
  }

  /** `{:0w}`: at least `w` digits, and more when the number has more. */
  function Padded(n: nat, w: nat): (r: Bytes) {
    Digits(n, if Width(n) < w then w else Width(n))
  }

  /** `{:04}` of a signed number: the sign counts as one of the four. */
  function SignedYear(y: int): (r: Bytes) {
    if y >= 0 then Padded(y, 4) else [0x2D] + Padded(-y, 3)
  }

  predicate AllDigits(s: Bytes) {
    forall i :: 0 <= i < |s| ==> 0x30 <= s[i] <= 0x39
  }

  function ValueOf(s: Bytes): (n: nat)
    requires AllDigits(s)
  {
    if s == [] then 0 else 10 * ValueOf(s[..|s| - 1]) + (s[|s| - 1] - 0x30)
  }

  function Pow10(k: nat): (r: nat)
    ensures r >= 1
  {
    if k == 0 then 1 else 10 * Pow10(k - 1)
  }

  lemma {:induction false} DigitsRead(n: nat, k: nat)
    requires n < Pow10(k)
    ensures AllDigits(Digits(n, k)) && ValueOf(Digits(n, k)) == n
  {
    if k > 0 {
      DigitsRead(n / 10, k - 1);
      assert Digits(n, k)[..k - 1] == Digits(n / 10, k - 1);
    }
  }

  lemma Widths(n: nat)
    ensures n < 100 ==> Width(n) <= 2
    ensures 100 <= n < 1000 ==> Width(n) == 3
    ensures 1000 <= n < 10000 ==> Width(n) == 4
  {
    assert Width(n / 10) == if n / 10 < 10 then 1 else 1 + Width(n / 10 / 10);
    assert Width(n / 10 / 10) == if n / 10 / 10 < 10 then 1 else 1 + Width(n / 10 / 10 / 10);
  }

  lemma Pow10Values()
    ensures Pow10(2) == 100 && Pow10(4) == 10000
  {
    assert Pow10(1) == 10;
    assert Pow10(3) == 1000;
  }

  // ---------------------------------------------------------------- writing and reading a time

  /** Numbers of two digits each and a Z. */
  function WriteRuns(values: seq<nat>): (r: Bytes) {
    if values == [] then [0x5A] else Padded(values[0], 2) + WriteRuns(values[1..])
  }

  /** Everything after the year. */
  function AfterYear(t: Moment): (r: Bytes) {
    WriteRuns([t.month, t.day, t.hour, t.minute, t.second])
  }

  /** The year as `(year - 2000) as u8`: before 2000 the cast wraps. */
  function ShortYear(y: int): (n: nat) { (y - 2000) % 256 }

  /** utctime. */
  function Utctime(t: Moment): (r: Bytes) {
    if 1950 <= t.year < 2050 then Tlv(UTC_TIME, Padded(ShortYear(t.year), 2) + AfterYear(t))
    else Tlv(GENERALIZED_TIME, SignedYear(t.year) + AfterYear(t))
  }

  function ReadRuns(s: Bytes, n: nat): (r: Option<seq<nat>>)
    ensures r.Some? ==> |r.value| == n && |s| == 2 * n + 1
    decreases n
  {
    if n == 0 then if s == [0x5A] then Some([]) else None
    else if |s| < 2 || !AllDigits(s[..2]) then None
    else
      var rest := ReadRuns(s[2..], n - 1);
      if rest.None? then None else Some([ValueOf(s[..2])] + rest.value)
  }

  /** A year of `w` digits, ten more digits and a Z. */
  function ReadDigits(content: Bytes, w: nat): (r: Option<Moment>) {
    if |content| < w || !AllDigits(content[..w]) then None
    else
      var runs := ReadRuns(content[w..], 5);
      if runs.None? then None
      else
        var v := runs.value;
        Some(Moment(ValueOf(content[..w]), v[0], v[1], v[2], v[3], v[4]))
  }

  /** One element that is either kind of time; two-digit years from 50 on are of the last century. */
  function ReadTime(x: Bytes): (r: Option<Moment>) {
    if x == [] then None
    else
      var e := ParseTlv(x[0], x);
      if e.Err? || e.value.rest != [] then None
      else if x[0] == GENERALIZED_TIME then ReadDigits(e.value.value, 4)
      else if x[0] != UTC_TIME then None
      else
        var t := ReadDigits(e.value.value, 2);
        if t.None? then None
        else Some(t.value.(year := t.value.year + if t.value.year >= 50 then 1900 else 2000))
  }

  lemma TwoDigits(n: nat)
    requires n < 100
    ensures |Padded(n, 2)| == 2 && AllDigits(Padded(n, 2)) && ValueOf(Padded(n, 2)) == n
  {
    Widths(n);
    Pow10Values();
    DigitsRead(n, 2);
  }

  lemma FourDigits(n: nat)
    requires n < 10000
    ensures |Padded(n, 4)| == 4 && AllDigits(Padded(n, 4)) && ValueOf(Padded(n, 4)) == n
  {
    Widths(n);
    Pow10Values();
    DigitsRead(n, 4);
  }

  lemma {:induction false} RunsRead(values: seq<nat>)
    requires forall i :: 0 <= i < |values| ==> values[i] < 100
    ensures ReadRuns(WriteRuns(values), |values|) == Some(values)
    decreases |values|
  {
    if values != [] {
      hide Padded, ValueOf, AllDigits;
      TwoDigits(values[0]);
      RunsRead(values[1..]);
      var s := WriteRuns(values);
      assert s[..2] == Padded(values[0], 2) && s[2..] == WriteRuns(values[1..]);
      assert [values[0]] + values[1..] == values;
    }
  }

  lemma RestRead(y: Bytes, t: Moment)
    requires InCalendar(t) && AllDigits(y)
    ensures |AfterYear(t)| == 11
    ensures ReadDigits(y + AfterYear(t), |y|) == Some(t.(year := ValueOf(y)))
  {
    hide ValueOf, AllDigits, WriteRuns, ReadRuns;
    var values: seq<nat> := [t.month, t.day, t.hour, t.minute, t.second];
    RunsRead(values);
    var s := y + AfterYear(t);
    assert s[..|y|] == y && s[|y|..] == AfterYear(t);
  }

  /** What the element holds is what was put in it. */
  lemma ElementRead(tag: byte, content: Bytes)
    requires |content| < 128
    ensures ParseTlv(tag, Tlv(tag, content)) == Ok(Read([], content)) && Tlv(tag, content)[0] == tag
  {
    EncodedWhole(tag, content);
  }

  /** A year of the wrong length, or with a sign, is not read. */
  lemma YearRefused(y: Bytes, rest: Bytes, w: nat)
    requires |rest| == 11 && (|y| != w || !AllDigits(y))
    ensures ReadDigits(y + rest, w) == None
  {
    if |y| == w { assert (y + rest)[..w] == y; }
  }

  lemma UtcYear(y: int)
    requires 1950 <= y < 2050
    ensures |Padded(ShortYear(y), 2)| == if y < 2000 then 3 else 2
  {
    Widths(ShortYear(y));
  }

  lemma SignedYearLength(y: int)
    requires -9999 <= y <= 9999
    ensures 4 <= |SignedYear(y)| <= 5
    ensures y < 0 ==> !AllDigits(SignedYear(y))
  {
    Widths(if y >= 0 then y else -y);
    if y < 0 { assert SignedYear(y)[0] == 0x2D; }
  }

  /** A time of either kind reads back as written if and only if its year is not negative and not
      one of 1950 to 1999, whose two-digit form is written with three digits. */
  lemma TimeRoundTrip(t: Moment)
    requires InCalendar(t)
    ensures ReadTime(Utctime(t)) == Some(t) <==> t.year >= 0 && !(1950 <= t.year < 2000)
  {
    hide Padded, ReadDigits, ParseTlv, Tlv, AfterYear, ValueOf;
    RestRead([], t);
    if 1950 <= t.year < 2050 {
      var y := Padded(ShortYear(t.year), 2);
      UtcYear(t.year);
      ElementRead(UTC_TIME, y + AfterYear(t));
      if t.year < 2000 {
        YearRefused(y, AfterYear(t), 2);
      } else {
        TwoDigits(t.year - 2000);
        RestRead(y, t);
      }
    } else {
      var y := SignedYear(t.year);
      SignedYearLength(t.year);
      ElementRead(GENERALIZED_TIME, y + AfterYear(t));
      if t.year < 0 {
        YearRefused(y, AfterYear(t), 4);
      } else {
        FourDigits(t.year);
        RestRead(y, t);
      }
    }
  }

  // ---------------------------------------------------------------- two times in a row

  /** A first element of either kind, as it stands, and what follows it. */
  function TimeElement(data: Bytes): (r: Result<Read<Bytes>>) {
    if data == [] || (data[0] != UTC_TIME && data[0] != GENERALIZED_TIME) then Err
    else
      match ParseTlv(data[0], data)
      case Err => Err
      case Ok(Read(rest, _)) => if |rest| > |data| then Err else Ok(Read(rest, data[..|data| - |rest|]))
  }

  predicate TimeOk(x: Bytes) { TimeElement(x) == Ok(Read([], x)) }

  /** The content of a Validity. */
  function ReadValidity(data: Bytes): (r: Result<(Bytes, Bytes)>) {
    match TimeElement(data)
    case Err => Err
    case Ok(Read(more, notBefore)) =>
      match TimeElement(more)
      case Err => Err
      case Ok(Read(rest, notAfter)) => if rest == [] then Ok((notBefore, notAfter)) else Err
  }

  lemma TimeFirst(x: Bytes, more: Bytes)
    requires TimeOk(x)
    ensures TimeElement(x + more) == Ok(Read(more, x))
  {
    hide ParseTlv;
    var content := ParseTlv(x[0], x).value.value;
    WholeExtend(x[0], x, content, more);
    assert (x + more)[..|x|] == x;
  }

  lemma ValidityRead(x: Bytes, y: Bytes)
    requires TimeOk(x) && TimeOk(y)
    ensures ReadValidity(x + y) == Ok((x, y))
  {
    hide TimeElement;
    TimeFirst(x, y);
  }

  /** Everything utctime writes is one such element. */
  lemma UtctimeOk(t: Moment)
    requires InCalendar(t)
    ensures TimeOk(Utctime(t))
  {
    hide Padded, ParseTlv, Tlv, AfterYear, SignedYear;
    RestRead([], t);
    if 1950 <= t.year < 2050 {
      UtcYear(t.year);
      ElementRead(UTC_TIME, Padded(ShortYear(t.year), 2) + AfterYear(t));
    } else {
      SignedYearLength(t.year);
      ElementRead(GENERALIZED_TIME, SignedYear(t.year) + AfterYear(t));
    }
    assert Utctime(t)[..|Utctime(t)|] == Utctime(t);
  }
}
