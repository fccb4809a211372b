/** Byte strings, exclusive-or and big-endian numbers, shared by every component. */
module Bytes {

  type byte = b: int | 0 <= b < 256
  type Bytes = seq<byte>

  datatype Option<+T> = None | Some(value: T)
  datatype Result<+T> = Ok(value: T) | Err

  const TWO32: int := 0x1_0000_0000

  // ---------------------------------------------------------------- exclusive-or

  /** Exclusive-or of the low `n` bits of `a` and `b`. */
  function XorBits(n: nat, a: nat, b: nat): (r: nat)
    decreases n, a, b
  {
    if n == 0 then 0 else (a % 2 + b % 2) % 2 + 2 * XorBits(n - 1, a / 2, b / 2)
  }

  function Pow2(n: nat): (r: nat)
    ensures r >= 1
  {
    if n == 0 then 1 else 2 * Pow2(n - 1)
  }

  lemma {:induction false} XorBitsBound(n: nat, a: nat, b: nat)
    ensures XorBits(n, a, b) < Pow2(n)
  {
    if n > 0 { XorBitsBound(n - 1, a / 2, b / 2); }
  }

  lemma Halves(r: nat, x: nat)
    requires x < 2
    ensures (x + 2 * r) / 2 == r && (x + 2 * r) % 2 == x
  {
  }

  lemma BitTwice(a: nat, b: nat)
    requires a < 2 && b < 2
    ensures ((a + b) % 2 + b) % 2 == a
  {
  }

  /** Masking twice with the same bits restores the value. */
  lemma {:induction false} XorBitsTwice(n: nat, a: nat, b: nat)
    requires a < Pow2(n)
    ensures XorBits(n, XorBits(n, a, b), b) == a
  {
    if n > 0 {
      var r, x := XorBits(n - 1, a / 2, b / 2), (a % 2 + b % 2) % 2;
      XorBitsTwice(n - 1, a / 2, b / 2);
      Halves(r, x);
      BitTwice(a % 2, b % 2);
    }
  }

  /** Bit i of a number. */
  function Bit(a: nat, i: nat): (b: nat)
    ensures b < 2
    decreases i, a
  {
    if i == 0 then a % 2 else Bit(a / 2, i - 1)
  }

  /** Every bit of the result is set if and only if exactly one of the two is. */
  lemma {:induction false} XorBitsAt(n: nat, a: nat, b: nat, i: nat)
    ensures Bit(XorBits(n, a, b), i) == 1 <==> i < n && Bit(a, i) != Bit(b, i)
    decreases n, i
  {
    if n == 0 {
      NoBits(i);
    } else {
      Halves(XorBits(n - 1, a / 2, b / 2), (a % 2 + b % 2) % 2);
      if i > 0 { XorBitsAt(n - 1, a / 2, b / 2, i - 1); }
    }
  }

  lemma {:induction false} NoBits(i: nat)
    ensures Bit(0, i) == 0
  {
    if i > 0 { NoBits(i - 1); }
  }

  lemma XorAt(a: byte, b: byte, i: nat)
    requires i < 8
    ensures Bit(Xor(a, b), i) == 1 <==> Bit(a, i) != Bit(b, i)
  {
    XorBitsAt(8, a, b, i);
  }

  function Xor(a: byte, b: byte): (r: byte) {
    XorBitsBound(8, a, b);
    XorBits(8, a, b)
  }

  lemma XorTwice(a: byte, b: byte)
    ensures Xor(Xor(a, b), b) == a
  {
    XorBitsTwice(8, a, b);
  }

  lemma {:induction false} XorBitsCommute(n: nat, a: nat, b: nat)
    ensures XorBits(n, a, b) == XorBits(n, b, a)
  {
    if n > 0 { XorBitsCommute(n - 1, a / 2, b / 2); }
  }

  /** Masking tells different bytes apart, whichever argument is the mask. */
  lemma XorCancels(a: byte, x: byte, y: byte)
    ensures Xor(a, x) == Xor(a, y) <==> x == y
  {
    XorBitsCommute(8, a, x);
    XorBitsCommute(8, a, y);
    XorTwice(x, a);
    XorTwice(y, a);
  }

  /** Byte-wise exclusive-or; the mask may be longer than the data. */
  function XorSeq(data: Bytes, mask: Bytes): (r: Bytes)
    requires |data| <= |mask|
    ensures |r| == |data|
    ensures forall i :: 0 <= i < |r| ==> r[i] == Xor(data[i], mask[i])
  {
    seq(|data|, i requires 0 <= i < |data| => Xor(data[i], mask[i]))
  }

  lemma XorSeqTwice(data: Bytes, mask: Bytes)
    requires |data| <= |mask|
    ensures XorSeq(XorSeq(data, mask), mask) == data
  {
    forall i | 0 <= i < |data| ensures XorSeq(XorSeq(data, mask), mask)[i] == data[i] {
      XorTwice(data[i], mask[i]);
    }
  }

  lemma XorSeqCancels(a: Bytes, x: Bytes, y: Bytes)
    requires |a| == |x| == |y|
    ensures XorSeq(a, x) == XorSeq(a, y) <==> x == y
  {
    hide Xor;
    if XorSeq(a, x) == XorSeq(a, y) {
      forall i | 0 <= i < |a| ensures x[i] == y[i] {
        assert XorSeq(a, x)[i] == XorSeq(a, y)[i];
        XorCancels(a[i], x[i], y[i]);
      }
    }
  }

  // ---------------------------------------------------------------- big-endian numbers

  function Pow256(k: nat): (r: nat)
    ensures r >= 1
  {
    if k == 0 then 1 else 256 * Pow256(k - 1)
  }

  /** The low `k` bytes of `n`, most significant first (`to_be_bytes`, truncating). */
  function BE(n: nat, k: nat): (r: Bytes)
    ensures |r| == k
    decreases k, n
  {
    if k == 0 then [] else BE(n / 256, k - 1) + [n % 256]
  }

  /** The number a big-endian byte string denotes. */
  function FromBE(s: Bytes): (n: nat) {
    if s == [] then 0 else 256 * FromBE(s[..|s| - 1]) + s[|s| - 1]
  }

  /** `to_be_bytes` followed by `from_be_bytes` keeps the low `k` bytes. */
  lemma {:induction false} FromBEofBE(n: nat, k: nat)
    requires n < Pow256(k)
    ensures FromBE(BE(n, k)) == n
  {
    if k > 0 {
      FromBEofBE(n / 256, k - 1);
      assert BE(n, k)[..k - 1] == BE(n / 256, k - 1);
    }
  }

  lemma {:induction false} BEofFromBE(s: Bytes)
    ensures FromBE(s) < Pow256(|s|)
    ensures BE(FromBE(s), |s|) == s
  {
    if s != [] {
      var t := s[..|s| - 1];
      BEofFromBE(t);
      assert FromBE(s) / 256 == FromBE(t);
      assert s == t + [s[|s| - 1]];
    }
  }

  /** Byte i from the left is the digit of weight 256^(k - 1 - i). */
  lemma {:induction false} BEAt(n: nat, k: nat, i: nat)
    requires i < k
    ensures BE(n, k)[i] == Digit(n, k - 1 - i)
    decreases k
  {
    if i < k - 1 { BEAt(n / 256, k - 1, i); }
  }

  /** The digit of weight 256^j. */
  function Digit(n: nat, j: nat): (d: byte)
    decreases j, n
  {
    if j == 0 then n % 256 else Digit(n / 256, j - 1)
  }

  lemma BEInjective(m: nat, n: nat, k: nat)
    requires m < Pow256(k) && n < Pow256(k)
    requires BE(m, k) == BE(n, k)
    ensures m == n
  {
    FromBEofBE(m, k);
    FromBEofBE(n, k);
  }

  lemma Pow256Values()
    ensures Pow256(1) == 0x100 && Pow256(2) == 0x1_0000 && Pow256(4) == TWO32
    ensures Pow256(8) == 0x1_0000_0000_0000_0000
    ensures Pow256(16) == 0x1_0000_0000_0000_0000_0000_0000_0000_0000
  {
    assert Pow256(3) == 0x100_0000;
    assert Pow256(6) == 0x1_0000_0000_0000;
    assert Pow256(10) == 0x1_0000_0000_0000_0000_0000;
    assert Pow256(13) == 0x100_0000_0000_0000_0000_0000_0000;
  }

  /** A four-byte encoding sees a number modulo 2^32. */
  lemma BEWraps(n: nat, m: nat, q: nat)
    requires n == m + q * 0x1_0000_0000
    ensures BE(n, 4) == BE(m, 4)
  {
    Pow256Values();
    BEMod(n, m, q, 4);
  }

  lemma {:induction false} BEMod(n: nat, m: nat, q: nat, k: nat)
    requires n == m + q * Pow256(k)
    ensures BE(n, k) == BE(m, k)
  {
    if k > 0 {
      var p := Pow256(k - 1);
      assert q * (256 * p) == 256 * (q * p);
      DropDigit(n, m, q * p);
      BEMod(n / 256, m / 256, q, k - 1);
    }
  }

  lemma DropDigit(n: nat, m: nat, s: nat)
    requires n == m + 256 * s
    ensures n / 256 == m / 256 + s && n % 256 == m % 256
  {
  }

  // ---------------------------------------------------------------- sequences

  function Zeros(n: nat): (r: Bytes)
    ensures |r| == n
  {
    seq(n, _ => 0)
  }

  /** The strings one after the other. */
  function Flatten(items: seq<Bytes>): (r: Bytes) {
    if items == [] then [] else items[0] + Flatten(items[1..])
  }

  lemma {:induction false} FlattenAppend(items: seq<Bytes>, x: Bytes)
    ensures Flatten(items + [x]) == Flatten(items) + x
    decreases |items|
  {
    if items == [] {
      assert Flatten([x]) == x + Flatten([]);
      assert items + [x] == [x];
    } else {
      FlattenAppend(items[1..], x);
      assert (items + [x])[1..] == items[1..] + [x];
    }
  }

  /** A byte string of length exactly `n`; the identity on strings that have it. Primitives
      with fixed-size results are modelled as arbitrary functions seen through `Fit`. */
  function Fit(s: Bytes, n: nat): (r: Bytes)
    ensures |r| == n
  {
    if |s| == n then s else Zeros(n)
  }

  /** Equal concatenations with equal first lengths split into equal parts. */
  lemma SplitEqual(a: Bytes, b: Bytes, c: Bytes, d: Bytes)
    requires a + b == c + d && |a| == |c|
    ensures a == c && b == d
  {
    assert a == (a + b)[..|a|] && c == (c + d)[..|c|];
    assert b == (a + b)[|a|..] && d == (c + d)[|c|..];
  }
}
