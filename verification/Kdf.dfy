/** The counter-mode key derivation loops of gm-crypto, gm-sm9-rs and gm-tls, each
    proved to compute one declarative, position-wise specification. */
module Kdf {
  import opened Bytes

  /** SM3 and HMAC-SM3 are arbitrary functions with 32-byte results. */
  type Sm3 = Bytes -> Bytes
  type Hmac = (Bytes, Bytes) -> Bytes

  function Digest(sm3: Sm3, data: Bytes): (r: Bytes)
    ensures |r| == 32
  {
    Fit(sm3(data), 32)
  }

  function Tag(hmac: Hmac, key: Bytes, data: Bytes): (r: Bytes)
    ensures |r| == 32
  {
    Fit(hmac(key, data), 32)
  }

  /** A numbered family of 32-byte blocks. */
  type Blocks = nat -> Bytes

  // ---------------------------------------------------------------- the one specification

  /** f(0) || ... || f(n - 1). */
  function Concat(f: Blocks, n: nat): (r: Bytes)
    ensures |r| == 32 * n
  {
    if n == 0 then [] else Concat(f, n - 1) + Fit(f(n - 1), 32)
  }

  /** The first `len` bytes of f(0) || f(1) || ... */
  function Stream(f: Blocks, len: nat): (r: Bytes)
    ensures |r| == len
  {
    Concat(f, (len + 31) / 32)[..len]
  }

  lemma {:induction false} ConcatPrefix(f: Blocks, m: nat, n: nat)
    requires m <= n
    ensures Concat(f, m) <= Concat(f, n)
  {
    if m < n { ConcatPrefix(f, m, n - 1); }
  }

  /** Appending a block, or its beginning, to n whole blocks. */
  lemma ConcatStep(f: Blocks, k: Bytes, n: nat, part: Bytes)
    requires k == Concat(f, n)
    requires part <= Fit(f(n), 32)
    ensures k + part == Concat(f, n + 1)[..|k| + |part|]
  {
  }

  /** However many blocks were produced, cutting at `len` gives the stream. */
  lemma StreamCut(f: Blocks, n: nat, len: nat)
    requires len <= 32 * n
    ensures Concat(f, n)[..len] == Stream(f, len)
  {
    ConcatPrefix(f, (len + 31) / 32, n);
  }

  /** What a request for len bytes has after n blocks. */
  function Partial(f: Blocks, len: nat, n: nat): (r: Bytes)
    ensures |r| < len <==> 32 * n < len
    ensures |r| <= len && (32 * n <= len ==> |r| == 32 * n)
  {
    Concat(f, n)[..if 32 * n <= len then 32 * n else len]
  }

  /** Appending the next block, or as much of it as is still missing. */
  lemma NextBlock(f: Blocks, len: nat, n: nat, part: Bytes)
    requires 32 * n < len
    requires part == Fit(f(n), 32)[..if 32 <= len - 32 * n then 32 else len - 32 * n]
    ensures Partial(f, len, n) + part == Partial(f, len, n + 1)
  {
    ConcatStep(f, Concat(f, n), n, part);
  }

  lemma PartialStart(f: Blocks, len: nat)
    ensures Partial(f, len, 0) == []
  {
  }

  lemma PartialEnd(f: Blocks, len: nat, n: nat)
    requires len <= 32 * n
    ensures Partial(f, len, n) == Stream(f, len)
  {
    StreamCut(f, n, len);
  }

  /** A longer request extends a shorter one. */
  lemma StreamPrefix(f: Blocks, m: nat, n: nat)
    requires m <= n
    ensures Stream(f, m) <= Stream(f, n)
  {
    StreamCut(f, (n + 31) / 32, m);
  }

  /** Byte i of the stream is byte i mod 32 of block i div 32. */
  lemma StreamByte(f: Blocks, len: nat, i: nat)
    requires i < len
    ensures Stream(f, len)[i] == Fit(f(i / 32), 32)[i % 32]
  {
    StreamCut(f, i / 32 + 1, i + 1);
    StreamPrefix(f, i + 1, len);
  }

  // ---------------------------------------------------------------- counter mode

  /** Block i of the GM/T key stream over `z`: SM3(z || i + 1) with a 32-bit counter. */
  function CounterBlock(sm3: Sm3, z: Bytes, i: nat): (r: Bytes)
    ensures |r| == 32
  {
    Digest(sm3, z + BE(i + 1, 4))
  }

  function Counter(sm3: Sm3, z: Bytes): (f: Blocks) {
    (i: nat) => CounterBlock(sm3, z, i)
  }

  lemma CounterFits(sm3: Sm3, z: Bytes, i: nat)
    ensures Fit(Counter(sm3, z)(i), 32) == CounterBlock(sm3, z, i)
  {
  }

  /** Byte i of the key stream comes from the hash of z and the counter i div 32 + 1. */
  lemma CounterByte(sm3: Sm3, z: Bytes, len: nat, i: nat)
    requires i < len
    ensures Stream(Counter(sm3, z), len)[i] == Digest(sm3, z + BE(i / 32 + 1, 4))[i % 32]
  {
    hide Stream, BE;
    StreamByte(Counter(sm3, z), len, i);
  }

  /** The key stream over z written out byte by byte. */
  function KeyBytes(sm3: Sm3, z: Bytes, len: nat): (k: Bytes)
    ensures |k| == len
  {
    seq(len, (i: int) requires 0 <= i < len => Digest(sm3, z + BE(i / 32 + 1, 4))[i % 32])
  }

  lemma StreamIsKeyBytes(sm3: Sm3, z: Bytes, len: nat)
    ensures Stream(Counter(sm3, z), len) == KeyBytes(sm3, z, len)
  {
    hide Stream, BE, Digest, Counter;
    forall i | 0 <= i < len ensures Stream(Counter(sm3, z), len)[i] == KeyBytes(sm3, z, len)[i] {
      CounterByte(sm3, z, len, i);
    }
  }

  /** The first 32 bytes are the hash of z and the counter 1. */
  lemma FirstDigest(sm3: Sm3, z: Bytes, len: nat)
    requires len >= 32
    ensures Stream(Counter(sm3, z), len)[..32] == Digest(sm3, z + [0, 0, 0, 1])
  {
    var s, d := Stream(Counter(sm3, z), len)[..32], Digest(sm3, z + [0, 0, 0, 1]);
    CounterOne();
    hide Stream, BE, Digest, Counter;
    forall i | 0 <= i < 32 ensures s[i] == d[i] {
      CounterByte(sm3, z, len, i);
    }
  }

  lemma CounterOne()
    ensures BE(1, 4) == [0, 0, 0, 1]
  {
    assert BE(0, 3) == BE(0, 2) + [0] && BE(0, 2) == BE(0, 1) + [0] && BE(0, 1) == BE(0, 0) + [0];
  }

  /** Hashing tells x and y apart. */
  predicate Apart(sm3: Sm3, x: Bytes, y: Bytes) {
    Digest(sm3, x) == Digest(sm3, y) ==> x == y
  }

  const SM2_KDF_MAX: nat := 32 * (TWO32 - 2)
  const KDF_SM3_MAX: nat := 32 * (TWO32 - 1)

  /** sm2_kdf: the counter is bumped with a checked add after every digest, so the last
      32-byte step the guard would admit always fails. */
  method Sm2Kdf(sm3: Sm3, z: Bytes, klen: nat) returns (r: Result<Bytes>)
    ensures r == if 1 <= klen <= SM2_KDF_MAX then Ok(Stream(Counter(sm3, z), klen)) else Err
  {
    hide BE, Counter, CounterBlock, Fit, Stream, Partial;
    if klen == 0 || klen > 32 * 0xFFFF_FFFF {
      return Err;
    }
    var k: Bytes := [];
    var ct := 1;
    ghost var f := Counter(sm3, z);
    PartialStart(f, klen);
    while |k| < klen
      invariant 1 <= ct < TWO32 && k == Partial(f, klen, ct - 1) && 32 * (ct - 2) < klen
    {
      var ha := CounterBlock(sm3, z, ct - 1);
      var remain := klen - |k|;
      var copyLen := if 32 <= remain then 32 else remain;
      assert k + ha[..copyLen] == Partial(f, klen, ct) by {
        CounterFits(sm3, z, ct - 1);
        NextBlock(f, klen, ct - 1, ha[..copyLen]);
      }
      k := k + ha[..copyLen];
      if ct == 0xFFFF_FFFF {
        return Err;
      }
      ct := ct + 1;
    }
    PartialEnd(f, klen, ct - 1);
    r := Ok(k);
  }

  /** kdf_sm3: the counter wraps and zero is refused before the next digest, so the full
      2^32 - 1 digests are available and the empty request succeeds. */
  method KdfSm3(sm3: Sm3, x: Bytes, y: Bytes, keyLen: nat) returns (r: Result<Bytes>)
    ensures r == if keyLen <= KDF_SM3_MAX then Ok(Stream(Counter(sm3, x + y), keyLen)) else Err
  {
    hide BE, Counter, CounterBlock, Fit, Stream, Partial;
    var key: Bytes := [];
    var ct := 1;
    ghost var f, digests := Counter(sm3, x + y), 0;
    PartialStart(f, keyLen);
    while |key| < keyLen
      invariant 0 <= digests < TWO32 && key == Partial(f, keyLen, digests)
      invariant ct == if digests == TWO32 - 1 then 0 else digests + 1
      invariant digests > 0 ==> 32 * (digests - 1) < keyLen
    {
      if ct == 0 {
        return Err;
      }
      var block := CounterBlock(sm3, x + y, ct - 1);
      CounterFits(sm3, x + y, ct - 1);
      var remain := keyLen - |key|;
      if remain >= 32 {
        assert block == block[..32];
        NextBlock(f, keyLen, digests, block);
        key := key + block;
      } else {
        NextBlock(f, keyLen, digests, block[..remain]);
        key := key + block[..remain];
      }
      ct := if ct == 0xFFFF_FFFF then 0 else ct + 1;
      digests := digests + 1;
    }
    PartialEnd(f, keyLen, digests);
    r := Ok(key);
  }

  /** sm9_kdf and kdf_key_exchange: whole digests are appended, the counter wraps at 2^32
      and the tail is truncated. */
  method Sm9Kdf(sm3: Sm3, z: Bytes, klen: nat) returns (k: Bytes)
    ensures k == Stream(Counter(sm3, z), klen)
  {
    k := [];
    var counter := 1;
    ghost var f, digests: nat, wraps: nat := Counter(sm3, z), 0, 0;
    while |k| < klen
      invariant 0 <= counter < 0x1_0000_0000
      invariant digests + 1 == counter + wraps * 0x1_0000_0000
      invariant |k| == 32 * digests
      invariant k == Concat(f, digests)
    {
      var block := Digest(sm3, z + BE(counter, 4));
      assert block == f(digests) by { BEWraps(digests + 1, counter, wraps); }
      k := k + block;
      if counter == 0xFFFF_FFFF {
        counter, wraps := 0, wraps + 1;
      } else {
        counter := counter + 1;
      }
      digests := digests + 1;
    }
    StreamCut(f, digests, klen);
    k := k[..klen];
  }

  // ---------------------------------------------------------------- HKDF

  /** T(i) of section 2.3 of RFC 5869. */
  function HkdfT(hmac: Hmac, prk: Bytes, info: Bytes, i: nat): (r: Bytes)
    ensures i > 0 ==> |r| == 32
  {
    if i == 0 then [] else Tag(hmac, prk, HkdfT(hmac, prk, info, i - 1) + info + [i % 256])
  }

  /** Section 2.2 of RFC 5869: an absent salt is HashLen zeros. */
  function HkdfExtract(hmac: Hmac, ikm: Bytes, salt: Bytes): (prk: Bytes) {
    Tag(hmac, if salt == [] then Zeros(32) else salt, ikm)
  }

  /** T(1), T(2), ... as numbered blocks. */
  function HkdfBlocks(hmac: Hmac, prk: Bytes, info: Bytes): (f: Blocks) {
    (i: nat) => HkdfT(hmac, prk, info, i + 1)
  }

  lemma HkdfBlockStep(hmac: Hmac, prk: Bytes, info: Bytes, n: nat, counter: byte)
    requires counter == n + 1
    ensures HkdfBlocks(hmac, prk, info)(n) == Tag(hmac, prk, HkdfT(hmac, prk, info, n) + info + [counter])
  {
  }

  const HKDF_MAX_OUTPUT: nat := 255 * 32

  /** HKDF of RFC 5869 with SM3. */
  function Hkdf(hmac: Hmac, ikm: Bytes, salt: Bytes, info: Bytes, len: nat): (r: Result<Bytes>) {
    if len <= HKDF_MAX_OUTPUT
    then Ok(Stream(HkdfBlocks(hmac, HkdfExtract(hmac, ikm, salt), info), len))
    else Err
  }

  /** Each whole block of the output is the HMAC, under HMAC(salt, ikm), of the block before it,
      the info and the block's number. */
  lemma HkdfChain(hmac: Hmac, ikm: Bytes, salt: Bytes, info: Bytes, len: nat, k: nat)
    requires len <= HKDF_MAX_OUTPUT && 32 * (k + 1) <= len
    ensures var okm := Hkdf(hmac, ikm, salt, info, len).value;
            var prk := Tag(hmac, if salt == [] then Zeros(32) else salt, ikm);
            && |okm| == len
            && okm[32 * k..32 * (k + 1)]
               == Tag(hmac, prk, (if k == 0 then [] else okm[32 * (k - 1)..32 * k]) + info + [k + 1])
  {
    hide Stream, Tag, HkdfT;
    var prk := HkdfExtract(hmac, ikm, salt);
    HkdfBlockOf(hmac, prk, info, len, k);
    HkdfNext(hmac, prk, info, k);
    if k > 0 { HkdfBlockOf(hmac, prk, info, len, k - 1); }
  }

  lemma HkdfBlockOf(hmac: Hmac, prk: Bytes, info: Bytes, len: nat, k: nat)
    requires 32 * (k + 1) <= len
    ensures Stream(HkdfBlocks(hmac, prk, info), len)[32 * k..32 * (k + 1)] == HkdfT(hmac, prk, info, k + 1)
  {
    hide Stream, HkdfT;
    BlockOf(HkdfBlocks(hmac, prk, info), len, k);
  }

  lemma HkdfNext(hmac: Hmac, prk: Bytes, info: Bytes, k: nat)
    requires k < 255
    ensures HkdfT(hmac, prk, info, 0) == []
    ensures HkdfT(hmac, prk, info, k + 1) == Tag(hmac, prk, HkdfT(hmac, prk, info, k) + info + [k + 1])
  {
    hide Tag;
  }

  /** A longer output extends a shorter one. */
  lemma HkdfPrefix(hmac: Hmac, ikm: Bytes, salt: Bytes, info: Bytes, m: nat, n: nat)
    requires m <= n <= HKDF_MAX_OUTPUT
    ensures Hkdf(hmac, ikm, salt, info, m).value <= Hkdf(hmac, ikm, salt, info, n).value
  {
    hide Stream;
    StreamPrefix(HkdfBlocks(hmac, HkdfExtract(hmac, ikm, salt), info), m, n);
  }

  /** A whole block of a stream. */
  lemma BlockOf(f: Blocks, len: nat, k: nat)
    requires 32 * (k + 1) <= len
    ensures Stream(f, len)[32 * k..32 * (k + 1)] == Fit(f(k), 32)
  {
    var n := 32 * (k + 1);
    StreamCut(f, k + 1, n);
    StreamPrefix(f, n, len);
    hide Stream;
    var c := Concat(f, k + 1);
    assert c[..n] == c && c[32 * k..n] == Fit(f(k), 32);
    assert Stream(f, len)[32 * k..n] == Stream(f, n)[32 * k..n];
  }

  /** hkdf_sm3 computes HKDF of RFC 5869 on exactly the lengths that RFC allows; the
      counter-overflow error of the loop is never taken. */
  method HkdfSm3(hmac: Hmac, ikm: Bytes, salt: Bytes, info: Bytes, len: nat) returns (r: Result<Bytes>)
    ensures r == Hkdf(hmac, ikm, salt, info, len)
  {
    if len > HKDF_MAX_OUTPUT {
      return Err;
    }
    var prk;
    if salt == [] {
      var zeroSalt := Zeros(32);
      prk := Tag(hmac, zeroSalt, ikm);
    } else {
      prk := Tag(hmac, salt, ikm);
    }
    var okm: Bytes := [];
    var tPrev: Bytes := [];
    var counter: byte := 1;
    ghost var f, n := HkdfBlocks(hmac, prk, info), 0;
    while |okm| < len
      invariant |okm| == 32 * n
      invariant okm == Concat(f, n)
      invariant tPrev == HkdfT(hmac, prk, info, n)
      invariant |okm| < len ==> counter == n + 1
    {
      var tI := Tag(hmac, prk, tPrev + info + [counter]);
      HkdfBlockStep(hmac, prk, info, n, counter);
      okm := okm + tI;
      tPrev := tI;
      n := n + 1;
      if |okm| < len {
        if counter == 255 {
          return Err;
        }
        counter := counter + 1;
      }
    }
    StreamCut(f, n, len);
    r := Ok(okm[..len]);
  }
}
