/** SM4 as a block permutation, and the chaining modes gm-crypto writes by hand
    (gm-crypto/src/sm4.rs). */
module Sm4 {
  import opened Bytes

  /** The library block cipher under one key. */
  datatype Cipher = Cipher(enc: Bytes -> Bytes, dec: Bytes -> Bytes)

  function Enc(c: Cipher, block: Bytes): (r: Bytes)
    ensures |r| == 16
  {
    Fit(c.enc(block), 16)
  }

  function Dec(c: Cipher, block: Bytes): (r: Bytes)
    ensures |r| == 16
  {
    Fit(c.dec(block), 16)
  }

  /** Encryption and decryption of 16-byte blocks undo each other. */
  ghost predicate Permutation(c: Cipher) {
    forall b {:trigger IsBlock(b)} :: IsBlock(b) ==> Dec(c, Enc(c, b)) == b && Enc(c, Dec(c, b)) == b
  }

  predicate IsBlock(b: Bytes) { |b| == 16 }

  // ---------------------------------------------------------------- raw CBC

  function CbcEnc(c: Cipher, data: Bytes, prev: Bytes): (r: Bytes)
    requires |data| % 16 == 0 && |prev| == 16
    ensures |r| == |data|
    decreases |data|
  {
    if data == [] then [] else
    var b := Enc(c, XorSeq(data[..16], prev));
    b + CbcEnc(c, data[16..], b)
  }

  function CbcDec(c: Cipher, data: Bytes, prev: Bytes): (r: Bytes)
    requires |data| % 16 == 0 && |prev| == 16
    ensures |r| == |data|
    decreases |data|
  {
    if data == [] then [] else
    XorSeq(Dec(c, data[..16]), prev) + CbcDec(c, data[16..], data[..16])
  }

  lemma CbcEncCons(c: Cipher, head: Bytes, tail: Bytes, prev: Bytes)
    requires |head| == 16 && |tail| % 16 == 0 && |prev| == 16
    ensures CbcEnc(c, head + tail, prev)
         == var b := Enc(c, XorSeq(head, prev)); b + CbcEnc(c, tail, b)
  {
    assert (head + tail)[..16] == head && (head + tail)[16..] == tail;
  }

  lemma CbcDecCons(c: Cipher, head: Bytes, tail: Bytes, prev: Bytes)
    requires |head| == 16 && |tail| % 16 == 0 && |prev| == 16
    ensures CbcDec(c, head + tail, prev) == XorSeq(Dec(c, head), prev) + CbcDec(c, tail, head)
  {
    assert (head + tail)[..16] == head && (head + tail)[16..] == tail;
  }

  lemma DecOfEnc(c: Cipher, block: Bytes)
    requires Permutation(c) && |block| == 16
    ensures Dec(c, Enc(c, block)) == block && Enc(c, Dec(c, block)) == block
  {
    assert IsBlock(block);
  }

  /** Raw decryption undoes raw encryption. */
  lemma {:induction false} CbcDecOfEnc(c: Cipher, data: Bytes, prev: Bytes)
    requires Permutation(c) && |data| % 16 == 0 && |prev| == 16
    ensures CbcDec(c, CbcEnc(c, data, prev), prev) == data
    decreases |data|
  {
    if data != [] {
      var head, tail := data[..16], data[16..];
      var x := XorSeq(head, prev);
      var b := Enc(c, x);
      calc {
        CbcDec(c, CbcEnc(c, data, prev), prev);
        { assert data == head + tail; CbcEncCons(c, head, tail, prev); }
        CbcDec(c, b + CbcEnc(c, tail, b), prev);
        { CbcDecCons(c, b, CbcEnc(c, tail, b), prev); }
        XorSeq(Dec(c, b), prev) + CbcDec(c, CbcEnc(c, tail, b), b);
        { DecOfEnc(c, x); XorSeqTwice(head, prev); CbcDecOfEnc(c, tail, b); }
        head + tail;
      }
    }
  }

  /** Raw encryption undoes raw decryption. */
  lemma {:induction false} CbcEncOfDec(c: Cipher, data: Bytes, prev: Bytes)
    requires Permutation(c) && |data| % 16 == 0 && |prev| == 16
    ensures CbcEnc(c, CbcDec(c, data, prev), prev) == data
    decreases |data|
  {
    if data != [] {
      var head, tail := data[..16], data[16..];
      var d := Dec(c, head);
      var x := XorSeq(d, prev);
      calc {
        CbcEnc(c, CbcDec(c, data, prev), prev);
        { assert data == head + tail; CbcDecCons(c, head, tail, prev); }
        CbcEnc(c, x + CbcDec(c, tail, head), prev);
        { CbcEncCons(c, x, CbcDec(c, tail, head), prev); XorSeqTwice(d, prev); DecOfEnc(c, head); }
        head + CbcEnc(c, CbcDec(c, tail, head), head);
        { CbcEncOfDec(c, tail, head); }
        head + tail;
      }
    }
  }

  /** Block k of a string of whole blocks. */
  function BlockAt(data: Bytes, k: nat): (b: Bytes)
    requires 16 * (k + 1) <= |data|
    ensures |b| == 16
  {
    data[16 * k..16 * (k + 1)]
  }

  lemma BlockAfter(head: Bytes, tail: Bytes, k: nat)
    requires |head| == 16 && 16 * (k + 1) <= |tail|
    ensures BlockAt(head + tail, k + 1) == BlockAt(tail, k)
  {
  }

  lemma FirstBlock(head: Bytes, tail: Bytes)
    requires |head| == 16
    ensures BlockAt(head + tail, 0) == head
  {
  }

  /** A chained block keeps its place behind one more block. */
  lemma ChainBehind(c: Cipher, head: Bytes, tail: Bytes, b: Bytes, rest: Bytes, k: nat)
    requires |head| == 16 && |b| == 16 && |tail| == |rest| && 16 * (k + 1) <= |tail|
    requires BlockAt(rest, k) == Enc(c, XorSeq(BlockAt(tail, k), if k == 0 then b else BlockAt(rest, k - 1)))
    ensures BlockAt(b + rest, k + 1) == Enc(c, XorSeq(BlockAt(head + tail, k + 1), BlockAt(b + rest, k)))
  {
    hide Enc, XorSeq, BlockAt;
    BlockAfter(head, tail, k);
    BlockAfter(b, rest, k);
    if k == 0 { FirstBlock(b, rest); } else { BlockAfter(b, rest, k - 1); }
  }

  /** Every ciphertext block is the encryption of its plaintext block masked with the ciphertext
      block before it, the first one with the initialisation vector. */
  lemma {:induction false} CbcChain(c: Cipher, data: Bytes, iv: Bytes, k: nat)
    requires |data| % 16 == 0 && |iv| == 16 && 16 * (k + 1) <= |data|
    ensures var ct := CbcEnc(c, data, iv);
            BlockAt(ct, k) == Enc(c, XorSeq(BlockAt(data, k), if k == 0 then iv else BlockAt(ct, k - 1)))
    decreases k
  {
    hide Enc, XorSeq, CbcEnc, BlockAt;
    var head, tail := data[..16], data[16..];
    assert data == head + tail;
    CbcEncCons(c, head, tail, iv);
    var b := Enc(c, XorSeq(head, iv));
    if k == 0 {
      FirstBlock(head, tail);
      FirstBlock(b, CbcEnc(c, tail, b));
    } else {
      CbcChain(c, tail, b, k - 1);
      ChainBehind(c, head, tail, b, CbcEnc(c, tail, b), k - 1);
    }
  }

  // ---------------------------------------------------------------- the four CBC calls

  predicate RawShape(data: Bytes, iv: Bytes) { |iv| == 16 && data != [] && |data| % 16 == 0 }

  function EncryptCbcRaw(c: Cipher, data: Bytes, iv: Bytes): (r: Result<Bytes>) {
    if RawShape(data, iv) then Ok(CbcEnc(c, data, iv)) else Err
  }

  function DecryptCbcRaw(c: Cipher, data: Bytes, iv: Bytes): (r: Result<Bytes>) {
    if RawShape(data, iv) then Ok(CbcDec(c, data, iv)) else Err
  }

  function Rep(b: byte, n: nat): (r: Bytes)
    ensures |r| == n && forall i :: 0 <= i < n ==> r[i] == b
  {
    seq(n, _ => b)
  }

  /** PKCS#7, always at least one byte. */
  function Pad(data: Bytes): (r: Bytes)
    ensures |r| % 16 == 0 && |r| > |data|
  {
    var n := 16 - |data| % 16;
    assert |data| == 16 * (|data| / 16) + |data| % 16;
    data + Rep(n, n)
  }

  /** Padding removal; the empty buffer is passed through. */
  function Unpad(data: Bytes): (r: Result<Bytes>)
    requires |data| % 16 == 0
  {
    if data == [] then Ok([]) else
    var n := data[|data| - 1];
    if 0 < n <= 16 && (forall i :: |data| - n <= i < |data| ==> data[i] == n)
    then Ok(data[..|data| - n]) else Err
  }

  function EncryptCbc(c: Cipher, data: Bytes, iv: Bytes): (r: Result<Bytes>) {
    if |iv| == 16 then Ok(CbcEnc(c, Pad(data), iv)) else Err
  }

  function DecryptCbc(c: Cipher, data: Bytes, iv: Bytes): (r: Result<Bytes>) {
    if |iv| == 16 && |data| % 16 == 0 then Unpad(CbcDec(c, data, iv)) else Err
  }

  method XorBlock(block: Bytes, prev: Bytes) returns (r: Bytes)
    requires |block| <= |prev|
    ensures r == XorSeq(block, prev)
  {
    r := [];
    for i := 0 to |block|
      invariant r == XorSeq(block, prev)[..i]
    {
      r := r + [Xor(block[i], prev[i])];
    }
  }

  lemma NextEncrypted(c: Cipher, data: Bytes, i: nat, prev: Bytes, result: Bytes)
    requires |data| % 16 == 0 && i % 16 == 0 && i < |data| && |prev| == 16
    ensures var b := Enc(c, XorSeq(data[i..i + 16], prev));
            result + CbcEnc(c, data[i..], prev) == (result + b) + CbcEnc(c, data[i + 16..], b)
  {
    hide CbcEnc, Enc, XorSeq;
    assert data[i..] == data[i..i + 16] + data[i + 16..];
    CbcEncCons(c, data[i..i + 16], data[i + 16..], prev);
  }

  lemma NextDecrypted(c: Cipher, data: Bytes, i: nat, prev: Bytes, result: Bytes)
    requires |data| % 16 == 0 && i % 16 == 0 && i < |data| && |prev| == 16
    ensures result + CbcDec(c, data[i..], prev)
            == (result + XorSeq(Dec(c, data[i..i + 16]), prev)) + CbcDec(c, data[i + 16..], data[i..i + 16])
  {
    hide CbcDec, Dec, XorSeq;
    assert data[i..] == data[i..i + 16] + data[i + 16..];
    CbcDecCons(c, data[i..i + 16], data[i + 16..], prev);
  }

  /** The chunk loop shared by encrypt_cbc_raw and encrypt_cbc. */
  method EncryptChunks(c: Cipher, data: Bytes, iv: Bytes) returns (result: Bytes)
    requires |data| % 16 == 0 && |iv| == 16
    ensures result == CbcEnc(c, data, iv)
  {
    hide CbcEnc, Enc, XorSeq;
    result := [];
    var prevBlock := iv;
    var i := 0;
    assert data[0..] == data && [] + CbcEnc(c, data, iv) == CbcEnc(c, data, iv);
    while i < |data|
      invariant i % 16 == 0 && i <= |data| && |prevBlock| == 16
      invariant result + CbcEnc(c, data[i..], prevBlock) == CbcEnc(c, data, iv)
    {
      var blockData := XorBlock(data[i..i + 16], prevBlock);
      var block := Enc(c, blockData);
      NextEncrypted(c, data, i, prevBlock, result);
      result := result + block;
      prevBlock := block;
      i := i + 16;
    }
  }

  /** The chunk loop shared by decrypt_cbc_raw and decrypt_cbc. */
  method DecryptChunks(c: Cipher, data: Bytes, iv: Bytes) returns (result: Bytes)
    requires |data| % 16 == 0 && |iv| == 16
    ensures result == CbcDec(c, data, iv)
  {
    hide CbcDec, Dec, XorSeq;
    result := [];
    var prevBlock := iv;
    var i := 0;
    assert data[0..] == data && [] + CbcDec(c, data, iv) == CbcDec(c, data, iv);
    while i < |data|
      invariant i % 16 == 0 && i <= |data| && |prevBlock| == 16
      invariant result + CbcDec(c, data[i..], prevBlock) == CbcDec(c, data, iv)
    {
      var chunk := data[i..i + 16];
      var block := Dec(c, chunk);
      var plain := XorBlock(block, prevBlock);
      NextDecrypted(c, data, i, prevBlock, result);
      result := result + plain;
      prevBlock := chunk;
      i := i + 16;
    }
  }

  method EncryptCbcRawImpl(c: Cipher, data: Bytes, iv: Bytes) returns (r: Result<Bytes>)
    ensures r == EncryptCbcRaw(c, data, iv)
  {
    if |iv| != 16 { return Err; }
    if data == [] || |data| % 16 != 0 { return Err; }
    var result := EncryptChunks(c, data, iv);
    r := Ok(result);
  }

  method DecryptCbcRawImpl(c: Cipher, data: Bytes, iv: Bytes) returns (r: Result<Bytes>)
    ensures r == DecryptCbcRaw(c, data, iv)
  {
    if |iv| != 16 { return Err; }
    if data == [] || |data| % 16 != 0 { return Err; }
    var result := DecryptChunks(c, data, iv);
    r := Ok(result);
  }

  method EncryptCbcImpl(c: Cipher, data: Bytes, iv: Bytes) returns (r: Result<Bytes>)
    ensures r == EncryptCbc(c, data, iv)
  {
    if |iv| != 16 { return Err; }
    var paddingLen := 16 - |data| % 16;
    var padded := data + Rep(paddingLen, paddingLen);
    assert padded == Pad(data);
    var result := EncryptChunks(c, padded, iv);
    r := Ok(result);
  }

  /** The padding scan visits every padding byte and never leaves the buffer. */
  method DecryptCbcImpl(c: Cipher, data: Bytes, iv: Bytes) returns (r: Result<Bytes>)
    ensures r == DecryptCbc(c, data, iv)
  {
    if |iv| != 16 { return Err; }
    if |data| % 16 != 0 { return Err; }
    var result := DecryptChunks(c, data, iv);
    if result != [] {
      var paddingByte := result[|result| - 1];
      if 0 < paddingByte <= 16 {
        var expectedLen := |result| - paddingByte;
        var valid := true;
        for i := expectedLen to |result|
          invariant valid == forall k :: expectedLen <= k < i ==> result[k] == paddingByte
        {
          valid := valid && result[i] == paddingByte;
        }
        if valid {
          result := result[..expectedLen];
        } else {
          return Err;
        }
      } else {
        return Err;
      }
    }
    r := Ok(result);
  }

  /** On a non-empty buffer, removing padding succeeds with m exactly when padding m gives it. */
  lemma UnpadIffPad(data: Bytes, m: Bytes)
    requires |data| % 16 == 0 && data != []
    ensures Unpad(data) == Ok(m) <==> Pad(m) == data
  {
    var n := data[|data| - 1];
    if Pad(m) == data {
      assert n == 16 - |m| % 16 && |data| == |m| + n;
      assert data[..|data| - n] == m;
    }
    if Unpad(data) == Ok(m) {
      assert data == m + data[|data| - n..];
      assert data[|data| - n..] == Rep(n, n);
      PadLength(|data|, |m|, n);
    }
  }

  lemma PadLength(d: nat, m: nat, n: nat)
    requires d % 16 == 0 && 0 < n <= 16 && m + n == d
    ensures n == 16 - m % 16
  {
  }

  /** encrypt_cbc is encrypt_cbc_raw on the message and n bytes of value n, where n fills up the
      last block and is a whole block where that is full. */
  lemma PaddedAs(c: Cipher, m: Bytes, iv: Bytes, n: byte)
    requires 1 <= n <= 16 && (|m| + n) % 16 == 0
    ensures EncryptCbc(c, m, iv) == EncryptCbcRaw(c, m + seq(n, _ => n), iv)
  {
    hide CbcEnc;
    PadLength(|m| + n, |m|, n);
    assert Pad(m) == m + seq(n, _ => n);
  }

  /** decrypt_cbc answers m exactly for the ciphertext encrypt_cbc makes of m. */
  lemma CbcIff(c: Cipher, data: Bytes, iv: Bytes, m: Bytes)
    requires Permutation(c) && |iv| == 16 && |data| % 16 == 0 && data != []
    ensures DecryptCbc(c, data, iv) == Ok(m) <==> EncryptCbc(c, m, iv) == Ok(data)
  {
    var plain := CbcDec(c, data, iv);
    UnpadIffPad(plain, m);
    CbcEncOfDec(c, data, iv);
    if EncryptCbc(c, m, iv) == Ok(data) {
      CbcDecOfEnc(c, Pad(m), iv);
    }
  }

  /** Non-emptiness is exactly what the equivalence needs: the empty buffer decrypts, but no
      plaintext encrypts to it. */
  lemma CbcIffExactly(c: Cipher, data: Bytes, iv: Bytes)
    requires Permutation(c) && |iv| == 16 && |data| % 16 == 0
    ensures (forall m: Bytes :: DecryptCbc(c, data, iv) == Ok(m) <==> EncryptCbc(c, m, iv) == Ok(data))
       <==> data != []
  {
    if data != [] {
      forall m: Bytes ensures DecryptCbc(c, data, iv) == Ok(m) <==> EncryptCbc(c, m, iv) == Ok(data) {
        CbcIff(c, data, iv, m);
      }
    } else {
      assert DecryptCbc(c, data, iv) == Ok([]) && EncryptCbc(c, [], iv) != Ok(data);
    }
  }

  /** The raw pair are inverses of each other and fail on the same inputs. */
  lemma RawCbcIff(c: Cipher, x: Bytes, y: Bytes, iv: Bytes)
    requires Permutation(c)
    ensures EncryptCbcRaw(c, x, iv) == Ok(y) <==> DecryptCbcRaw(c, y, iv) == Ok(x)
  {
    if EncryptCbcRaw(c, x, iv) == Ok(y) { CbcDecOfEnc(c, x, iv); }
    if DecryptCbcRaw(c, y, iv) == Ok(x) { CbcEncOfDec(c, y, iv); }
  }
}
