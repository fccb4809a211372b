/** The hand-written SM4-GCM of gm-crypto (gm-crypto/src/sm4.rs): a 128-bit counter stream where
    NIST SP 800-38D uses inc32, and GHASH over padded blocks. */
module Sm4Gcm {
  import opened Bytes
  import opened Sm4

  // ---------------------------------------------------------------- counters

  /** inc32 of section 6.2 of NIST SP 800-38D: only the last four bytes count, modulo 2^32. */
  function Inc32(block: Bytes): (r: Bytes)
    requires |block| == 16
    ensures |r| == 16
  {
    block[..12] + BE(FromBE(block[12..]) + 1, 4)
  }

  /** The counter blocks of GCTR, section 6.5: inc32 applied i times. */
  function GctrBlock(icb: Bytes, i: nat): (r: Bytes)
    requires |icb| == 16
    ensures |r| == 16
  {
    if i == 0 then icb else Inc32(GctrBlock(icb, i - 1))
  }

  /** The counter blocks of Ctr128BE: the whole block is one big-endian number. */
  function CtrBlock(icb: Bytes, i: nat): (r: Bytes)
    requires |icb| == 16
    ensures |r| == 16
  {
    BE(FromBE(icb) + i, 16)
  }

  /** inc32 in place, as the source writes it. */
  method Inc32InPlace(block: array<byte>)
    requires block.Length == 16
    modifies block
    ensures block[..] == Inc32(old(block[..]))
  {
    ghost var was := block[..];
    var counter := FromBE(block[12..16]);
    assert block[12..16] == was[12..];
    var bytes := BE(counter + 1, 4);
    block[12], block[13], block[14], block[15] := bytes[0], bytes[1], bytes[2], bytes[3];
    assert block[..] == was[..12] + bytes;
  }

  lemma AppendDigit(high: nat, p: nat, low: nat, x: nat)
    ensures 256 * (high * p + low) + x == high * (256 * p) + (256 * low + x)
  {
    assert 256 * (high * p) == high * (256 * p);
  }

  lemma {:induction false} FromBEAppend(a: Bytes, b: Bytes)
    ensures FromBE(a + b) == FromBE(a) * Pow256(|b|) + FromBE(b)
    decreases |b|
  {
    if b == [] {
      assert a + b == a;
    } else {
      var b', x := b[..|b| - 1], b[|b| - 1];
      assert (a + b)[..|a + b| - 1] == a + b';
      FromBEAppend(a, b');
      AppendDigit(FromBE(a), Pow256(|b'|), FromBE(b'), x);
    }
  }

  /** A number whose high part is the nonce and whose low part fits four bytes. */
  lemma CounterValue(nonce: Bytes, ct: nat)
    requires |nonce| == 12 && ct < 0x1_0000_0000
    ensures FromBE(nonce + BE(ct, 4)) == FromBE(nonce) * 0x1_0000_0000 + ct
  {
    Pow256Values();
    FromBEAppend(nonce, BE(ct, 4));
    FromBEofBE(ct, 4);
  }

  lemma Inc32Value(nonce: Bytes, ct: nat)
    requires |nonce| == 12 && ct < 0x1_0000_0000
    ensures Inc32(nonce + BE(ct, 4)) == nonce + BE(ct + 1, 4)
  {
    hide BE, FromBE, Pow256;
    var b := nonce + BE(ct, 4);
    assert b[..12] == nonce && b[12..] == BE(ct, 4);
    Pow256Values();
    FromBEofBE(ct, 4);
  }

  lemma {:induction false} GctrValue(nonce: Bytes, start: nat, i: nat)
    requires |nonce| == 12 && start + i < 0x1_0000_0000
    ensures GctrBlock(nonce + BE(start, 4), i) == nonce + BE(start + i, 4)
  {
    hide BE, FromBE, Inc32;
    if i > 0 {
      GctrValue(nonce, start, i - 1);
      Inc32Value(nonce, start + i - 1);
    }
  }

  lemma CtrValue(nonce: Bytes, start: nat, i: nat)
    requires |nonce| == 12 && start + i < 0x1_0000_0000
    ensures CtrBlock(nonce + BE(start, 4), i) == nonce + BE(start + i, 4)
  {
    var b := nonce + BE(start + i, 4);
    assert FromBE(nonce + BE(start, 4)) + i == FromBE(b) by {
      CounterValue(nonce, start);
      CounterValue(nonce, start + i);
    }
    assert BE(FromBE(b), 16) == b by { BEofFromBE(b); }
  }

  /** J0 and the initial counter block inc32(J0) for a 96-bit nonce. */
  function J0(nonce: Bytes): (r: Bytes)
    requires |nonce| == 12
    ensures |r| == 16
  {
    nonce + [0, 0, 0, 1]
  }

  lemma InitialCounter(nonce: Bytes)
    requires |nonce| == 12
    ensures J0(nonce) == nonce + BE(1, 4) && Inc32(J0(nonce)) == nonce + BE(2, 4)
  {
    assert BE(0, 3) == [0, 0, 0] by { assert BE(0, 1) == [0]; assert BE(0, 2) == [0, 0]; }
    assert BE(1, 4) == [0, 0, 0, 1];
    GctrValue(nonce, 1, 1);
    assert GctrBlock(nonce + BE(1, 4), 1) == Inc32(GctrBlock(nonce + BE(1, 4), 0));
  }

  /** One block past the limit: inc32 wraps inside the last word, the 128-bit counter carries
      into the nonce. */
  lemma CountersPart(nonce: Bytes)
    requires |nonce| == 12
    ensures CtrBlock(nonce + BE(2, 4), 0xFFFF_FFFE) != GctrBlock(nonce + BE(2, 4), 0xFFFF_FFFE)
  {
    hide BE, FromBE, GctrBlock, Inc32, Pow256;
    var v := FromBE(nonce) * 0x1_0000_0000;
    WrappedBlock(nonce);
    CounterValue(nonce, 2);
    CounterValue(nonce, 0);
    NonceBound(nonce);
    CarryDiffers(v, nonce + BE(0, 4));
  }

  /** After 2^32 - 2 steps inc32 is back at zero. */
  lemma WrappedBlock(nonce: Bytes)
    requires |nonce| == 12
    ensures GctrBlock(nonce + BE(2, 4), 0xFFFF_FFFE) == nonce + BE(0, 4)
  {
    hide BE, FromBE, Pow256;
    var icb, last := nonce + BE(2, 4), nonce + BE(0xFFFF_FFFF, 4);
    GctrValue(nonce, 2, 0xFFFF_FFFD);
    assert GctrBlock(icb, 0xFFFF_FFFE) == Inc32(last);
    assert last[..12] == nonce && last[12..] == BE(0xFFFF_FFFF, 4);
    assert FromBE(BE(0xFFFF_FFFF, 4)) == 0xFFFF_FFFF by { Pow256Values(); FromBEofBE(0xFFFF_FFFF, 4); }
    BEZero();
  }

  lemma NonceBound(nonce: Bytes)
    requires |nonce| == 12
    ensures FromBE(nonce) < 0x1_0000_0000_0000_0000_0000_0000
  {
    BEofFromBE(nonce);
    assert Pow256(12) == 0x1_0000_0000_0000_0000_0000_0000 by { assert Pow256(10) == 0x1_0000_0000_0000_0000_0000; }
  }

  lemma BEZero()
    ensures BE(0x1_0000_0000, 4) == BE(0, 4)
  {
    assert BE(0x100_0000, 3) == BE(0, 3) by {
      assert BE(0x100, 1) == BE(0, 1);
      assert BE(0x1_0000, 2) == BE(0, 2);
    }
  }

  /** v + 2^32 and v have different 16-byte encodings, also when the former overflows. */
  lemma CarryDiffers(v: nat, w: Bytes)
    requires |w| == 16 && FromBE(w) == v
    requires v <= 0xFFFF_FFFF_FFFF_FFFF_FFFF_FFFF_0000_0000
    ensures BE(v + 0x1_0000_0000, 16) != w
  {
    Pow256Values();
    if v + 0x1_0000_0000 < Pow256(16) {
      FromBEofBE(v + 0x1_0000_0000, 16);
    } else {
      assert v + 0x1_0000_0000 == Pow256(16);
      BEPow(16);
    }
  }

  lemma {:induction false} BEPow(k: nat)
    ensures BE(Pow256(k), k) == Zeros(k) && FromBE(Zeros(k)) == 0
  {
    if k > 0 {
      BEPow(k - 1);
      LowDigit(Pow256(k - 1));
      ZerosEnd(k);
      hide Zeros;
    }
  }

  lemma LowDigit(p: nat)
    ensures 256 * p / 256 == p && 256 * p % 256 == 0
  {
  }

  lemma ZerosEnd(k: nat)
    requires k > 0
    ensures Zeros(k)[..k - 1] == Zeros(k - 1) && Zeros(k)[k - 1] == 0 && Zeros(k) == Zeros(k - 1) + [0]
  {
  }

  /** The 128-bit counter stream is GCTR with inc32 for n blocks if and only if n is at most
      2^32 - 2, the limit of section 5.2.1.1 of NIST SP 800-38D (2^39 - 256 bits). */
  lemma CountersAgree(nonce: Bytes, n: nat)
    requires |nonce| == 12
    ensures var icb := Inc32(J0(nonce));
            (forall i :: 0 <= i < n ==> CtrBlock(icb, i) == GctrBlock(icb, i)) <==> n <= 0xFFFF_FFFE
  {
    InitialCounter(nonce);
    var icb := Inc32(J0(nonce));
    if n <= 0xFFFF_FFFE {
      forall i | 0 <= i < n ensures CtrBlock(icb, i) == GctrBlock(icb, i) {
        GctrValue(nonce, 2, i);
        CtrValue(nonce, 2, i);
      }
    } else {
      CountersPart(nonce);
    }
  }

  // ---------------------------------------------------------------- key streams

  /** E(counter block i / 16)[i mod 16], for the two counter rules. */
  function Ctr128Stream(c: Cipher, icb: Bytes, len: nat): (r: Bytes)
    requires |icb| == 16
    ensures |r| == len
  {
    seq(len, i requires 0 <= i => Enc(c, CtrBlock(icb, i / 16))[i % 16])
  }

  function GctrStream(c: Cipher, icb: Bytes, len: nat): (r: Bytes)
    requires |icb| == 16
    ensures |r| == len
  {
    seq(len, i requires 0 <= i => Enc(c, GctrBlock(icb, i / 16))[i % 16])
  }

  /** Every plaintext within the standard's limit is masked with exactly the standard's stream. */
  lemma StreamIsGctr(c: Cipher, nonce: Bytes, len: nat)
    requires |nonce| == 12 && len <= 16 * 0xFFFF_FFFE
    ensures Ctr128Stream(c, Inc32(J0(nonce)), len) == GctrStream(c, Inc32(J0(nonce)), len)
  {
    InitialCounter(nonce);
    var icb := Inc32(J0(nonce));
    forall i | 0 <= i < len ensures CtrBlock(icb, i / 16) == GctrBlock(icb, i / 16) {
      GctrValue(nonce, 2, i / 16);
      CtrValue(nonce, 2, i / 16);
    }
  }

  // ---------------------------------------------------------------- GHASH

  /** Multiplication by H in GF(2^128), from the library. */
  type Mul = (Bytes, Bytes) -> Bytes

  function GhashStep(mul: Mul, h: Bytes, y: Bytes, block: Bytes): (r: Bytes)
    requires |y| == 16 && |block| == 16
    ensures |r| == 16
  {
    Fit(mul(XorSeq(y, block), h), 16)
  }

  function Ghash(mul: Mul, h: Bytes, y: Bytes, blocks: seq<Bytes>): (r: Bytes)
    requires |y| == 16 && forall b :: b in blocks ==> |b| == 16
    ensures |r| == 16
    decreases |blocks|
  {
    if blocks == [] then y else Ghash(mul, h, GhashStep(mul, h, y, blocks[0]), blocks[1..])
  }

  lemma {:induction false} GhashAppend(mul: Mul, h: Bytes, y: Bytes, a: seq<Bytes>, b: seq<Bytes>)
    requires |y| == 16 && (forall x :: x in a ==> |x| == 16) && (forall x :: x in b ==> |x| == 16)
    ensures forall x :: x in a + b ==> |x| == 16
    ensures Ghash(mul, h, y, a + b) == Ghash(mul, h, Ghash(mul, h, y, a), b)
    decreases |a|
  {
    if a == [] {
      assert a + b == b;
    } else {
      GhashAppend(mul, h, GhashStep(mul, h, y, a[0]), a[1..], b);
      assert (a + b)[0] == a[0] && (a + b)[1..] == a[1..] + b;
    }
  }

  /** Whole 16-byte chunks, then the remainder padded with zeros. */
  function PadBlocks(data: Bytes): (r: seq<Bytes>)
    ensures forall b :: b in r ==> |b| == 16
    decreases |data|
  {
    if data == [] then []
    else if |data| < 16 then [data + Zeros(16 - |data|)]
    else [data[..16]] + PadBlocks(data[16..])
  }

  lemma PadBlocksCons(head: Bytes, tail: Bytes)
    requires |head| == 16
    ensures PadBlocks(head + tail) == [head] + PadBlocks(tail)
  {
    assert (head + tail)[..16] == head && (head + tail)[16..] == tail;
  }

  function LengthBlock(aadLen: nat, cLen: nat): (r: Bytes)
    ensures |r| == 16
  {
    BE(8 * aadLen, 8) + BE(8 * cLen, 8)
  }

  /** Everything GHASH sees of an additional-data string and a ciphertext. */
  function Frame(aad: Bytes, ct: Bytes): (r: seq<Bytes>)
    ensures forall b :: b in r ==> |b| == 16
  {
    PadBlocks(aad) + PadBlocks(ct) + [LengthBlock(|aad|, |ct|)]
  }

  /** The chunk loop of ghash_update. */
  method Chunk(data: Bytes) returns (blocks: seq<Bytes>)
    ensures blocks == PadBlocks(data)
  {
    hide PadBlocks;
    blocks := [];
    var i := 0;
    assert data[0..] == data && blocks + PadBlocks(data) == PadBlocks(data);
    while i + 16 <= |data|
      invariant i <= |data|
      invariant blocks + PadBlocks(data[i..]) == PadBlocks(data)
    {
      NextChunk(data, i, blocks);
      blocks := blocks + [data[i..i + 16]];
      i := i + 16;
    }
    var rem := data[i..];
    LastChunk(rem, blocks);
    if rem != [] {
      blocks := blocks + [rem + Zeros(16 - |rem|)];
    }
  }

  lemma NextChunk(data: Bytes, i: nat, blocks: seq<Bytes>)
    requires i + 16 <= |data|
    ensures blocks + PadBlocks(data[i..]) == (blocks + [data[i..i + 16]]) + PadBlocks(data[i + 16..])
  {
    hide PadBlocks;
    assert data[i..] == data[i..i + 16] + data[i + 16..];
    PadBlocksCons(data[i..i + 16], data[i + 16..]);
  }

  lemma LastChunk(rem: Bytes, blocks: seq<Bytes>)
    requires |rem| < 16
    ensures blocks + PadBlocks(rem) == if rem == [] then blocks else blocks + [rem + Zeros(16 - |rem|)]
  {
  }

  class GHash {
    const mul: Mul
    const h: Bytes
    var y: Bytes

    constructor (mul: Mul, h: Bytes)
      ensures this.mul == mul && this.h == h && y == Zeros(16)
    {
      this.mul, this.h, y := mul, h, Zeros(16);
    }

    method Update(blocks: seq<Bytes>)
      requires |y| == 16 && forall b :: b in blocks ==> |b| == 16
      modifies this
      ensures |y| == 16 && y == Ghash(mul, h, old(y), blocks)
    {
      for i := 0 to |blocks|
        invariant |y| == 16
        invariant Ghash(mul, h, y, blocks[i..]) == Ghash(mul, h, old(y), blocks)
      {
        assert blocks[i..][1..] == blocks[i + 1..];
        y := GhashStep(mul, h, y, blocks[i]);
      }
    }

    /** ghash_update. */
    method UpdatePadded(data: Bytes)
      requires |y| == 16
      modifies this
      ensures |y| == 16 && y == Ghash(mul, h, old(y), PadBlocks(data))
    {
      if data == [] {
        return;
      }
      var blocks := Chunk(data);
      if blocks != [] {
        Update(blocks);
      }
    }

    /** ghash_lengths. */
    method UpdateLengths(aadLen: nat, cLen: nat)
      requires |y| == 16
      modifies this
      ensures |y| == 16 && y == Ghash(mul, h, old(y), [LengthBlock(aadLen, cLen)])
    {
      Update([LengthBlock(aadLen, cLen)]);
    }
  }

  // ---------------------------------------------------------------- the framing is injective

  function BlockCount(len: nat): (n: nat) { (len + 15) / 16 }

  lemma {:induction false} PadBlocksCount(data: Bytes)
    ensures |PadBlocks(data)| == BlockCount(|data|)
    decreases |data|
  {
    if |data| >= 16 { PadBlocksCount(data[16..]); }
  }

  lemma {:induction false} PadBlocksInjective(a: Bytes, b: Bytes)
    requires |a| == |b| && PadBlocks(a) == PadBlocks(b)
    ensures a == b
    decreases |a|
  {
    if 0 < |a| < 16 {
      SplitEqual(a, Zeros(16 - |a|), b, Zeros(16 - |b|)) by {
        assert PadBlocks(a)[0] == PadBlocks(b)[0];
      }
    } else if |a| >= 16 {
      assert PadBlocks(a)[0] == PadBlocks(b)[0];
      assert PadBlocks(a)[1..] == PadBlocks(a[16..]) && PadBlocks(b)[1..] == PadBlocks(b[16..]);
      PadBlocksInjective(a[16..], b[16..]);
      assert a == a[..16] + a[16..] && b == b[..16] + b[16..];
    }
  }

  const LENGTH_LIMIT: nat := 0x2000_0000_0000_0000

  lemma LengthBlockInjective(a: nat, c: nat, a': nat, c': nat)
    requires a < LENGTH_LIMIT && c < LENGTH_LIMIT && a' < LENGTH_LIMIT && c' < LENGTH_LIMIT
    requires LengthBlock(a, c) == LengthBlock(a', c')
    ensures a == a' && c == c'
  {
    Pow256Values();
    SplitEqual(BE(8 * a, 8), BE(8 * c, 8), BE(8 * a', 8), BE(8 * c', 8));
    BEInjective(8 * a, 8 * a', 8);
    BEInjective(8 * c, 8 * c', 8);
  }

  /** Below 2^61 bytes each, what GHASH sees determines additional data and ciphertext. */
  lemma FrameInjective(a: Bytes, c: Bytes, a': Bytes, c': Bytes)
    requires |a| < LENGTH_LIMIT && |c| < LENGTH_LIMIT && |a'| < LENGTH_LIMIT && |c'| < LENGTH_LIMIT
    requires Frame(a, c) == Frame(a', c')
    ensures a == a' && c == c'
  {
    hide PadBlocks, LengthBlock, BE;
    var f, f' := Frame(a, c), Frame(a', c');
    assert f[|f| - 1] == LengthBlock(|a|, |c|) && f'[|f'| - 1] == LengthBlock(|a'|, |c'|);
    LengthBlockInjective(|a|, |c|, |a'|, |c'|);
    PadBlocksCount(a);
    PadBlocksCount(a');
    var n := BlockCount(|a|);
    assert PadBlocks(a) == f[..n] && PadBlocks(a') == f'[..n];
    assert PadBlocks(c) == f[n..|f| - 1] && PadBlocks(c') == f'[n..|f'| - 1];
    PadBlocksInjective(a, a');
    PadBlocksInjective(c, c');
  }

  /** The bound is tight: at 2^61 bytes the 64-bit bit count wraps to zero, and moving all bytes
      from the additional data to the ciphertext is invisible. */
  lemma FrameCollidesAtLimit(z: Bytes)
    requires |z| == LENGTH_LIMIT
    ensures Frame(z, []) == Frame([], z)
  {
    WrappedLength();
    assert PadBlocks([]) == [];
    hide PadBlocks, LengthBlock;
    var blocks := PadBlocks(z);
    assert blocks + [] == [] + blocks;
  }

  lemma WrappedLength()
    ensures LengthBlock(LENGTH_LIMIT, 0) == LengthBlock(0, LENGTH_LIMIT)
  {
    Pow256Values();
    assert 8 * LENGTH_LIMIT == Pow256(8);
    BEPow(8);
    ZeroBE(8);
  }

  lemma {:induction false} ZeroBE(k: nat)
    ensures BE(0, k) == Zeros(k)
  {
    if k > 0 {
      ZeroBE(k - 1);
      assert Zeros(k) == Zeros(k - 1) + [0];
    }
  }

  // ---------------------------------------------------------------- encryption and decryption

  function TagOf(c: Cipher, mul: Mul, nonce: Bytes, aad: Bytes, ct: Bytes): (t: Bytes)
    requires |nonce| == 12
    ensures |t| == 16
  {
    XorSeq(Enc(c, J0(nonce)), Ghash(mul, Enc(c, Zeros(16)), Zeros(16), Frame(aad, ct)))
  }

  function EncryptGcm(c: Cipher, mul: Mul, data: Bytes, nonce: Bytes, aad: Bytes): (r: Result<(Bytes, Bytes)>) {
    if |nonce| != 12 then Err else
    var ct := XorSeq(data, Ctr128Stream(c, Inc32(J0(nonce)), |data|));
    Ok((ct, TagOf(c, mul, nonce, aad, ct)))
  }

  function DecryptGcm(c: Cipher, mul: Mul, ct: Bytes, nonce: Bytes, aad: Bytes, tag: Bytes): (r: Result<Bytes>) {
    if |nonce| != 12 || |tag| != 16 then Err
    else if TagOf(c, mul, nonce, aad, ct) != tag then Err
    else Ok(XorSeq(ct, Ctr128Stream(c, Inc32(J0(nonce)), |ct|)))
  }

  /** Both sides of the tag computation: three GHASH updates, then the byte-wise mask. */
  method ComputeTag(c: Cipher, mul: Mul, nonce: Bytes, aad: Bytes, ct: Bytes) returns (tag: Bytes)
    requires |nonce| == 12
    ensures tag == TagOf(c, mul, nonce, aad, ct)
  {
    var h := Enc(c, Zeros(16));
    var ghash := new GHash(mul, h);
    ghash.UpdatePadded(aad);
    ghash.UpdatePadded(ct);
    ghash.UpdateLengths(|aad|, |ct|);
    var s := ghash.y;
    GhashAppend(mul, h, Zeros(16), PadBlocks(aad), PadBlocks(ct));
    GhashAppend(mul, h, Zeros(16), PadBlocks(aad) + PadBlocks(ct), [LengthBlock(|aad|, |ct|)]);
    var t := Enc(c, J0(nonce));
    tag := XorBlock(t, s);
  }

  /** J0 written into a zeroed block, then incremented in place. */
  method StartCounter(nonce: Bytes) returns (iv: Bytes)
    requires |nonce| == 12
    ensures iv == Inc32(J0(nonce))
  {
    hide Inc32;
    var block := new byte[16](i => 0);
    for i := 0 to 12
      invariant block[..i] == nonce[..i] && forall k :: i <= k < 16 ==> block[k] == 0
    {
      block[i] := nonce[i];
    }
    block[15] := 1;
    assert block[..] == J0(nonce);
    Inc32InPlace(block);
    iv := block[..];
  }

  method EncryptGcmImpl(c: Cipher, mul: Mul, data: Bytes, nonce: Bytes, aad: Bytes) returns (r: Result<(Bytes, Bytes)>)
    ensures r == EncryptGcm(c, mul, data, nonce, aad)
  {
    if |nonce| != 12 { return Err; }
    var ctrIv := StartCounter(nonce);
    var ct := XorSeq(data, Ctr128Stream(c, ctrIv, |data|));
    var tag := ComputeTag(c, mul, nonce, aad, ct);
    r := Ok((ct, tag));
  }

  method DecryptGcmImpl(c: Cipher, mul: Mul, ct: Bytes, nonce: Bytes, aad: Bytes, tag: Bytes) returns (r: Result<Bytes>)
    ensures r == DecryptGcm(c, mul, ct, nonce, aad, tag)
  {
    if |nonce| != 12 { return Err; }
    if |tag| != 16 { return Err; }
    var expected := ComputeTag(c, mul, nonce, aad, ct);
    if expected != tag { return Err; }
    var ctrIv := StartCounter(nonce);
    r := Ok(XorSeq(ct, Ctr128Stream(c, ctrIv, |ct|)));
  }

  /** decrypt_gcm answers p exactly for the ciphertext and tag encrypt_gcm makes of p. */
  lemma GcmIff(c: Cipher, mul: Mul, p: Bytes, ct: Bytes, nonce: Bytes, aad: Bytes, tag: Bytes)
    ensures DecryptGcm(c, mul, ct, nonce, aad, tag) == Ok(p)
       <==> EncryptGcm(c, mul, p, nonce, aad) == Ok((ct, tag))
  {
    if |nonce| == 12 {
      XorSeqTwice(ct, Ctr128Stream(c, Inc32(J0(nonce)), |ct|));
      XorSeqTwice(p, Ctr128Stream(c, Inc32(J0(nonce)), |p|));
    }
  }

  // ---------------------------------------------------------------- against the standard

  /** GHASH of section 6.4 of NIST SP 800-38D, on a string of whole blocks. */
  function StandardGhash(mul: Mul, h: Bytes, s: Bytes): (y: Bytes)
    requires |s| % 16 == 0
    ensures |y| == 16
    decreases |s|
  {
    if s == [] then Zeros(16)
    else
      var n := |s| - 16;
      Fit(mul(XorSeq(StandardGhash(mul, h, s[..n]), s[n..]), h), 16)
  }

  function Fill(n: nat): (k: nat)
    ensures (n + k) % 16 == 0 && k < 16
  {
    (16 - n % 16) % 16
  }

  /** Zeros up to the end of the last block. */
  function Filled(data: Bytes): (r: Bytes)
    ensures |r| % 16 == 0 && |r| == |data| + Fill(|data|)
  {
    data + Zeros(Fill(|data|))
  }

  /** A || 0* || C || 0* || len(A) || len(C) of section 7.1. */
  function StandardInput(aad: Bytes, ct: Bytes): (s: Bytes)
    ensures |s| % 16 == 0
  {
    WholeBlocks(|Filled(aad)|, |Filled(ct)|);
    Filled(aad) + Filled(ct) + (BE(8 * |aad|, 8) + BE(8 * |ct|, 8))
  }

  lemma WholeBlocks(a: nat, b: nat)
    requires a % 16 == 0 && b % 16 == 0
    ensures (a + b + 16) % 16 == 0
  {
  }

  lemma {:induction false} PadBlocksFlat(data: Bytes)
    ensures Flatten(PadBlocks(data)) == Filled(data)
    decreases |data|
  {
    if data == [] {
    } else if |data| < 16 {
      var b := data + Zeros(16 - |data|);
      assert Flatten([b]) == b + Flatten([]);
    } else {
      var head, tail := data[..16], data[16..];
      PadBlocksFlat(tail);
      assert data == head + tail;
      PadBlocksCons(head, tail);
      hide PadBlocks, Filled;
      FlattenFirst(head, PadBlocks(tail));
      FilledCons(head, tail);
    }
  }

  lemma FlattenFirst(head: Bytes, more: seq<Bytes>)
    ensures Flatten([head] + more) == head + Flatten(more)
  {
    assert ([head] + more)[1..] == more;
  }

  lemma FilledCons(head: Bytes, tail: Bytes)
    requires |head| == 16
    ensures Filled(head + tail) == head + Filled(tail)
  {
    assert Fill(|head + tail|) == Fill(|tail|);
    assert head + tail + Zeros(Fill(|tail|)) == head + (tail + Zeros(Fill(|tail|)));
  }

  lemma {:induction false} FlattenConcat(a: seq<Bytes>, b: seq<Bytes>)
    ensures Flatten(a + b) == Flatten(a) + Flatten(b)
    decreases |a|
  {
    if a == [] {
      assert a + b == b;
    } else {
      FlattenConcat(a[1..], b);
      assert (a + b)[1..] == a[1..] + b;
    }
  }

  lemma FrameIsStandard(aad: Bytes, ct: Bytes)
    ensures Flatten(Frame(aad, ct)) == StandardInput(aad, ct)
  {
    hide PadBlocks, BE, Filled, Flatten;
    var last := LengthBlock(|aad|, |ct|);
    FlattenConcat(PadBlocks(aad), PadBlocks(ct));
    FlattenAppend(PadBlocks(aad) + PadBlocks(ct), last);
    PadBlocksFlat(aad);
    PadBlocksFlat(ct);
  }

  lemma {:induction false} FlattenWhole(blocks: seq<Bytes>)
    requires forall b :: b in blocks ==> |b| == 16
    ensures |Flatten(blocks)| == 16 * |blocks|
    decreases |blocks|
  {
    if blocks != [] { FlattenWhole(blocks[1..]); }
  }

  /** Folding from the first block on is the standard's recursion from the last. */
  lemma {:induction false} GhashIsStandard(mul: Mul, h: Bytes, blocks: seq<Bytes>)
    requires forall b :: b in blocks ==> |b| == 16
    ensures |Flatten(blocks)| % 16 == 0
    ensures Ghash(mul, h, Zeros(16), blocks) == StandardGhash(mul, h, Flatten(blocks))
    decreases |blocks|
  {
    FlattenWhole(blocks);
    if blocks != [] {
      var init, last := blocks[..|blocks| - 1], blocks[|blocks| - 1];
      FlattenWhole(init);
      GhashIsStandard(mul, h, init);
      assert blocks == init + [last];
      FlattenAppend(init, last);
      GhashAppend(mul, h, Zeros(16), init, [last]);
      var y := Ghash(mul, h, Zeros(16), init);
      assert Ghash(mul, h, y, [last]) == GhashStep(mul, h, y, last) by { GhashOne(mul, h, y, last); }
      var s := Flatten(blocks);
      assert s[..|s| - 16] == Flatten(init) && s[|s| - 16..] == last;
    }
  }

  lemma GhashOne(mul: Mul, h: Bytes, y: Bytes, b: Bytes)
    requires |y| == 16 && |b| == 16
    ensures Ghash(mul, h, y, [b]) == GhashStep(mul, h, y, b)
  {
    hide GhashStep;
    assert [b][1..] == [];
  }

  /** The tag is the standard's: GHASH of the padded strings under E(0), masked with E(J0). */
  lemma TagIsStandard(c: Cipher, mul: Mul, nonce: Bytes, aad: Bytes, ct: Bytes)
    requires |nonce| == 12
    ensures TagOf(c, mul, nonce, aad, ct)
            == XorSeq(Enc(c, nonce + [0, 0, 0, 1]), StandardGhash(mul, Enc(c, Zeros(16)), StandardInput(aad, ct)))
  {
    hide XorSeq, Enc, Frame, StandardInput, StandardGhash, Ghash;
    GhashIsStandard(mul, Enc(c, Zeros(16)), Frame(aad, ct));
    FrameIsStandard(aad, ct);
  }

  /** Sealing within the standard's limit: byte i is masked with the encryption of the nonce and
      the counter 2 + i div 16, and the tag is the standard's for that ciphertext. */
  lemma SealedAs(c: Cipher, mul: Mul, data: Bytes, nonce: Bytes, aad: Bytes)
    requires |data| <= 16 * 0xFFFF_FFFE
    ensures var r := EncryptGcm(c, mul, data, nonce, aad);
            && (r.Ok? <==> |nonce| == 12)
            && (r.Ok? ==>
                  && var (ct, tag) := r.value;
                  && |ct| == |data|
                  && (forall i :: 0 <= i < |ct| ==> ct[i] == Xor(data[i], Enc(c, nonce + BE(2 + i / 16, 4))[i % 16]))
                  && tag == XorSeq(Enc(c, nonce + [0, 0, 0, 1]),
                                   StandardGhash(mul, Enc(c, Zeros(16)), StandardInput(aad, ct))))
  {
    if |nonce| == 12 {
      InitialCounter(nonce);
      hide Xor, BE, Enc, CtrBlock, TagOf, StandardGhash, StandardInput, Inc32, J0;
      var (ct, tag) := EncryptGcm(c, mul, data, nonce, aad).value;
      TagIsStandard(c, mul, nonce, aad, ct);
      forall i | 0 <= i < |ct| ensures ct[i] == Xor(data[i], Enc(c, nonce + BE(2 + i / 16, 4))[i % 16]) {
        CtrValue(nonce, 2, i / 16);
      }
    }
  }

  lemma InputCovers(a: Bytes, c: Bytes, a': Bytes, c': Bytes)
    requires |a| < LENGTH_LIMIT && |c| < LENGTH_LIMIT && |a'| < LENGTH_LIMIT && |c'| < LENGTH_LIMIT
    ensures StandardInput(a, c) == StandardInput(a', c') <==> a == a' && c == c'
  {
    hide BE, Filled;
    if StandardInput(a, c) == StandardInput(a', c') {
      SplitEqual(Filled(a) + Filled(c), LengthBlock(|a|, |c|), Filled(a') + Filled(c'), LengthBlock(|a'|, |c'|));
      LengthBlockInjective(|a|, |c|, |a'|, |c'|);
      SplitEqual(Filled(a), Filled(c), Filled(a'), Filled(c'));
      FilledBegins(a);
      FilledBegins(a');
      FilledBegins(c);
      FilledBegins(c');
    }
  }

  lemma FilledBegins(data: Bytes)
    ensures Filled(data)[..|data|] == data
  {
  }

  /** Up to a collision of GHASH on the two inputs, two tags under one key and nonce are equal if and
      only if additional data and ciphertext are. */
  lemma TagCovers(c: Cipher, mul: Mul, nonce: Bytes, a: Bytes, ct: Bytes, a': Bytes, ct': Bytes)
    requires |nonce| == 12
    requires |a| < LENGTH_LIMIT && |ct| < LENGTH_LIMIT && |a'| < LENGTH_LIMIT && |ct'| < LENGTH_LIMIT
    requires var h, s, s' := Enc(c, Zeros(16)), StandardInput(a, ct), StandardInput(a', ct');
             StandardGhash(mul, h, s) == StandardGhash(mul, h, s') ==> s == s'
    ensures TagOf(c, mul, nonce, a, ct) == TagOf(c, mul, nonce, a', ct') <==> a == a' && ct == ct'
  {
    hide Xor, Enc, TagOf, StandardGhash, StandardInput;
    TagIsStandard(c, mul, nonce, a, ct);
    TagIsStandard(c, mul, nonce, a', ct');
    InputCovers(a, ct, a', ct');
    var h := Enc(c, Zeros(16));
    XorSeqCancels(Enc(c, nonce + [0, 0, 0, 1]), StandardGhash(mul, h, StandardInput(a, ct)),
                  StandardGhash(mul, h, StandardInput(a', ct')));
  }
}
