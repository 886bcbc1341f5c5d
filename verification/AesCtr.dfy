/** The counter mode of the WinZip encryption (external/minizip-ng-4.2.1/mz_strm_wzaes.c,
    mz_stream_wzaes_ctr_encrypt). The block cipher is a parameter. */
module AesCtr {
  import opened BaseStreams
  import opened Powers

  /** `MZ_AES_BLOCK_SIZE`. */
  const BLOCK: nat := 16

  /** A block cipher: key and block to block. */
  type Aes = (seq<Byte>, seq<Byte>) -> seq<Byte>

  ghost predicate IsAes(aes: Aes) {
    forall key, block :: |aes(key, block)| == BLOCK
  }

  // ----- the nonce

  /** The `k` low bytes of `n`, least significant first. */
  function LittleEndian(n: nat, k: nat): (r: seq<Byte>)
    ensures |r| == k
    decreases k, n
  {
    if k == 0 then [] else [(n % 256) as Byte] + LittleEndian(n / 256, k - 1)
  }

  function ValueOf(bytes: seq<Byte>): nat {
    if bytes == [] then 0 else bytes[0] as int + 256 * ValueOf(bytes[1..])
  }

  /** Eight counter bytes, then eight zeros. */
  function Nonce(n: nat): seq<Byte> {
    LittleEndian(n, 8) + seq(8, _ => 0)
  }

  /** The counter bytes repeat after 2 to the 64 blocks, */
  lemma {:induction false} CounterWraps(n: nat, k: nat)
    ensures LittleEndian(n + Pow2(8 * k), k) == LittleEndian(n, k)
    decreases k
  {
    if k == 0 {
    } else {
      PowByte(k - 1);
      var m := Pow2(8 * (k - 1));
      assert (n + 256 * m) % 256 == n % 256 && (n + 256 * m) / 256 == n / 256 + m;
      CounterWraps(n / 256, k - 1);
    }
  }

  /** and until then they hold the counter itself. */
  lemma {:induction false} CounterExact(n: nat, k: nat)
    requires n < Pow2(8 * k)
    ensures ValueOf(LittleEndian(n, k)) == n
    decreases k
  {
    if k == 0 {
    } else {
      PowByte(k - 1);
      CounterExact(n / 256, k - 1);
      assert LittleEndian(n, k)[1..] == LittleEndian(n / 256, k - 1);
    }
  }

  lemma PowByte(k: nat)
    ensures Pow2(8 * (k + 1)) == 256 * Pow2(8 * k)
  {
    var m := 8 * k;
    assert Pow2(m + 8) == 2 * Pow2(m + 7) == 4 * Pow2(m + 6) == 8 * Pow2(m + 5) == 16 * Pow2(m + 4);
    assert Pow2(m + 4) == 2 * Pow2(m + 3) == 4 * Pow2(m + 2) == 8 * Pow2(m + 1) == 16 * Pow2(m);
  }

  /** Add one, with carry, and wrap around at the end. */
  function Increment(bytes: seq<Byte>): (r: seq<Byte>)
    ensures |r| == |bytes|
  {
    if bytes == [] then []
    else if bytes[0] == 255 then [0] + Increment(bytes[1..])
    else [bytes[0] + 1] + bytes[1..]
  }

  lemma {:induction false} IncrementCounter(n: nat, k: nat)
    ensures Increment(LittleEndian(n, k)) == LittleEndian(n + 1, k)
    decreases k
  {
    if k == 0 {
    } else {
      IncrementCounter(n / 256, k - 1);
      assert LittleEndian(n, k)[1..] == LittleEndian(n / 256, k - 1);
      if n % 256 == 255 {
        assert (n + 1) / 256 == n / 256 + 1 && (n + 1) % 256 == 0;
      } else {
        assert (n + 1) / 256 == n / 256 && (n + 1) % 256 == n % 256 + 1;
      }
    }
  }

  /** `r` is `bytes` after a carry through the first `j` of them, all 255, into the one behind. */
  ghost predicate Carried(bytes: seq<Byte>, j: nat, r: seq<Byte>) {
    && j <= |bytes| == |r|
    && (forall m :: 0 <= m < j ==> bytes[m] == 255 && r[m] == 0)
    && (j < |bytes| ==> bytes[j] != 255 && r[j] == bytes[j] + 1)
    && (forall m :: j < m < |bytes| ==> r[m] == bytes[m])
  }

  lemma {:induction false} IncrementCarries(bytes: seq<Byte>, j: nat, r: seq<Byte>)
    requires Carried(bytes, j, r)
    ensures r == Increment(bytes)
    decreases j
  {
    if j > 0 {
      IncrementCarries(bytes[1..], j - 1, r[1..]);
      assert r == [r[0]] + r[1..];
    } else if bytes != [] {
      assert r == [r[0]] + bytes[1..];
    }
  }

  /** `while (j < 8 && !++nonce[j]) j += 1`. */
  method IncrementNonce(nonce: array<Byte>)
    requires nonce.Length == BLOCK
    modifies nonce
    ensures nonce[..8] == Increment(old(nonce[..8])) && nonce[8..] == old(nonce[8..])
  {
    var j := 0;
    while j < 8
      invariant 0 <= j <= 8
      invariant forall m :: 0 <= m < j ==> old(nonce[m]) == 255 && nonce[m] == 0
      invariant forall m :: j <= m < BLOCK ==> nonce[m] == old(nonce[m])
    {
      nonce[j] := if nonce[j] == 255 then 0 else nonce[j] + 1;
      if nonce[j] != 0 {
        break;
      }
      j := j + 1;
    }
    IncrementCarries(old(nonce[..8]), j, nonce[..8]);
  }

  // ----- the key stream

  /** Byte `i` of the key stream: the cipher applied to block counter `i / 16 + 1`. */
  function Keystream(aes: Aes, key: seq<Byte>, i: nat): Byte
    requires IsAes(aes)
  {
    aes(key, Nonce(i / BLOCK + 1))[i % BLOCK]
  }

  lemma OneBytes(n: nat, k: nat)
    requires n == 1 && k > 0
    ensures LittleEndian(n, k)[0] == 1 && forall m :: 0 < m < k ==> LittleEndian(n, k)[m] == 0
  {
    ZeroBytes(k - 1);
  }

  lemma FirstNonce(n: nat, block: seq<Byte>)
    requires n == 1 && |block| == 16 && block[0] == 1 && forall m :: 0 < m < 16 ==> block[m] == 0
    ensures Nonce(n) == block
  {
    OneBytes(n, 8);
  }

  /** The key stream starts with the cipher applied to the number one, least significant byte first. */
  lemma FirstKeystream(aes: Aes, key: seq<Byte>, block: seq<Byte>, i: nat)
    requires IsAes(aes) && i < 16
    requires |block| == 16 && block[0] == 1 && forall m :: 0 < m < 16 ==> block[m] == 0
    ensures Keystream(aes, key, i) == aes(key, block)[i]
  {
    FirstNonce(i / BLOCK + 1, block);
  }

  /** `ks` lists the key stream of `key`. */
  ghost predicate IsKeystream(ks: nat -> Byte, aes: Aes, key: seq<Byte>)
    requires IsAes(aes)
  {
    forall i: nat {:trigger Keystream(aes, key, i)} :: ks(i) == Keystream(aes, key, i)
  }

  /** `data` mixed with the key stream from byte `from` on. */
  function Mask(ks: nat -> Byte, from: nat, data: seq<Byte>): (r: seq<Byte>)
    ensures |r| == |data|
  {
    if data == [] then []
    else
      var k := |data| - 1;
      Mask(ks, from, data[..k]) + [Xor(data[k], ks(from + k))]
  }

  lemma MaskLast(ks: nat -> Byte, from: nat, data: seq<Byte>, b: Byte)
    ensures Mask(ks, from, data + [b]) == Mask(ks, from, data) + [Xor(b, ks(from + |data|))]
  {
    assert (data + [b])[..|data|] == data;
  }

  lemma {:induction false} MaskIs(ks: nat -> Byte, from: nat, data: seq<Byte>, out: seq<Byte>)
    requires |out| == |data| && forall m :: 0 <= m < |data| ==> out[m] == Xor(data[m], ks(from + m))
    ensures out == Mask(ks, from, data)
  {
    if data == [] {
    } else {
      var k := |data| - 1;
      MaskIs(ks, from, data[..k], out[..k]);
      assert out == out[..k] + [out[k]];
    }
  }

  lemma {:induction false} MaskAppend(ks: nat -> Byte, from: nat, a: seq<Byte>, b: seq<Byte>)
    ensures Mask(ks, from, a + b) == Mask(ks, from, a) + Mask(ks, from + |a|, b)
  {
    if b == [] {
      assert a + b == a;
    } else {
      var k := |b| - 1;
      var init, last := b[..k], b[k];
      assert b == init + [last] && a + b == (a + init) + [last];
      MaskAppend(ks, from, a, init);
      MaskLast(ks, from, a + init, last);
      MaskLast(ks, from + |a|, init, last);
    }
  }

  /** Encryption and decryption are the same operation. */
  lemma {:induction false} MaskTwice(ks: nat -> Byte, from: nat, data: seq<Byte>)
    ensures Mask(ks, from, Mask(ks, from, data)) == data
  {
    if data == [] {
    } else {
      var k := |data| - 1;
      var init, last := data[..k], data[k];
      var masked, x := Mask(ks, from, init), Xor(last, ks(from + k));
      assert data == init + [last];
      MaskLast(ks, from, init, last);
      MaskLast(ks, from, masked, x);
      MaskTwice(ks, from, init);
      XorTwice(last, ks(from + k));
    }
  }

  lemma NextNonce(blocks: nat, before: seq<Byte>, after: seq<Byte>)
    requires before == Nonce(blocks) && |after| == BLOCK
    requires after[..8] == Increment(before[..8]) && after[8..] == before[8..]
    ensures after == Nonce(blocks + 1)
  {
    IncrementCounter(blocks, 8);
    assert before[..8] == LittleEndian(blocks, 8);
    assert after == after[..8] + after[8..];
  }

  /** The part of the stream that holds the counter mode's state. */
  class CtrState {
    const aes: Aes
    const key: seq<Byte>
    const nonce: array<Byte>
    const cryptBlock: array<Byte>
    var cryptPos: nat
    /** How many blocks have been started. */
    ghost var blocks: nat

    ghost predicate Valid()
      reads this, nonce, cryptBlock
    {
      && nonce.Length == cryptBlock.Length == BLOCK && nonce != cryptBlock
      && cryptPos <= BLOCK && (blocks == 0 ==> cryptPos == BLOCK)
      && nonce[..] == Nonce(blocks)
      && (blocks > 0 ==> cryptBlock[..] == aes(key, Nonce(blocks)))
    }

    /** How many bytes have been mixed so far. */
    ghost function Done(): nat
      requires Valid()
      reads this, nonce, cryptBlock
    {
      blocks * BLOCK + cryptPos - BLOCK
    }

    constructor (aes: Aes, key: seq<Byte>)
      ensures Valid() && this.aes == aes && this.key == key && Done() == 0 && fresh(nonce) && fresh(cryptBlock)
    {
      this.aes, this.key, blocks := aes, key, 0;
      nonce := new Byte[BLOCK](_ => 0);
      cryptBlock := new Byte[BLOCK](_ => 0);
      cryptPos := BLOCK;
      new;
      ZeroNonce();
      assert nonce[..] == Nonce(0);
    }

    /** Count the nonce up and encrypt it to the next block of the key stream. */
    method NextBlock()
      requires Valid() && IsAes(aes) && cryptPos == BLOCK
      modifies this, nonce, cryptBlock
      ensures Valid() && blocks == old(blocks) + 1 && cryptPos == 0
    {
      IncrementNonce(nonce);
      assert nonce[..][..8] == nonce[..8] && nonce[..][8..] == nonce[8..];
      NextNonce(blocks, old(nonce[..]), nonce[..]);
      CopyInto(cryptBlock, 0, aes(key, nonce[..]));
      cryptPos := 0;
      blocks := blocks + 1;
    }

    /** The next byte of the key stream. */
    method NextByte(ghost ks: nat -> Byte) returns (k: Byte)
      requires Valid() && IsAes(aes) && IsKeystream(ks, aes, key)
      modifies this, nonce, cryptBlock
      ensures Valid() && Done() == old(Done()) + 1 && k == ks(old(Done()))
    {
      ghost var i := Done();
      if cryptPos == BLOCK {
        NextBlock();
      }
      assert i / BLOCK == blocks - 1 && i % BLOCK == cryptPos;
      k := cryptBlock[cryptPos];
      assert k == cryptBlock[..][cryptPos] == Keystream(aes, key, i);
      cryptPos := cryptPos + 1;
    }

    /** Mix the first `size` bytes of `buf` with the key stream, in place. */
    method Encrypt(buf: array<Byte>, size: nat, ghost ks: nat -> Byte)
      requires Valid() && IsAes(aes) && IsKeystream(ks, aes, key)
      requires size <= buf.Length && buf != nonce && buf != cryptBlock
      modifies this, nonce, cryptBlock, buf
      ensures Valid() && Done() == old(Done()) + size
      ensures buf[..size] == Mask(ks, old(Done()), old(buf[..size])) && buf[size..] == old(buf[size..])
    {
      ghost var from := Done();
      var i := 0;
      while i < size
        invariant 0 <= i <= size && Valid() && Done() == from + i
        invariant forall m :: 0 <= m < i ==> buf[m] == Xor(old(buf[m]), ks(from + m))
        invariant forall m :: i <= m < buf.Length ==> buf[m] == old(buf[m])
      {
        var k := NextByte(ks);
        buf[i] := Xor(buf[i], k);
        i := i + 1;
      }
      MaskIs(ks, from, old(buf[..size]), buf[..size]);
    }
  }

  lemma ZeroNonce()
    ensures Nonce(0) == seq(BLOCK, _ => 0)
  {
    ZeroBytes(8);
  }

  lemma {:induction false} ZeroBytes(k: nat)
    ensures forall i :: 0 <= i < k ==> LittleEndian(0, k)[i] == 0
  {
    if k == 0 {
    } else {
      ZeroBytes(k - 1);
    }
  }
}
