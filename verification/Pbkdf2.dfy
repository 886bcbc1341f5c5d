/** Password-based key derivation (external/minizip-ng-4.2.1/mz_crypt.c, mz_crypt_pbkdf2) against section
    5.2 of RFC 8018. The pseudo-random function HMAC-SHA1 is a parameter. */
module Pbkdf2 {
  import opened BaseStreams

  /** `MZ_HASH_SHA1_SIZE`. */
  const HASH: nat := 20

  /** HMAC with a key over a message. */
  type Prf = (seq<Byte>, seq<Byte>) -> seq<Byte>

  ghost predicate IsPrf(prf: Prf) {
    forall key, text :: |prf(key, text)| == HASH
  }

  /** An HMAC in progress: updates concatenate. */
  datatype Context = Context(key: seq<Byte>, text: seq<Byte>) {
    function Update(data: seq<Byte>): Context {
      this.(text := text + data)
    }
  }

  /** INT(i): four bytes, most significant first. */
  function BlockNumber(i: nat): seq<Byte> {
    [((i / 0x100_0000) % 256) as Byte, ((i / 0x1_0000) % 256) as Byte, ((i / 0x100) % 256) as Byte, (i % 256) as Byte]
  }

  /** For every number that fits in four bytes. */
  lemma BlockNumberIs(i: nat)
    requires i < 0x1_0000_0000
    ensures var b := BlockNumber(i);
            |b| == 4 && ((b[0] as int * 256 + b[1] as int) * 256 + b[2] as int) * 256 + b[3] as int == i
  {
    assert i / 0x100 / 0x100 == i / 0x1_0000 && i / 0x1_0000 / 0x100 == i / 0x100_0000;
  }

  function XorSeq(a: seq<Byte>, b: seq<Byte>): (r: seq<Byte>)
    requires |a| == |b|
    ensures |r| == |a|
  {
    seq(|a|, i requires 0 <= i < |a| => Xor(a[i], b[i]))
  }

  /** U_j, counting from 1, of the block whose number is encoded as `number`. */
  function U(prf: Prf, password: seq<Byte>, salt: seq<Byte>, number: seq<Byte>, j: nat): seq<Byte>
    requires j > 0
  {
    if j == 1 then prf(password, salt + number) else prf(password, U(prf, password, salt, number, j - 1))
  }

  /** U_1 xor ... xor U_c, and all zeros when there is nothing to add up. */
  function F(prf: Prf, password: seq<Byte>, salt: seq<Byte>, c: nat, number: seq<Byte>): (r: seq<Byte>)
    requires IsPrf(prf)
    ensures |r| == HASH
  {
    if c == 0 then seq(HASH, _ => 0)
    else if c == 1 then U(prf, password, salt, number, 1)
    else XorSeq(F(prf, password, salt, c - 1, number), U(prf, password, salt, number, c))
  }

  lemma FStep(prf: Prf, password: seq<Byte>, salt: seq<Byte>, c: nat, number: seq<Byte>)
    requires IsPrf(prf)
    ensures |U(prf, password, salt, number, c + 1)| == HASH
    ensures F(prf, password, salt, c + 1, number) ==
            XorSeq(F(prf, password, salt, c, number), U(prf, password, salt, number, c + 1))
  {
    if c == 0 {
      var z, u := F(prf, password, salt, 0, number), U(prf, password, salt, number, 1);
      forall k | 0 <= k < HASH ensures XorSeq(z, u)[k] == u[k] {
        XorZero(u[k]);
      }
      assert XorSeq(z, u) == u;
    }
  }

  /** Byte `n` of T_1 || T_2 || ... */
  function KeyByte(prf: Prf, password: seq<Byte>, salt: seq<Byte>, c: nat, n: nat): Byte
    requires IsPrf(prf)
  {
    F(prf, password, salt, c, BlockNumber(n / HASH + 1))[n % HASH]
  }

  /** With one iteration, the first bytes are those of one HMAC, over the salt and the number one. */
  lemma FirstBlock(prf: Prf, password: seq<Byte>, salt: seq<Byte>, n: nat)
    requires IsPrf(prf) && n < 20
    ensures KeyByte(prf, password, salt, 1, n) == prf(password, salt + [0, 0, 0, 1])[n]
  {
    assert BlockNumber(1) == [0, 0, 0, 1];
  }

  /** With two, its HMAC is added to them. */
  lemma SecondIteration(prf: Prf, password: seq<Byte>, salt: seq<Byte>, n: nat)
    requires IsPrf(prf) && n < 20
    ensures var u := prf(password, salt + [0, 0, 0, 1]);
            KeyByte(prf, password, salt, 2, n) == Xor(u[n], prf(password, u)[n])
  {
    var one, u := BlockNumber(1), prf(password, salt + [0, 0, 0, 1]);
    assert one == [0, 0, 0, 1];
    assert U(prf, password, salt, one, 1) == u && U(prf, password, salt, one, 2) == prf(password, u);
    assert F(prf, password, salt, 2, one) == XorSeq(u, prf(password, u));
  }

  /** And with one iteration, block after block. */
  lemma BlockAfterBlock(prf: Prf, password: seq<Byte>, salt: seq<Byte>, i: nat, n: nat)
    requires IsPrf(prf) && n < 20
    ensures KeyByte(prf, password, salt, 1, i * 20 + n) == prf(password, salt + BlockNumber(i + 1))[n]
  {
    assert (i * 20 + n) / 20 == i && (i * 20 + n) % 20 == n;
  }

  /** `ux[k] ^= uu[k]` for every k. */
  method XorInto(ux: array<Byte>, uu: array<Byte>) returns (k: nat)
    requires ux.Length == uu.Length == HASH && ux != uu
    modifies ux
    ensures ux[..] == XorSeq(old(ux[..]), uu[..]) && k == HASH
  {
    k := 0;
    while k < HASH
      invariant 0 <= k <= HASH
      invariant forall m :: 0 <= m < k ==> ux[m] == Xor(old(ux[m]), uu[m])
      invariant forall m :: k <= m < HASH ==> ux[m] == old(ux[m])
    {
      ux[k] := Xor(ux[k], uu[k]);
      k := k + 1;
    }
  }

  /** One turn of the inner loop: close the HMAC over the first `k` bytes of `uu`, and add the digest up. */
  method Turn(prf: Prf, hmac: Context, uu: array<Byte>, k: nat, ux: array<Byte>) returns (k': nat)
    requires IsPrf(prf) && ux.Length == uu.Length == HASH && ux != uu && k <= HASH
    modifies uu, ux
    ensures uu[..] == prf(hmac.key, hmac.text + old(uu[..k])) && k' == HASH
    ensures ux[..] == XorSeq(old(ux[..]), uu[..])
  {
    var hmac3 := hmac.Update(uu[..k]);
    CopyInto(uu, 0, prf(hmac3.key, hmac3.text));
    k' := XorInto(ux, uu);
  }

  /** The inner loop: one block. `uu` arrives holding the block number. */
  method OneBlock(prf: Prf, password: seq<Byte>, salt: seq<Byte>, iterations: nat, ghost number: seq<Byte>,
                  uu: array<Byte>, ux: array<Byte>)
    requires IsPrf(prf) && ux.Length == uu.Length == HASH && ux != uu
    requires uu[..4] == number
    requires forall m :: 0 <= m < HASH ==> ux[m] == 0
    modifies uu, ux
    ensures ux[..] == F(prf, password, salt, iterations, number)
  {
    var hmac1, hmac3 := Context(password, []), Context(password, salt);
    var j, k := 0, 4;
    while j < iterations
      invariant 0 <= j <= iterations
      invariant ux[..] == F(prf, password, salt, j, number)
      invariant j == 0 ==> k == 4 && hmac3 == Context(password, salt) && uu[..4] == number
      invariant j > 0 ==> k == HASH && hmac3 == hmac1 && uu[..] == U(prf, password, salt, number, j)
    {
      assert j > 0 ==> [] + uu[..k] == uu[..];
      k := Turn(prf, hmac3, uu, k, ux);
      FStep(prf, password, salt, j, number);
      hmac3 := hmac1;
      j := j + 1;
    }
  }

  /** `int` division, which truncates toward zero. */
  function TruncDiv(a: int, b: int): int
    requires b > 0
  {
    if a >= 0 then a / b else -((-a) / b)
  }

  /** The conversion to `uint16_t`. */
  function ToUint16(x: int): nat {
    x % 0x1_0000
  }

  /** What the first `n` bytes of the key must be. */
  ghost predicate Derived(prf: Prf, password: seq<Byte>, salt: seq<Byte>, c: nat, key: seq<Byte>, n: nat)
    requires IsPrf(prf)
  {
    forall m :: 0 <= m < n && m < |key| ==> key[m] == KeyByte(prf, password, salt, c, m)
  }

  /** The copy at the end of a block, as far as the key goes. */
  method CopyBlock(prf: Prf, password: seq<Byte>, salt: seq<Byte>, c: nat, ux: array<Byte>, key: array<Byte>, i: nat)
    requires IsPrf(prf) && ux.Length == HASH && ux != key && key.Length < 0x1_0000 && i * HASH < 0x1_0000
    requires ux[..] == F(prf, password, salt, c, BlockNumber(i + 1))
    requires Derived(prf, password, salt, c, key[..], i * HASH)
    modifies key
    ensures Derived(prf, password, salt, c, key[..], (i + 1) * HASH)
  {
    var j := 0;
    var k := ToUint16(i * HASH);
    while j < HASH && k < key.Length
      invariant 0 <= j <= HASH && k == i * HASH + j
      invariant Derived(prf, password, salt, c, key[..], k)
    {
      assert k / HASH == i && k % HASH == j;
      assert ux[j] == ux[..][j];
      key[k] := ux[j];
      k, j := k + 1, j + 1;
    }
  }

  /** The derived key is the first `keyLength` bytes of T_1 || T_2 || ... */
  method DeriveKey(prf: Prf, password: seq<Byte>, salt: seq<Byte>, iterations: nat, keyLength: nat)
    returns (key: array<Byte>)
    requires IsPrf(prf) && keyLength < 0x1_0000
    ensures fresh(key) && key.Length == keyLength
    ensures forall m :: 0 <= m < keyLength ==> key[m] == KeyByte(prf, password, salt, iterations, m)
  {
    key := new Byte[keyLength](_ => 0);
    var uu, ux := new Byte[HASH], new Byte[HASH];
    var blockCount := ToUint16(1 + TruncDiv(keyLength - 1, HASH));
    var i := 0;
    while i < blockCount
      invariant 0 <= i <= blockCount
      invariant fresh(key) && fresh(uu) && fresh(ux) && uu != ux && key != ux && key != uu
      invariant Derived(prf, password, salt, iterations, key[..], i * HASH)
    {
      forall m | 0 <= m < HASH {
        ux[m] := 0;
      }
      var number := BlockNumber(i + 1);
      CopyInto(uu, 0, number);
      OneBlock(prf, password, salt, iterations, number, uu, ux);
      CopyBlock(prf, password, salt, iterations, ux, key, i);
      i := i + 1;
    }
  }
}
