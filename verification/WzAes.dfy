/** WinZip AES encryption (external/minizip-ng-4.2.1/mz_strm_wzaes.c). AES and HMAC-SHA1 are parameters. */
module WzAes {
  import opened BaseStreams
  import opened Pbkdf2
  import opened AesCtr

  const KEYING_ITERATIONS: nat := 1000
  const PASSWORD_MAX: nat := 128
  const VERIFY: nat := 2
  /** `MZ_AES_FOOTER_SIZE`, the bytes kept of the authentication code. */
  const FOOTER: nat := 10
  /** `sizeof(buffer)`. */
  const BUFFER: nat := 65535

  function KeyLength(strength: nat): nat {
    8 * (strength % 4) + 8
  }

  function SaltLength(strength: nat): nat {
    4 * (strength % 4) + 4
  }

  /** The part of the password that counts: its length is held in 16 bits. */
  function Used(password: seq<Byte>): seq<Byte> {
    password[..ToUint16(|password|)]
  }

  predicate Acceptable(password: seq<Byte>, strength: nat) {
    ToUint16(|password|) <= PASSWORD_MAX && 1 <= strength <= 3
  }

  /** The first `n` bytes derived from the password. */
  function DerivedBytes(prf: Prf, password: seq<Byte>, salt: seq<Byte>, n: nat): (r: seq<Byte>)
    requires IsPrf(prf)
    ensures |r| == n
  {
    if n == 0 then []
    else DerivedBytes(prf, password, salt, n - 1) + [KeyByte(prf, password, salt, KEYING_ITERATIONS, n - 1)]
  }

  lemma {:induction false} DerivedBytesAre(prf: Prf, password: seq<Byte>, salt: seq<Byte>, kbuf: seq<Byte>)
    requires IsPrf(prf) && Derived(prf, password, salt, KEYING_ITERATIONS, kbuf, |kbuf|)
    ensures kbuf == DerivedBytes(prf, password, salt, |kbuf|)
  {
    if kbuf == [] {
    } else {
      var n := |kbuf| - 1;
      DerivedBytesAre(prf, password, salt, kbuf[..n]);
      assert kbuf == kbuf[..n] + [kbuf[n]];
    }
  }

  /** Both keys and the password verifier. */
  function KeyMaterial(prf: Prf, password: seq<Byte>, salt: seq<Byte>, strength: nat): (r: seq<Byte>)
    requires IsPrf(prf)
    ensures |r| == 2 * KeyLength(strength) + VERIFY
  {
    DerivedBytes(prf, password, salt, 2 * KeyLength(strength) + VERIFY)
  }

  method DeriveMaterial(prf: Prf, password: seq<Byte>, salt: seq<Byte>, strength: nat) returns (kbuf: seq<Byte>)
    requires IsPrf(prf)
    ensures kbuf == KeyMaterial(prf, password, salt, strength)
  {
    var key := DeriveKey(prf, password, salt, KEYING_ITERATIONS, 2 * KeyLength(strength) + VERIFY);
    kbuf := key[..];
    DerivedBytesAre(prf, password, salt, kbuf);
  }

  function CipherKey(prf: Prf, password: seq<Byte>, salt: seq<Byte>, strength: nat): seq<Byte>
    requires IsPrf(prf)
  {
    KeyMaterial(prf, password, salt, strength)[..KeyLength(strength)]
  }

  function MacKey(prf: Prf, password: seq<Byte>, salt: seq<Byte>, strength: nat): seq<Byte>
    requires IsPrf(prf)
  {
    KeyMaterial(prf, password, salt, strength)[KeyLength(strength)..2 * KeyLength(strength)]
  }

  function Verifier(prf: Prf, password: seq<Byte>, salt: seq<Byte>, strength: nat): (r: seq<Byte>)
    requires IsPrf(prf)
    ensures |r| == VERIFY
  {
    KeyMaterial(prf, password, salt, strength)[2 * KeyLength(strength)..]
  }

  /** For the three strengths: keys of 128, 192 and 256 bits, and salts of half that length. Ten bytes are kept of the
      authentication code. */
  lemma Lengths()
    ensures FOOTER == 10
    ensures KeyLength(1) == 16 && KeyLength(2) == 24 && KeyLength(3) == 32
    ensures SaltLength(1) == 8 && SaltLength(2) == 12 && SaltLength(3) == 16
  {
  }

  /** Passwords of up to 128 bytes are taken as they are; longer ones are refused, as long as their length fits. */
  lemma PasswordLengths(password: seq<Byte>, strength: nat)
    requires |password| < 0x1_0000
    ensures Acceptable(password, strength) <==> |password| <= 128 && 1 <= strength <= 3
    ensures Used(password) == password
  {
    assert password[..|password|] == password;
  }

  /** One behind the other, cipher key, authentication key and verifier are the first bytes that PBKDF2 derives with
      1000 iterations. */
  ghost predicate ConsecutivePieces(prf: Prf, password: seq<Byte>, salt: seq<Byte>, k: nat, key: seq<Byte>,
                                    macKey: seq<Byte>, verify: seq<Byte>)
    requires IsPrf(prf)
  {
    && |key| == |macKey| == k && |verify| == 2
    && var all := key + macKey + verify;
       forall m :: 0 <= m < |all| ==> all[m] == KeyByte(prf, password, salt, 1000, m)
  }

  lemma {:induction false} DerivedByteAt(prf: Prf, password: seq<Byte>, salt: seq<Byte>, n: nat, m: nat)
    requires IsPrf(prf) && m < n
    ensures DerivedBytes(prf, password, salt, n)[m] == KeyByte(prf, password, salt, 1000, m)
    decreases n
  {
    if m == n - 1 {
    } else {
      DerivedByteAt(prf, password, salt, n - 1, m);
    }
  }

  lemma KeyPieces(prf: Prf, password: seq<Byte>, salt: seq<Byte>, strength: nat)
    requires IsPrf(prf)
    ensures ConsecutivePieces(prf, password, salt, KeyLength(strength), CipherKey(prf, password, salt, strength),
                              MacKey(prf, password, salt, strength), Verifier(prf, password, salt, strength))
  {
    var n := 2 * KeyLength(strength) + VERIFY;
    var all := CipherKey(prf, password, salt, strength) + MacKey(prf, password, salt, strength)
             + Verifier(prf, password, salt, strength);
    assert all == DerivedBytes(prf, password, salt, n);
    forall m | 0 <= m < |all| ensures all[m] == KeyByte(prf, password, salt, 1000, m) {
      DerivedByteAt(prf, password, salt, n, m);
    }
  }

  /** Whether the verifier at `at` is that of the password. */
  ghost function VerifierCheck(prf: Prf, password: seq<Byte>, salt: seq<Byte>, strength: nat, file: seq<Byte>,
                               at: nat): int
    requires IsPrf(prf)
  {
    if |file| < at + VERIFY then MZ_READ_ERROR
    else if file[at..at + VERIFY] == Verifier(prf, password, salt, strength) then MZ_OK
    else MZ_PASSWORD_ERROR
  }

  ghost function SaltCheck(prf: Prf, password: seq<Byte>, strength: nat, file: seq<Byte>): int
    requires IsPrf(prf)
  {
    var n := SaltLength(strength);
    if |file| < n then MZ_READ_ERROR else VerifierCheck(prf, password, file[..n], strength, file, n)
  }

  /** What opening for reading must say about a file. */
  ghost function HeaderCheck(prf: Prf, password: seq<Byte>, strength: nat, file: seq<Byte>): int
    requires IsPrf(prf)
  {
    if !Acceptable(password, strength) then MZ_PARAM_ERROR else SaltCheck(prf, Used(password), strength, file)
  }

  /** The key stream for a derived key. */
  ghost function KeystreamOf(aes: Aes, key: seq<Byte>): (ks: nat -> Byte)
    requires IsAes(aes)
    ensures IsKeystream(ks, aes, key)
  {
    (i: nat) => Keystream(aes, key, i)
  }

  /** Masked bytes of `data[..total]` have gone to the base stream and into the authentication code. */
  ghost predicate Sent(ks: nat -> Byte, from: nat, base0: seq<Byte>, mac0: seq<Byte>, data: seq<Byte>, total: nat,
                       done: nat, base: seq<Byte>, mac: seq<Byte>) {
    && total <= |data| && done == from + total
    && base == base0 + Mask(ks, from, data[..total])
    && mac == mac0 + Mask(ks, from, data[..total])
  }

  lemma SentAll(ks: nat -> Byte, from: nat, base0: seq<Byte>, mac0: seq<Byte>, data: seq<Byte>, done: nat,
                base: seq<Byte>, mac: seq<Byte>)
    requires Sent(ks, from, base0, mac0, data, |data|, done, base, mac)
    ensures done == from + |data| && base == base0 + Mask(ks, from, data) && mac == mac0 + Mask(ks, from, data)
  {
    assert data[..|data|] == data;
  }

  lemma SentStep(ks: nat -> Byte, from: nat, base0: seq<Byte>, mac0: seq<Byte>, data: seq<Byte>, total: nat,
                 base: seq<Byte>, mac: seq<Byte>, n: nat, base': seq<Byte>, mac': seq<Byte>)
    requires Sent(ks, from, base0, mac0, data, total, from + total, base, mac) && total + n <= |data|
    requires base' == base + Mask(ks, from + total, data[total..total + n])
    requires mac' == mac + Mask(ks, from + total, data[total..total + n])
    ensures Sent(ks, from, base0, mac0, data, total + n, from + total + n, base', mac')
  {
    var done, more := Mask(ks, from, data[..total]), Mask(ks, from + total, data[total..total + n]);
    PrefixJoin(data, total, total + n);
    MaskAppend(ks, from, data[..total], data[total..total + n]);
    AppendAssoc(base0, done, more);
    AppendAssoc(mac0, done, more);
  }

  class WzAesStream {
    const aes: Aes
    const prf: Prf
    const strength: nat
    const buffer: array<Byte>
    var ctr: CtrState
    var macKey: seq<Byte>
    var macText: seq<Byte>
    var base: seq<Byte>
    var basePos: nat
    var totalIn: int
    var maxTotalIn: int
    var totalOut: int
    var writing: bool
    var initialized: bool

    ghost predicate Valid()
      reads this, ctr, ctr.nonce, ctr.cryptBlock
    {
      && IsAes(aes) && IsPrf(prf)
      && buffer.Length == BUFFER && buffer != ctr.nonce && buffer != ctr.cryptBlock
      && ctr.aes == aes && ctr.Valid() && basePos <= |base|
    }

    constructor (aes: Aes, prf: Prf, strength: nat, base: seq<Byte>, maxTotalIn: int)
      requires IsAes(aes) && IsPrf(prf)
      ensures Valid() && this.aes == aes && this.prf == prf && this.strength == strength
      ensures this.base == base && basePos == 0 && this.maxTotalIn == maxTotalIn
      ensures fresh(buffer) && fresh(ctr) && fresh(ctr.nonce) && fresh(ctr.cryptBlock)
    {
      this.aes, this.prf, this.strength := aes, prf, strength;
      buffer := new Byte[BUFFER];
      ctr := new CtrState(aes, []);
      macKey, macText, this.base, basePos := [], [], base, 0;
      totalIn, this.maxTotalIn, totalOut, writing, initialized := 0, maxTotalIn, 0, false, false;
    }

    /** The two keys are in force, and `text` is what has gone into the authentication code so far. */
    ghost predicate Keyed(password: seq<Byte>, salt: seq<Byte>, text: seq<Byte>)
      requires Valid()
      reads this, ctr, ctr.nonce, ctr.cryptBlock
    {
      && ctr.key == CipherKey(prf, password, salt, strength) && ctr.Done() == |text|
      && macKey == MacKey(prf, password, salt, strength) && macText == text
    }

    /** Derive the keys and start both the counter mode and the authentication code. */
    method SetKeys(password: seq<Byte>, salt: seq<Byte>) returns (verify: seq<Byte>)
      requires Valid()
      modifies this`ctr, this`macKey, this`macText
      ensures Valid() && Keyed(password, salt, []) && fresh(ctr) && fresh(ctr.nonce) && fresh(ctr.cryptBlock)
      ensures verify == Verifier(prf, password, salt, strength)
      ensures ConsecutivePieces(prf, password, salt, KeyLength(strength), ctr.key, macKey, verify)
    {
      KeyPieces(prf, password, salt, strength);
      var k := KeyLength(strength);
      var kbuf := DeriveMaterial(prf, password, salt, strength);
      ctr := new CtrState(aes, kbuf[..k]);
      macKey, macText := kbuf[k..2 * k], [];
      verify := kbuf[2 * k..];
    }

    /** Set the keys and write the salt and the verifier. */
    method WriteHeader(password: seq<Byte>, salt: seq<Byte>)
      requires Valid()
      modifies this`ctr, this`macKey, this`macText, this`base, this`totalOut
      ensures Valid() && fresh(ctr) && fresh(ctr.nonce) && fresh(ctr.cryptBlock) && Keyed(password, salt, [])
      ensures base == old(base) + salt + Verifier(prf, password, salt, strength)
      ensures totalOut == old(totalOut) + |salt| + VERIFY
    {
      var verify := SetKeys(password, salt);
      base := base + salt;
      totalOut := totalOut + |salt|;
      base := base + verify;
      totalOut := totalOut + VERIFY;
    }

    /** Open for writing, with the random salt that is used. */
    method OpenWrite(password: seq<Byte>, salt: seq<Byte>) returns (err: int)
      requires Valid() && |salt| == SaltLength(strength)
      modifies this`ctr, this`macKey, this`macText, this`base, this`totalIn, this`totalOut, this`writing,
          this`initialized
      ensures Valid()
      ensures err == if Acceptable(password, strength) then MZ_OK else MZ_PARAM_ERROR
      ensures err != MZ_OK ==> base == old(base)
      ensures err == MZ_OK ==>
        && fresh(ctr) && fresh(ctr.nonce) && fresh(ctr.cryptBlock) && Keyed(Used(password), salt, [])
        && base == old(base) + salt + Verifier(prf, Used(password), salt, strength)
        && totalOut == SaltLength(strength) + VERIFY && writing && initialized
    {
      totalIn, totalOut, initialized := 0, 0, false;
      if !Acceptable(password, strength) {
        return MZ_PARAM_ERROR;
      }
      WriteHeader(Used(password), salt);
      writing, initialized := true, true;
      return MZ_OK;
    }

    /** Set the keys and compare the verifier that comes next in the file. */
    method CheckPassword(password: seq<Byte>, salt: seq<Byte>) returns (err: int)
      requires Valid()
      modifies this`ctr, this`macKey, this`macText, this`basePos
      ensures Valid() && fresh(ctr) && fresh(ctr.nonce) && fresh(ctr.cryptBlock) && Keyed(password, salt, [])
      ensures err == VerifierCheck(prf, password, salt, strength, base, old(basePos))
      ensures err == MZ_OK ==> basePos == old(basePos) + VERIFY
    {
      var verify := SetKeys(password, salt);
      var expected := TakeFrom(base, basePos, VERIFY);
      basePos := basePos + |expected|;
      if |expected| != VERIFY {
        return MZ_READ_ERROR;
      }
      return if expected != verify then MZ_PASSWORD_ERROR else MZ_OK;
    }

    method ReadSalt() returns (err: int, salt: seq<Byte>)
      requires Valid() && basePos == 0 && totalIn == 0
      modifies this`basePos, this`totalIn
      ensures Valid() && err == if |base| < SaltLength(strength) then MZ_READ_ERROR else MZ_OK
      ensures err == MZ_OK ==> totalIn == basePos == SaltLength(strength) && salt == base[..SaltLength(strength)]
    {
      var n := SaltLength(strength);
      salt := TakeFrom(base, basePos, n);
      basePos := basePos + |salt|;
      if |salt| != n {
        return MZ_READ_ERROR, salt;
      }
      totalIn := totalIn + n;
      err := MZ_OK;
    }

    /** Read the salt, set the keys and compare the verifier. */
    method ReadHeader(password: seq<Byte>) returns (err: int)
      requires Valid() && basePos == 0 && totalIn == 0
      modifies this`ctr, this`macKey, this`macText, this`basePos, this`totalIn
      ensures Valid() && err == SaltCheck(prf, password, strength, base)
      ensures err == MZ_OK ==>
        && fresh(ctr) && fresh(ctr.nonce) && fresh(ctr.cryptBlock) && Keyed(password, base[..SaltLength(strength)], [])
        && totalIn == basePos == SaltLength(strength) + VERIFY
    {
      var salt;
      err, salt := ReadSalt();
      if err != MZ_OK {
        return err;
      }
      err := CheckPassword(password, salt);
      if err != MZ_READ_ERROR {
        totalIn := totalIn + VERIFY;
      }
    }

    /** Open for reading: the verifier behind the salt must be the one derived from the password. */
    method OpenRead(password: seq<Byte>) returns (err: int)
      requires Valid() && basePos == 0
      modifies this`ctr, this`macKey, this`macText, this`basePos, this`totalIn, this`totalOut, this`writing,
          this`initialized
      ensures Valid() && err == HeaderCheck(prf, password, strength, base)
      ensures err == MZ_OK ==>
        && fresh(ctr) && fresh(ctr.nonce) && fresh(ctr.cryptBlock)
        && Keyed(Used(password), base[..SaltLength(strength)], [])
        && totalIn == basePos == SaltLength(strength) + VERIFY && !writing && initialized
    {
      totalIn, totalOut, initialized := 0, 0, false;
      if !Acceptable(password, strength) {
        return MZ_PARAM_ERROR;
      }
      err := ReadHeader(Used(password));
      if err == MZ_OK {
        writing, initialized := false, true;
      }
    }

    /** Mix one buffer of plain bytes, authenticate what comes out and write it. */
    method WriteChunk(chunk: seq<Byte>, ghost ks: nat -> Byte)
      requires Valid() && |chunk| <= BUFFER && IsKeystream(ks, aes, ctr.key)
      modifies this`macText, this`base, buffer, ctr, ctr.nonce, ctr.cryptBlock
      ensures Valid() && ctr.Done() == old(ctr.Done()) + |chunk|
      ensures base == old(base) + Mask(ks, old(ctr.Done()), chunk)
      ensures macText == old(macText) + Mask(ks, old(ctr.Done()), chunk)
    {
      CopyToFront(buffer, chunk);
      ctr.Encrypt(buffer, |chunk|, ks);
      macText := macText + buffer[..|chunk|];
      base := base + buffer[..|chunk|];
    }

    /** One turn of the loop in `Write`. */
    method WriteTurn(data: seq<Byte>, total: nat, n: nat, ghost ks: nat -> Byte,
                     ghost from: nat, ghost base0: seq<Byte>, ghost mac0: seq<Byte>)
      requires Valid() && IsKeystream(ks, aes, ctr.key) && n <= BUFFER && total + n <= |data|
      requires Sent(ks, from, base0, mac0, data, total, ctr.Done(), base, macText)
      modifies this`macText, this`base, buffer, ctr, ctr.nonce, ctr.cryptBlock
      ensures Valid() && Sent(ks, from, base0, mac0, data, total + n, ctr.Done(), base, macText)
    {
      ghost var base1, mac1 := base, macText;
      WriteChunk(data[total..total + n], ks);
      SentStep(ks, from, base0, mac0, data, total, base1, mac1, n, base, macText);
    }

    method Write(data: seq<Byte>, ghost ks: nat -> Byte) returns (written: int)
      requires Valid() && IsKeystream(ks, aes, ctr.key)
      modifies this`macText, this`base, this`totalOut, buffer, ctr, ctr.nonce, ctr.cryptBlock
      ensures Valid() && written == |data| && ctr.Done() == old(ctr.Done()) + |data|
      ensures base == old(base) + Mask(ks, old(ctr.Done()), data)
      ensures macText == old(macText) + Mask(ks, old(ctr.Done()), data)
      ensures totalOut == old(totalOut) + |data|
    {
      ghost var from, base0, mac0 := ctr.Done(), base, macText;
      var toWrite, total := BUFFER, 0;
      while true
        invariant 0 <= total <= |data| && 0 <= toWrite <= BUFFER && (total < |data| ==> toWrite > 0)
        invariant Valid() && Sent(ks, from, base0, mac0, data, total, ctr.Done(), base, macText)
        invariant totalOut == old(totalOut)
        decreases |data| - total
      {
        if toWrite > |data| - total {
          toWrite := |data| - total;
        }
        WriteTurn(data, total, toWrite, ks, from, base0, mac0);
        total := total + toWrite;
        if !(total < |data| && toWrite > 0) {
          break;
        }
      }
      SentAll(ks, from, base0, mac0, data, ctr.Done(), base, macText);
      totalOut := totalOut + total;
      written := total;
    }

    /** Authenticate what was read, and mix it in place. */
    method Unmask(buf: array<Byte>, got: seq<Byte>, ghost ks: nat -> Byte)
      requires Valid() && IsKeystream(ks, aes, ctr.key)
      requires 0 < |got| <= buf.Length && buf != ctr.nonce && buf != ctr.cryptBlock
      modifies this`macText, buf, ctr, ctr.nonce, ctr.cryptBlock
      ensures Valid() && ctr.Done() == old(ctr.Done()) + |got| && macText == old(macText) + got
      ensures buf[..|got|] == Mask(ks, old(ctr.Done()), got) && buf[|got|..] == old(buf[|got|..])
    {
      CopyToFront(buf, got);
      macText := macText + buf[..|got|];
      ctr.Encrypt(buf, |got|, ks);
    }

    /** Read into `buf`, never into the authentication code at the end of the entry. */
    method Read(buf: array<Byte>, size: nat, ghost ks: nat -> Byte) returns (read: int)
      requires Valid() && IsKeystream(ks, aes, ctr.key) && totalIn <= maxTotalIn - FOOTER
      requires size <= buf.Length && buf != ctr.nonce && buf != ctr.cryptBlock
      modifies this`basePos, this`totalIn, this`macText, buf, ctr, ctr.nonce, ctr.cryptBlock
      ensures Valid() && 0 <= read <= size && ctr.Done() == old(ctr.Done()) + read
      ensures basePos == old(basePos) + read <= |base| && totalIn == old(totalIn) + read <= maxTotalIn - FOOTER
      ensures read == size || totalIn == maxTotalIn - FOOTER || basePos == |base|
      ensures macText == old(macText) + base[old(basePos)..basePos]
      ensures buf[..read] == Mask(ks, old(ctr.Done()), base[old(basePos)..basePos])
      ensures buf[read..] == old(buf[read..])
    {
      var toRead := size;
      if toRead > maxTotalIn - FOOTER - totalIn {
        toRead := maxTotalIn - FOOTER - totalIn;
      }
      var got := TakeFrom(base, basePos, toRead);
      basePos := basePos + |got|;
      assert got == base[old(basePos)..basePos];
      read := |got|;
      if read > 0 {
        Unmask(buf, got, ks);
        totalIn := totalIn + read;
      }
    }

    /** Close: write the authentication code, or compare it with the one in the file. */
    method Close() returns (err: int)
      requires Valid()
      modifies this`base, this`basePos, this`totalIn, this`totalOut, this`initialized
      ensures Valid() && (err == MZ_OK ==> !initialized)
      ensures old(writing) ==> err == MZ_OK && base == old(base) + prf(macKey, macText)[..FOOTER]
                               && totalOut == old(totalOut) + FOOTER
      ensures !old(writing) ==>
        && base == old(base)
        && err == (if |base| < old(basePos) + FOOTER then MZ_READ_ERROR
                   else if base[old(basePos)..old(basePos) + FOOTER] == prf(macKey, macText)[..FOOTER] then MZ_OK
                   else MZ_CRC_ERROR)
        && totalIn == (if err == MZ_READ_ERROR then old(totalIn) else old(totalIn) + FOOTER)
    {
      var computed := prf(macKey, macText);
      if writing {
        base := base + computed[..FOOTER];
        totalOut := totalOut + FOOTER;
      } else {
        var expected := TakeFrom(base, basePos, FOOTER);
        basePos := basePos + |expected|;
        if |expected| != FOOTER {
          return MZ_READ_ERROR;
        }
        totalIn := totalIn + FOOTER;
        if computed[..FOOTER] != expected {
          return MZ_CRC_ERROR;
        }
      }
      initialized := false;
      return MZ_OK;
    }
  }

  // ----- whole entries

  /** The encrypted bytes behind `header` so far, and the same bytes in the authentication code. */
  ghost predicate Written(w: WzAesStream, ks: nat -> Byte, key: seq<Byte>, macKey: seq<Byte>, header: seq<Byte>,
                          plain: seq<Byte>)
    reads w, w.ctr, w.ctr.nonce, w.ctr.cryptBlock
  {
    && w.Valid() && w.ctr.key == key && w.macKey == macKey && w.writing && w.ctr.Done() == |plain|
    && w.base == header + Mask(ks, 0, plain) && w.macText == Mask(ks, 0, plain)
  }

  /** One write behind others. */
  method WriteMore(w: WzAesStream, chunk: seq<Byte>, ghost ks: nat -> Byte, ghost key: seq<Byte>,
                   ghost macKey: seq<Byte>,
                   ghost header: seq<Byte>, ghost plain: seq<Byte>)
    requires Written(w, ks, key, macKey, header, plain) && IsKeystream(ks, w.aes, key)
    modifies w`macText, w`base, w`totalOut, w.buffer, w.ctr, w.ctr.nonce, w.ctr.cryptBlock
    ensures Written(w, ks, key, macKey, header, plain + chunk)
  {
    var _ := w.Write(chunk, ks);
    MaskAppend(ks, 0, plain, chunk);
    AppendAssoc(header, Mask(ks, 0, plain), Mask(ks, |plain|, chunk));
  }

  method WriteAll(w: WzAesStream, chunks: seq<seq<Byte>>, ghost ks: nat -> Byte, ghost key: seq<Byte>,
                  ghost macKey: seq<Byte>,
                  ghost header: seq<Byte>)
    requires Written(w, ks, key, macKey, header, []) && IsKeystream(ks, w.aes, key)
    modifies w`macText, w`base, w`totalOut, w.buffer, w.ctr, w.ctr.nonce, w.ctr.cryptBlock
    ensures Written(w, ks, key, macKey, header, Flatten(chunks))
  {
    ghost var plain := [];
    for i := 0 to |chunks|
      invariant Written(w, ks, key, macKey, header, plain) && plain == Flatten(chunks[..i])
    {
      WriteMore(w, chunks[i], ks, key, macKey, header, plain);
      FlattenNext(chunks, i);
      plain := plain + chunks[i];
    }
    assert chunks[..|chunks|] == chunks;
  }

  /** An entry: salt, verifier, encrypted bytes, authentication code. */
  ghost function Entry(aes: Aes, prf: Prf, strength: nat, password: seq<Byte>, salt: seq<Byte>,
                       plain: seq<Byte>): seq<Byte>
    requires IsAes(aes) && IsPrf(prf)
  {
    var code := Mask(KeystreamOf(aes, CipherKey(prf, password, salt, strength)), 0, plain);
    salt + Verifier(prf, password, salt, strength) + code + prf(MacKey(prf, password, salt, strength), code)[..FOOTER]
  }

  /** Encrypt the pieces one after the other. */
  method EncryptAll(aes: Aes, prf: Prf, strength: nat, password: seq<Byte>, salt: seq<Byte>, chunks: seq<seq<Byte>>)
    returns (err: int, file: seq<Byte>)
    requires IsAes(aes) && IsPrf(prf) && |salt| == SaltLength(strength)
    ensures err == if Acceptable(password, strength) then MZ_OK else MZ_PARAM_ERROR
    ensures err == MZ_OK ==> file == Entry(aes, prf, strength, Used(password), salt, Flatten(chunks))
  {
    var w := new WzAesStream(aes, prf, strength, [], 0);
    file := [];
    err := w.OpenWrite(password, salt);
    if err != MZ_OK {
      return;
    }
    assert [] + salt == salt;
    ghost var ks := KeystreamOf(aes, w.ctr.key);
    WriteAll(w, chunks, ks, w.ctr.key, w.macKey, w.base);
    err := w.Close();
    file := w.base;
  }

  /** Where the encrypted bytes end; an entry too short for an authentication code has none. */
  ghost function CodeEnd(file: seq<Byte>, h: nat): nat {
    if |file| - FOOTER < h then h else |file| - FOOTER
  }

  /** What has been read of `file` behind its first `h` bytes has been unmasked and authenticated. */
  ghost predicate Unmasked(r: WzAesStream, ks: nat -> Byte, key: seq<Byte>, macKey: seq<Byte>, file: seq<Byte>, h: nat,
                           data: seq<Byte>)
    reads r, r.ctr, r.ctr.nonce, r.ctr.cryptBlock
  {
    && r.Valid() && r.ctr.key == key && r.macKey == macKey && r.base == file && r.maxTotalIn == |file| && !r.writing
    && h <= r.basePos == r.totalIn <= CodeEnd(file, h) && r.ctr.Done() == r.basePos - h
    && r.macText == file[h..r.basePos] && data == Mask(ks, 0, file[h..r.basePos])
  }

  /** One read behind others, with a buffer of any size. */
  method ReadMore(r: WzAesStream, size: nat, ghost ks: nat -> Byte, ghost key: seq<Byte>, ghost macKey: seq<Byte>,
                  ghost file: seq<Byte>, ghost h: nat, ghost data: seq<Byte>)
    returns (got: seq<Byte>)
    requires Unmasked(r, ks, key, macKey, file, h, data) && IsKeystream(ks, r.aes, key) && r.totalIn <= |file| - FOOTER
    modifies r`basePos, r`totalIn, r`macText, r.ctr, r.ctr.nonce, r.ctr.cryptBlock
    ensures Unmasked(r, ks, key, macKey, file, h, data + got) && r.basePos == old(r.basePos) + |got|
    ensures size > 0 && old(r.totalIn) < |file| - FOOTER ==> got != []
  {
    var buf := new Byte[size];
    ghost var a := r.basePos;
    var read := r.Read(buf, size, ks);
    SliceJoin(file, h, a, r.basePos);
    MaskAppend(ks, 0, file[h..a], file[a..r.basePos]);
    got := buf[..read];
  }

  method ReadAll(r: WzAesStream, ghost ks: nat -> Byte, ghost key: seq<Byte>, ghost macKey: seq<Byte>,
                 ghost file: seq<Byte>, ghost h: nat)
    returns (data: seq<Byte>)
    requires Unmasked(r, ks, key, macKey, file, h, []) && IsKeystream(ks, r.aes, key)
    modifies r`basePos, r`totalIn, r`macText, r.ctr, r.ctr.nonce, r.ctr.cryptBlock
    ensures Unmasked(r, ks, key, macKey, file, h, data) && r.basePos == CodeEnd(file, h)
  {
    data := [];
    while r.totalIn < r.maxTotalIn - FOOTER
      invariant Unmasked(r, ks, key, macKey, file, h, data)
      decreases |file| - r.basePos
    {
      var size: nat :| size > 0;
      var got := ReadMore(r, size, ks, key, macKey, file, h, data);
      data := data + got;
    }
  }

  /** What a file with a header of `h` bytes must give: the bytes it holds, and how closing ends. */
  ghost predicate Decrypted(prf: Prf, ks: nat -> Byte, macKey: seq<Byte>, file: seq<Byte>, h: nat, data: seq<Byte>,
                            err: int)
    requires IsPrf(prf)
  {
    && CodeEnd(file, h) <= |file| && data == Mask(ks, 0, file[h..CodeEnd(file, h)])
    && err == ClosingCheck(prf, macKey, file, h)
  }

  lemma TailIs<T>(s: seq<T>, k: nat)
    requires k <= |s|
    ensures s[k..] == s[k..|s|]
  {
  }

  /** Read everything and close. */
  method Finish(r: WzAesStream, ghost ks: nat -> Byte, ghost key: seq<Byte>, ghost macKey: seq<Byte>,
                ghost file: seq<Byte>, ghost h: nat)
    returns (data: seq<Byte>, err: int)
    requires Unmasked(r, ks, key, macKey, file, h, []) && IsKeystream(ks, r.aes, key)
    modifies r, r.ctr, r.ctr.nonce, r.ctr.cryptBlock
    ensures Decrypted(r.prf, ks, macKey, file, h, data, err)
  {
    data := ReadAll(r, ks, key, macKey, file, h);
    err := r.Close();
    if |file| >= FOOTER {
      TailIs(file, |file| - FOOTER);
    }
  }

  /** Closing reports an entry too short for an authentication code, and otherwise accepts it exactly when its last
      bytes are the authentication code of what is before them. */
  ghost function ClosingCheck(prf: Prf, macKey: seq<Byte>, file: seq<Byte>, h: nat): int
    requires IsPrf(prf)
  {
    if |file| - FOOTER < h then MZ_READ_ERROR
    else if file[|file| - FOOTER..] == prf(macKey, file[h..|file| - FOOTER])[..FOOTER] then MZ_OK else MZ_CRC_ERROR
  }

  method OpenFile(aes: Aes, prf: Prf, strength: nat, password: seq<Byte>, file: seq<Byte>, ghost ks: nat -> Byte)
    returns (err: int, r: WzAesStream)
    requires IsAes(aes) && IsPrf(prf)
    ensures err == HeaderCheck(prf, password, strength, file) && fresh(r) && r.aes == aes && r.prf == prf
    ensures err == MZ_OK ==>
      var salt, h := file[..SaltLength(strength)], SaltLength(strength) + VERIFY;
      && fresh(r.ctr) && fresh(r.ctr.nonce) && fresh(r.ctr.cryptBlock)
      && Unmasked(r, ks, CipherKey(prf, Used(password), salt, strength), MacKey(prf, Used(password), salt, strength),
          file, h, [])
  {
    r := new WzAesStream(aes, prf, strength, file, |file|);
    err := r.OpenRead(password);
  }

  /** What a whole file says: how opening ends, the bytes it holds, and how closing ends. `ks` is the key stream
      of the key that the password and the salt in the file give. */
  method DecryptAll(aes: Aes, prf: Prf, strength: nat, password: seq<Byte>, file: seq<Byte>, ghost ks: nat -> Byte)
    returns (err: int, data: seq<Byte>, closeErr: int)
    requires IsAes(aes) && IsPrf(prf)
    requires |file| >= SaltLength(strength) ==>
      IsKeystream(ks, aes, CipherKey(prf, Used(password), file[..SaltLength(strength)], strength))
    ensures err == HeaderCheck(prf, password, strength, file)
    ensures err == MZ_OK ==>
      var salt, h := file[..SaltLength(strength)], SaltLength(strength) + VERIFY;
      Decrypted(prf, ks, MacKey(prf, Used(password), salt, strength), file, h, data, closeErr)
  {
    data, closeErr := [], MZ_OK;
    var r;
    err, r := OpenFile(aes, prf, strength, password, file, ks);
    if err == MZ_OK {
      ghost var salt := file[..SaltLength(strength)];
      ghost var key, macKey := CipherKey(prf, Used(password), salt, strength),
          MacKey(prf, Used(password), salt, strength);
      data, closeErr := Finish(r, ks, key, macKey, file, SaltLength(strength) + VERIFY);
    }
  }

  lemma EntryParts(salt: seq<Byte>, verify: seq<Byte>, code: seq<Byte>, footer: seq<Byte>)
    ensures var file, n, m := salt + verify + code + footer, |salt|, |salt| + |verify|;
            && file[..n] == salt && file[n..m] == verify && file[m..|file| - |footer|] == code
                && file[|file| - |footer|..] == footer
  {
  }

  /** For any cipher, authentication code, password, salt and chunking on either side: the plain bytes come back,
      the password is accepted and so is the authentication code. */
  method RoundTrip(aes: Aes, prf: Prf, strength: nat, password: seq<Byte>, salt: seq<Byte>, chunks: seq<seq<Byte>>)
    returns (err: int, data: seq<Byte>, closeErr: int)
    requires IsAes(aes) && IsPrf(prf) && |salt| == SaltLength(strength)
    ensures Acceptable(password, strength) ==> err == closeErr == MZ_OK && data == Flatten(chunks)
    ensures !Acceptable(password, strength) ==> err == MZ_PARAM_ERROR
  {
    var file;
    data, closeErr := [], MZ_OK;
    err, file := EncryptAll(aes, prf, strength, password, salt, chunks);
    if err != MZ_OK {
      return;
    }
    ghost var ks := KeystreamOf(aes, CipherKey(prf, Used(password), salt, strength));
    ghost var code := Mask(ks, 0, Flatten(chunks));
    ghost var footer := prf(MacKey(prf, Used(password), salt, strength), code)[..FOOTER];
    EntryParts(salt, Verifier(prf, Used(password), salt, strength), code, footer);
    MaskTwice(ks, 0, Flatten(chunks));
    err, data, closeErr := DecryptAll(aes, prf, strength, password, file, ks);
  }
}
