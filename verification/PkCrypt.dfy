/** Traditional PKWARE encryption (external/minizip-ng-4.2.1/mz_strm_pkcrypt.c; sections 6.1.5 to 6.1.7 of
    the PKWARE APPNOTE). The stream works for any cipher whose keys are advanced by the plain bytes. */
module PkCrypt {
  import opened BaseStreams
  import opened Crc32

  /** The byte the keys stand for, the keys after a plain byte, and the mixing of two bytes. */
  datatype Cipher<!K, !B> = Cipher(pad: K -> B, next: (K, B) -> K, mix: (B, B) -> B)

  /** Mixing the same byte in again takes it out. */
  ghost predicate Undoes<K, B(!new)>(c: Cipher<K, B>) {
    forall x, y :: c.mix(c.mix(x, y), x) == y
  }

  /** The keys after some plain bytes. */
  function Advance<K, B>(c: Cipher<K, B>, keys: K, plain: seq<B>): K {
    if plain == [] then keys else c.next(Advance(c, keys, plain[..|plain| - 1]), plain[|plain| - 1])
  }

  /** What the encode macro makes of a sequence of bytes. */
  function Encode<K, B>(c: Cipher<K, B>, keys: K, plain: seq<B>): (r: seq<B>)
    ensures |r| == |plain|
  {
    if plain == [] then []
    else
      var init, last := plain[..|plain| - 1], plain[|plain| - 1];
      Encode(c, keys, init) + [c.mix(c.pad(Advance(c, keys, init)), last)]
  }

  lemma {:induction false} AdvanceAppend<K, B>(c: Cipher<K, B>, keys: K, a: seq<B>, b: seq<B>)
    ensures Advance(c, keys, a + b) == Advance(c, Advance(c, keys, a), b)
  {
    if b == [] {
      assert a + b == a;
    } else {
      AdvanceAppend(c, keys, a, b[..|b| - 1]);
      assert (a + b)[..|a + b| - 1] == a + b[..|b| - 1];
    }
  }

  /** Encoding in pieces is encoding the whole. */
  lemma {:induction false} EncodeAppend<K, B>(c: Cipher<K, B>, keys: K, a: seq<B>, b: seq<B>)
    ensures Encode(c, keys, a + b) == Encode(c, keys, a) + Encode(c, Advance(c, keys, a), b)
  {
    if b == [] {
      assert a + b == a;
    } else {
      EncodeAppend(c, keys, a, b[..|b| - 1]);
      AdvanceAppend(c, keys, a, b[..|b| - 1]);
      assert (a + b)[..|a + b| - 1] == a + b[..|b| - 1];
    }
  }

  /** What the decode macro makes of a sequence of bytes; it advances the keys by what comes out. */
  function Decode<K, B>(c: Cipher<K, B>, keys: K, code: seq<B>): (r: seq<B>)
    ensures |r| == |code|
  {
    if code == [] then []
    else
      var plain := Decode(c, keys, code[..|code| - 1]);
      plain + [c.mix(code[|code| - 1], c.pad(Advance(c, keys, plain)))]
  }

  /** The reader recovers the plain bytes, and so its keys stay those of the writer. */
  lemma {:induction false} DecodeEncode<K, B(!new)>(c: Cipher<K, B>, keys: K, plain: seq<B>)
    requires Undoes(c)
    ensures Decode(c, keys, Encode(c, keys, plain)) == plain
  {
    if plain == [] {
    } else {
      var k := |plain| - 1;
      DecodeEncode(c, keys, plain[..k]);
      assert Encode(c, keys, plain)[..k] == Encode(c, keys, plain[..k]);
      assert plain == plain[..k] + [plain[k]];
    }
  }

  /** The loop that decodes a buffer in place. */
  method DecodeBuffer<K, B>(c: Cipher<K, B>, keys: K, code: seq<B>) returns (out: seq<B>, keys': K)
    ensures out == Decode(c, keys, code) && keys' == Advance(c, keys, out)
  {
    out, keys' := [], keys;
    for i := 0 to |code|
      invariant out == Decode(c, keys, code[..i]) && keys' == Advance(c, keys, out)
    {
      assert code[..i + 1][..i] == code[..i];
      var b := c.mix(code[i], c.pad(keys'));
      keys' := c.next(keys', b);
      assert (out + [b])[..|out|] == out;
      out := out + [b];
    }
    assert code[..|code|] == code;
  }

  /** The loop that encodes into the buffer. */
  method EncodeBuffer<K, B>(c: Cipher<K, B>, keys: K, plain: seq<B>) returns (out: seq<B>, keys': K)
    ensures out == Encode(c, keys, plain) && keys' == Advance(c, keys, plain)
  {
    out, keys' := [], keys;
    for i := 0 to |plain|
      invariant out == Encode(c, keys, plain[..i]) && keys' == Advance(c, keys, plain[..i])
    {
      assert plain[..i + 1][..i] == plain[..i];
      var t := c.pad(keys');
      keys' := c.next(keys', plain[i]);
      out := out + [c.mix(t, plain[i])];
    }
    assert plain[..|plain|] == plain;
  }

  /** `sizeof(buffer)`. */
  const BUFFER: nat := 65535

  /** `MZ_PKCRYPT_HEADER_SIZE`. */
  const HEADER: nat := 12

  /** The first `total` bytes of `data` have been encoded and written. */
  ghost predicate Sent<K, B>(c: Cipher<K, B>, keys0: K, base0: seq<B>, data: seq<B>, total: nat, keys: K,
                             base: seq<B>) {
    && total <= |data|
    && base == base0 + Encode(c, keys0, data[..total])
    && keys == Advance(c, keys0, data[..total])
  }

  lemma SentStep<K, B>(c: Cipher<K, B>, keys0: K, base0: seq<B>, data: seq<B>, total: nat, keys: K, base: seq<B>,
                                   n: nat, keys': K, base': seq<B>)
    requires Sent(c, keys0, base0, data, total, keys, base) && total + n <= |data|
    requires base' == base + Encode(c, keys, data[total..total + n])
        && keys' == Advance(c, keys, data[total..total + n])
    ensures Sent(c, keys0, base0, data, total + n, keys', base')
  {
    var chunk := data[total..total + n];
    assert data[..total + n] == data[..total] + chunk;
    EncodeAppend(c, keys0, data[..total], chunk);
    AdvanceAppend(c, keys0, data[..total], chunk);
  }

  class PkStream<K, B(==)> {
    const c: Cipher<K, B>
    /** The keys before the password. */
    const start: K
    var keys: K
    var base: seq<B>
    var basePos: nat
    var totalIn: int
    var maxTotalIn: int
    var totalOut: int

    constructor (c: Cipher<K, B>, start: K, base: seq<B>, maxTotalIn: int)
      ensures this.c == c && this.start == start && keys == start && this.base == base && basePos == 0
      ensures this.maxTotalIn == maxTotalIn && totalIn == totalOut == 0
    {
      this.c, this.start, keys, this.base, basePos := c, start, start, base, 0;
      totalIn, totalOut, this.maxTotalIn := 0, 0, maxTotalIn;
    }

    method InitKeys(password: seq<B>)
      modifies this`keys
      ensures keys == Advance(c, start, password)
    {
      keys := start;
      for i := 0 to |password|
        invariant keys == Advance(c, start, password[..i])
      {
        assert password[..i + 1][..i] == password[..i];
        keys := c.next(keys, password[i]);
      }
      assert password[..|password|] == password;
    }

    /** Open for writing: the encrypted header is ten random bytes and the two verifier bytes. */
    method OpenWrite(password: seq<B>, random: seq<B>, verify1: B, verify2: B)
      requires |random| == HEADER - 2
      modifies this
      ensures var k := Advance(c, start, password); var header := random + [verify1, verify2];
              && base == old(base) + Encode(c, k, header)
              && keys == Advance(c, k, header)
      ensures totalOut == HEADER
    {
      totalIn, totalOut := 0, 0;
      InitKeys(password);
      var header;
      header, keys := EncodeBuffer(c, keys, random + [verify1, verify2]);
      base := base + header;
      totalOut := totalOut + HEADER;
    }

    /** Encode one buffer of plain bytes and write it. */
    method WriteChunk(chunk: seq<B>)
      modifies this`keys, this`base
      ensures base == old(base) + Encode(c, old(keys), chunk) && keys == Advance(c, old(keys), chunk)
    {
      var code;
      code, keys := EncodeBuffer(c, keys, chunk);
      base := base + code;
    }

    method Write(data: seq<B>) returns (written: int)
      modifies this
      ensures written == |data|
      ensures base == old(base) + Encode(c, old(keys), data) && keys == Advance(c, old(keys), data)
      ensures totalOut == old(totalOut) + |data|
    {
      var toWrite, total := BUFFER, 0;
      while true
        invariant 0 <= total <= |data| && 0 <= toWrite && (total < |data| ==> toWrite > 0)
        invariant Sent(c, old(keys), old(base), data, total, keys, base)
        invariant totalOut == old(totalOut)
        decreases |data| - total
      {
        if toWrite > |data| - total {
          toWrite := |data| - total;
        }
        ghost var keys1, base1 := keys, base;
        WriteChunk(data[total..total + toWrite]);
        SentStep(c, old(keys), old(base), data, total, keys1, base1, toWrite, keys, base);
        total := total + toWrite;
        if !(total < |data| && toWrite > 0) {
          break;
        }
      }
      assert data[..|data|] == data;
      totalOut := totalOut + total;
      written := total;
    }

    /** Open for reading: the decoded header must end in the expected verifier. */
    method OpenRead(password: seq<B>, verify1: B, verify2: B, version: nat) returns (err: int)
      requires basePos == 0
      modifies this
      ensures base == old(base) && maxTotalIn == old(maxTotalIn)
      ensures |base| < HEADER ==> err == MZ_READ_ERROR
      ensures |base| >= HEADER ==>
        var k := Advance(c, start, password); var header := Decode(c, k, base[..HEADER]);
        && (err == MZ_OK <==> header[HEADER - 1] == verify2 && (version < 2 ==> header[HEADER - 2] == verify1))
        && (err != MZ_OK ==> err == MZ_PASSWORD_ERROR)
        && (err == MZ_OK ==> keys == Advance(c, k, header) && totalIn == basePos == HEADER)
    {
      totalIn, totalOut := 0, 0;
      InitKeys(password);
      var code := TakeFrom(base, basePos, HEADER);
      basePos := basePos + |code|;
      if |code| != HEADER {
        return MZ_READ_ERROR;
      }
      var header;
      header, keys := DecodeBuffer(c, keys, code);
      if header[HEADER - 1] != verify2 {
        return MZ_PASSWORD_ERROR;
      }
      if version < 2 {
        if header[HEADER - 2] != verify1 {
          return MZ_PASSWORD_ERROR;
        }
      }
      totalIn := totalIn + HEADER;
      return MZ_OK;
    }

    method Read(size: nat) returns (data: seq<B>)
      requires basePos <= |base| && totalIn <= maxTotalIn
      modifies this
      ensures base == old(base) && maxTotalIn == old(maxTotalIn)
      ensures basePos == old(basePos) + |data| <= |base| && totalIn == old(totalIn) + |data| <= maxTotalIn
      ensures data == Decode(c, old(keys), base[old(basePos)..basePos]) && keys == Advance(c, old(keys), data)
      ensures |data| <= size
      ensures |data| == size || totalIn == maxTotalIn || basePos == |base|
    {
      var toRead := size;
      if toRead > maxTotalIn - totalIn {
        toRead := maxTotalIn - totalIn;
      }
      var code := TakeFrom(base, basePos, toRead);
      basePos := basePos + |code|;
      data, keys := DecodeBuffer(c, keys, code);
      if |data| > 0 {
        totalIn := totalIn + |data|;
      }
    }
  }

  // ----- there and back

  /** Encrypt the pieces one after the other. */
  method EncryptAll<K, B(==)>(c: Cipher<K, B>, start: K, password: seq<B>, random: seq<B>, verify1: B, verify2: B,
                              chunks: seq<seq<B>>)
    returns (file: seq<B>)
    requires |random| == HEADER - 2
    ensures file == Encode(c, Advance(c, start, password), random + [verify1, verify2] + Flatten(chunks))
  {
    var w := new PkStream(c, start, [], 0);
    w.OpenWrite(password, random, verify1, verify2);
    ghost var k, plain := Advance(c, start, password), random + [verify1, verify2];
    assert [] + Encode(c, k, plain) == Encode(c, k, plain);
    for i := 0 to |chunks|
      invariant fresh(w) && w.c == c
      invariant w.base == Encode(c, k, plain) && w.keys == Advance(c, k, plain)
      invariant plain == random + [verify1, verify2] + Flatten(chunks[..i])
    {
      var _ := w.Write(chunks[i]);
      EncodeAppend(c, k, plain, chunks[i]);
      AdvanceAppend(c, k, plain, chunks[i]);
      FlattenStep(random + [verify1, verify2], chunks, i);
      plain := plain + chunks[i];
    }
    assert chunks[..|chunks|] == chunks;
    file := w.base;
  }

  lemma EncodePart<K, B>(c: Cipher<K, B>, k: K, plain: seq<B>, a: nat, b: nat)
    requires a <= b <= |plain|
    ensures Encode(c, k, plain)[a..b] == Encode(c, Advance(c, k, plain[..a]), plain[a..b])
  {
    assert plain == plain[..b] + plain[b..];
    EncodeAppend(c, k, plain[..b], plain[b..]);
    EncodeStart(c, k, plain[..b], a);
    assert plain[..b][..a] == plain[..a] && plain[..b][a..] == plain[a..b];
  }

  lemma EncodeStart<K, B>(c: Cipher<K, B>, k: K, plain: seq<B>, a: nat)
    requires a <= |plain|
    ensures Encode(c, k, plain)[a..] == Encode(c, Advance(c, k, plain[..a]), plain[a..])
  {
    assert plain == plain[..a] + plain[a..];
    EncodeAppend(c, k, plain[..a], plain[a..]);
  }

  lemma AdvanceRest<K, B>(c: Cipher<K, B>, k: K, plain: seq<B>, a: nat, b: nat)
    requires a <= b <= |plain|
    ensures Advance(c, Advance(c, k, plain[..a]), plain[a..b]) == Advance(c, k, plain[..b])
  {
    PrefixJoin(plain, a, b);
    AdvanceAppend(c, k, plain[..a], plain[a..b]);
  }

  /** What remains to be decoded once `done` plain bytes have been. */
  lemma DecodeRest<K, B(!new)>(c: Cipher<K, B>, k: K, plain: seq<B>, a: nat, b: nat)
    requires Undoes(c) && a <= b <= |plain|
    ensures Decode(c, Advance(c, k, plain[..a]), Encode(c, k, plain)[a..b]) == plain[a..b]
    ensures Advance(c, Advance(c, k, plain[..a]), plain[a..b]) == Advance(c, k, plain[..b])
  {
    EncodePart(c, k, plain, a, b);
    DecodeEncode(c, Advance(c, k, plain[..a]), plain[a..b]);
    AdvanceRest(c, k, plain, a, b);
  }

  /** The reader is at byte `pos` of the encoding of `plain`, with the keys the writer had there. */
  ghost predicate InLockstep<K, B>(c: Cipher<K, B>, k: K, plain: seq<B>, pos: nat, keys: K) {
    pos <= |plain| && keys == Advance(c, k, plain[..pos])
  }

  lemma LockstepRead<K, B(!new)>(c: Cipher<K, B>, k: K, plain: seq<B>, a: nat, b: nat, keys: K, data: seq<B>, keys': K)
    requires Undoes(c) && InLockstep(c, k, plain, a, keys) && a <= b <= |plain|
    requires data == Decode(c, keys, Encode(c, k, plain)[a..b]) && keys' == Advance(c, keys, data)
    ensures data == plain[a..b] && InLockstep(c, k, plain, b, keys')
  {
    DecodeRest(c, k, plain, a, b);
  }

  /** Open a file made by `EncryptAll` with the same password: the header check passes. */
  method OpenFile<K, B(==, !new)>(c: Cipher<K, B>, start: K, password: seq<B>, verify1: B, verify2: B, version: nat,
                                  file: seq<B>, ghost plain: seq<B>)
    returns (err: int, r: PkStream<K, B>)
    requires Undoes(c) && file == Encode(c, Advance(c, start, password), plain)
    requires |plain| >= HEADER && plain[HEADER - 2] == verify1 && plain[HEADER - 1] == verify2
    ensures err == MZ_OK && fresh(r) && r.c == c && r.base == file && r.maxTotalIn == |file|
    ensures r.basePos == r.totalIn == HEADER && InLockstep(c, Advance(c, start, password), plain, HEADER, r.keys)
  {
    r := new PkStream(c, start, file, |file|);
    ghost var k := Advance(c, start, password);
    err := r.OpenRead(password, verify1, verify2, version);
    assert plain[..0] == [];
    LockstepRead(c, k, plain, 0, HEADER, k, Decode(c, k, file[0..HEADER]),
        Advance(c, k, Decode(c, k, file[0..HEADER])));
    assert file[0..HEADER] == file[..HEADER];
  }

  /** One read of such a file. */
  method ReadFile<K, B(==, !new)>(r: PkStream<K, B>, size: nat, ghost k: K, ghost plain: seq<B>) returns (got: seq<B>)
    requires Undoes(r.c) && r.base == Encode(r.c, k, plain) && r.maxTotalIn == |plain|
    requires r.basePos == r.totalIn <= |plain| && InLockstep(r.c, k, plain, r.basePos, r.keys)
    modifies r
    ensures r.base == old(r.base) && r.maxTotalIn == |plain|
    ensures r.basePos == r.totalIn == old(r.basePos) + |got| <= |plain| && InLockstep(r.c, k, plain, r.basePos, r.keys)
    ensures got == plain[old(r.basePos)..r.basePos]
    ensures size > 0 && old(r.basePos) < |plain| ==> got != []
  {
    got := r.Read(size);
    LockstepRead(r.c, k, plain, old(r.basePos), r.basePos, old(r.keys), got, r.keys);
  }

  /** Decrypt, in pieces of any size, until nothing more comes. */
  method DecryptAll<K, B(==, !new)>(c: Cipher<K, B>, start: K, password: seq<B>, verify1: B, verify2: B, version: nat,
                                    file: seq<B>, ghost plain: seq<B>)
    returns (err: int, data: seq<B>)
    requires Undoes(c) && file == Encode(c, Advance(c, start, password), plain)
    requires |plain| >= HEADER && plain[HEADER - 2] == verify1 && plain[HEADER - 1] == verify2
    ensures err == MZ_OK && data == plain[HEADER..]
  {
    var r;
    err, r := OpenFile(c, start, password, verify1, verify2, version, file, plain);
    ghost var k := Advance(c, start, password);
    data := [];
    while r.totalIn < r.maxTotalIn
      invariant fresh(r) && r.c == c && r.base == file && r.maxTotalIn == |file|
      invariant HEADER <= r.basePos == r.totalIn <= |file|
      invariant InLockstep(c, k, plain, r.basePos, r.keys) && data == plain[HEADER..r.basePos]
      decreases |file| - r.basePos
    {
      var size: nat :| size > 0;
      ghost var at := r.basePos;
      var got := ReadFile(r, size, k, plain);
      SliceJoin(plain, HEADER, at, r.basePos);
      data := data + got;
    }
  }

  /** For any password, random bytes, verifier and chunking on either side, the plain bytes come back. */
  method RoundTrip<K, B(==, !new)>(c: Cipher<K, B>, start: K, password: seq<B>, random: seq<B>, verify1: B, verify2: B,
                                   version: nat, chunks: seq<seq<B>>)
    returns (err: int, data: seq<B>)
    requires Undoes(c) && |random| == HEADER - 2
    ensures err == MZ_OK && data == Flatten(chunks)
  {
    var file := EncryptAll(c, start, password, random, verify1, verify2, chunks);
    ghost var plain := random + [verify1, verify2] + Flatten(chunks);
    err, data := DecryptAll(c, start, password, verify1, verify2, version, file, plain);
    assert plain[HEADER..] == Flatten(chunks);
  }

  // ----- the PKWARE keys

  /** `uint32_t`, where it is calculated with. */
  newtype Word = x: int | 0 <= x < 0x1_0000_0000

  function ToWord(x: int): Word {
    (x % 0x1_0000_0000) as Word
  }

  /** Two checksum registers, and a number between them. */
  datatype Keys = Keys(k0: bv32, k1: Word, k2: bv32)

  const START: Keys := Keys(305419896, 591751049, 878082192)

  /** `k | 2`. */
  function WithBit1(k: Word): Word {
    if k / 2 % 2 == 1 then k else k + 2
  }

  function Pad(k2: Word): Byte {
    var temp := WithBit1(k2) as int;
    (ToWord(temp * XorNat(temp, 1)) / 256 % 256) as Byte
  }

  function DecryptByte(keys: Keys): Byte {
    Pad(keys.k2 as Word)
  }

  /** Add, multiply and add again, each wrapping around. */
  function Congruence(k1: Word, low: nat): Word {
    var sum := ToWord(k1 as int + low);
    var product := ToWord(sum as int * 134775813);
    ToWord(product as int + 1)
  }

  /** `(uint8_t)(k >> 24)`. */
  function TopByte(k: Word): Byte {
    (k / 0x100_0000) as Byte
  }

  /** One byte through the checksum, which inverts its value before and after. */
  function Register(k: bv32, b: Byte): bv32 {
    !Crc(!k, [b as bv8])
  }

  function UpdateWith(register: (bv32, Byte) -> bv32, keys: Keys, b: Byte): Keys {
    var k0 := register(keys.k0, b);
    var k1 := Congruence(keys.k1, k0 as int % 256);
    var k2 := register(keys.k2, TopByte(k1));
    Keys(k0, k1, k2)
  }

  function UpdateKeys(keys: Keys, b: Byte): Keys {
    UpdateWith(Register, keys, b)
  }

  const PKWARE: Cipher<Keys, Byte> := Cipher(DecryptByte, UpdateKeys, Xor)

  lemma PkwareUndoes()
    ensures Undoes(PKWARE)
  {
    forall x: Byte, y: Byte ensures Xor(Xor(x, y), x) == y {
      XorSwap(x, y);
      XorTwice(y, x);
    }
  }

  // ----- what the keys come to

  /** A checksum that is inverted before and after, inverted once more, is the bare register. */
  lemma RegisterStep(k: bv32, b: Byte)
    ensures Register(k, b) == TableStep(k, b as bv8)
  {
    TableStepCorrect(k, b as bv8);
    FeedOne(ByteStep, k, b as bv8);
    assert Not32(!k) == k;
  }

  lemma RegistersAre(keys: Keys, b: Byte)
    ensures var next := UpdateKeys(keys, b);
            next.k0 == TableStep(keys.k0, b as bv8) && next.k2 == TableStep(keys.k2, TopByte(next.k1) as bv8)
  {
    RegisterStep(keys.k0, b);
    RegisterStep(keys.k2, TopByte(UpdateKeys(keys, b).k1));
  }

  lemma WrapMultiple(x: nat, y: nat)
    ensures (0x1_0000_0000 * x + y + 1) % 0x1_0000_0000 == (y % 0x1_0000_0000 + 1) % 0x1_0000_0000
  {
  }

  lemma CongruenceIs(k1: Word, low: nat)
    ensures Congruence(k1, low) as int == ((k1 as int + low) * 134775813 + 1) % 0x1_0000_0000
  {
    var a := k1 as int + low;
    var q, r := a / 0x1_0000_0000, a % 0x1_0000_0000;
    assert a * 134775813 == 0x1_0000_0000 * (q * 134775813) + r * 134775813;
    WrapMultiple(q * 134775813, r * 134775813);
  }

  lemma NumberIs(keys: Keys, b: Byte)
    ensures var next := UpdateKeys(keys, b);
            next.k1 as int == ((keys.k1 as int + next.k0 as int % 256) * 134775813 + 1) % 0x1_0000_0000
  {
    CongruenceIs(keys.k1, UpdateKeys(keys, b).k0 as int % 256);
  }

  /** The key update of section 6.1.5 of the PKWARE APPNOTE: two steps of the checksum, and between them a linear
      congruence modulo 2 to the 32. */
  lemma UpdateKeysIs(keys: Keys, b: Byte)
    ensures var next := UpdateKeys(keys, b);
            && next.k0 == TableStep(keys.k0, b as bv8)
            && next.k1 as int == ((keys.k1 as int + next.k0 as int % 256) * 134775813 + 1) % 0x1_0000_0000
            && next.k2 == TableStep(keys.k2, (next.k1 as int / 0x100_0000) as bv8)
  {
    RegistersAre(keys, b);
    NumberIs(keys, b);
  }

  lemma Bit1Set(k: nat, t: nat, i: nat)
    requires t == if k / 2 % 2 == 1 then k else k + 2
    ensures BitAt(t, i) <==> i == 1 || BitAt(k, i)
  {
    if i == 0 {
    } else if i == 1 {
      assert BitAt(t, 1) == BitAt(t / 2, 0);
    } else {
      assert BitAt(t, i) == BitAt(t / 2, i - 1) == BitAt(t / 2 / 2, i - 2);
      assert BitAt(k, i) == BitAt(k / 2, i - 1) == BitAt(k / 2 / 2, i - 2);
      assert t / 2 / 2 == k / 2 / 2;
    }
  }

  lemma SecondByte(p: nat)
    ensures (p % 0x1_0000_0000) / 256 % 256 == p / 256 % 256
  {
  }

  lemma PadIs(k2: Word, t: nat)
    requires forall i: nat :: BitAt(t, i) <==> i == 1 || BitAt(k2 as int, i)
    ensures Pad(k2) as int == t * XorNat(t, 1) / 256 % 256
  {
    var temp := WithBit1(k2) as int;
    forall i: nat ensures BitAt(temp, i) <==> BitAt(t, i) {
      Bit1Set(k2 as int, temp, i);
    }
    SameBits(temp, t);
    SecondByte(t * XorNat(t, 1));
  }

  /** The key byte of section 6.1.6: the second lowest byte of `t * (t xor 1)`, where `t` is the last key with bit 1
      set. */
  lemma DecryptByteIs(keys: Keys, t: nat)
    requires forall i: nat :: BitAt(t, i) <==> i == 1 || BitAt(keys.k2 as int, i)
    ensures DecryptByte(keys) as int == t * XorNat(t, 1) / 256 % 256
  {
    PadIs(keys.k2 as Word, t);
  }

  // ----- a known answer

  lemma XorOne(t: nat)
    ensures XorNat(t, 1) == if t % 2 == 0 then t + 1 else t - 1
  {
    XorNatSwap(t / 2, 0);
    XorNatZero(t / 2);
  }

  /** The key byte, given the product of the two factors. */
  lemma PadTo(k2: Word, t: nat, product: nat, r: Byte)
    requires t == WithBit1(k2) as int && t % 2 == 0 && product == t * (t + 1)
    requires ToWord(product) as int / 256 % 256 == r as int
    ensures Pad(k2) == r
  {
    XorOne(t);
  }

  /** One update, given what becomes of the registers and of the number. */
  lemma UpdateTo(keys: Keys, b: bv8, next: Keys, c: Byte, low: nat, top: bv8)
    requires b == c as bv8 && next.k0 == TableStep(keys.k0, b) && low == next.k0 as int % 256
    requires next.k1 == Congruence(keys.k1, low) && top == TopByte(next.k1) as bv8
    requires next.k2 == TableStep(keys.k2, top)
    ensures UpdateKeys(keys, c) == next
  {
    RegistersAre(keys, c);
  }

  lemma FirstRegister()
    ensures TableStep(305419896, 0x61) == 0x64799c96
  {
  }

  lemma LastRegister()
    ensures TableStep(878082192, 0xb3) == 0xa253270a
  {
  }

  lemma FirstNumber()
    ensures Congruence(591751049, 0x96) == 0xb303049c
  {
  }

  lemma FirstLow()
    ensures (0x64799c96 as bv32) as int % 256 == 0x96
  {
  }

  lemma FirstBytes()
    ensures (0x61 as Byte) as bv8 == 0x61 && TopByte(0xb303049c) as bv8 == 0xb3
  {
  }

  lemma FirstUpdate()
    ensures UpdateKeys(START, 0x61) == Keys(0x64799c96, 0xb303049c, 0xa253270a)
  {
    FirstRegister();
    LastRegister();
    FirstNumber();
    FirstLow();
    FirstBytes();
    UpdateTo(START, 0x61, Keys(0x64799c96, 0xb303049c, 0xa253270a), 0x61, 0x96, 0xb3);
  }

  lemma WordIs(x: nat, q: nat, r: nat)
    requires x == 0x1_0000_0000 * q + r && r < 0x1_0000_0000
    ensures ToWord(x) as int == r
  {
  }

  lemma FirstProduct(product: nat)
    requires product == 0xa253270a * 0xa253270b
    ensures ToWord(product) as int / 256 % 256 == 0x33
  {
    WordIs(product, 0x66ed586b, 0xa0c3336e);
  }

  lemma FirstPad(k: Word)
    requires k == 0xa253270a
    ensures Pad(k) == 0x33
  {
    assert WithBit1(k) == k;
    FirstProduct(0xa253270a * 0xa253270b);
    PadTo(k, 0xa253270a, 0xa253270a * 0xa253270b, 0x33);
  }

  lemma OneKeyOneByte<K, B>(c: Cipher<K, B>, k: K, x: B, b: B)
    ensures Encode(c, Advance(c, k, [x]), [b]) == [c.mix(c.pad(c.next(k, x)), b)]
  {
    assert [x][..0] == [] && [b][..0] == [];
    assert Advance(c, k, [x]) == c.next(k, x);
  }

  /** Under the password "a" a first plain byte of zero becomes 33 in hexadecimal. */
  lemma KnownAnswer()
    ensures Encode(PKWARE, Advance(PKWARE, START, [0x61]), [0]) == [0x33]
  {
    OneKeyOneByte(PKWARE, START, 0x61, 0);
    FirstUpdate();
    FirstPad((0xa253270a as bv32) as Word);
    XorSwap(0x33, 0);
    XorZero(0x33);
  }

  /** The round trip of the traditional PKWARE encryption. */
  method PkwareRoundTrip(password: seq<Byte>, random: seq<Byte>, verify1: Byte, verify2: Byte, version: nat,
                         chunks: seq<seq<Byte>>)
    returns (err: int, data: seq<Byte>)
    requires |random| == 10
    ensures err == MZ_OK && data == Flatten(chunks)
  {
    PkwareUndoes();
    err, data := RoundTrip(PKWARE, START, password, random, verify1, verify2, version, chunks);
  }
}
