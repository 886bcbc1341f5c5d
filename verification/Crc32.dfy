/** The cyclic redundancy check (external/minizip-ng-4.2.1/mz_crypt.c, mz_crypt_crc32_update without zlib
    or lzma) against the bit-by-bit definition in section 8 of RFC 1952. */
module Crc32 {
  /** One bit of the reflected division by the polynomial. */
  function BitStep(v: bv32): bv32 {
    if v & 1 == 1 then 0xEDB88320 ^ (v >> 1) else v >> 1
  }

  function Iterate<T>(f: T -> T, v: T, n: nat): T
    decreases n
  {
    if n == 0 then v else Iterate(f, f(v), n - 1)
  }

  function EightSteps(v: bv32): bv32 {
    Iterate(BitStep, v, 8)
  }

  /** Divide one more byte, least significant bit first. */
  function ByteStep(v: bv32, b: bv8): bv32 {
    EightSteps(v ^ (b as bv32))
  }

  /** Feed a sequence of bytes to any per-byte step. */
  function Feed<W, B>(step: (W, B) -> W, v: W, data: seq<B>): W {
    if data == [] then v else step(Feed(step, v, data[..|data| - 1]), data[|data| - 1])
  }

  /** A checksum that inverts its value before and after. */
  function Inverted<W, B>(step: (W, B) -> W, not: W -> W, value: W, data: seq<B>): W {
    not(Feed(step, not(value), data))
  }

  function Not32(v: bv32): bv32 {
    !v
  }

  /** The checksum of section 8 of RFC 1952, continued from `value`. */
  function Crc(value: bv32, data: seq<bv8>): bv32 {
    Inverted(ByteStep, Not32, value, data)
  }

  // ----- the division is linear

  lemma ShiftXor(a: bv32, b: bv32)
    ensures (a ^ b) >> 1 == (a >> 1) ^ (b >> 1)
    ensures (a ^ b) & 1 == (a & 1) ^ (b & 1)
    ensures a & 1 == 0 || a & 1 == 1
  {
  }

  lemma XorMoves(p: bv32, x: bv32, y: bv32)
    ensures p ^ (x ^ y) == (p ^ x) ^ y == x ^ (p ^ y)
    ensures x ^ y == (p ^ x) ^ (p ^ y)
  {
  }

  lemma BitStepLinear(a: bv32, b: bv32)
    ensures BitStep(a ^ b) == BitStep(a) ^ BitStep(b)
  {
    ShiftXor(a, b);
    ShiftXor(b, a);
    XorMoves(0xEDB88320, a >> 1, b >> 1);
  }

  function Xor32(u: bv32, v: bv32): bv32 {
    u ^ v
  }

  ghost predicate IsLinear<T(!new)>(f: T -> T, plus: (T, T) -> T) {
    forall u, v :: f(plus(u, v)) == plus(f(u), f(v))
  }

  lemma {:induction false} IterateLinear<T(!new)>(f: T -> T, plus: (T, T) -> T, a: T, b: T, n: nat)
    requires IsLinear(f, plus)
    ensures Iterate(f, plus(a, b), n) == plus(Iterate(f, a, n), Iterate(f, b, n))
    decreases n
  {
    if n == 0 {
    } else {
      IterateLinear(f, plus, f(a), f(b), n - 1);
    }
  }

  lemma BitStepIsLinear()
    ensures forall u, v {:trigger Xor32(u, v)} :: BitStep(Xor32(u, v)) == Xor32(BitStep(u), BitStep(v))
  {
    forall u, v ensures BitStep(Xor32(u, v)) == Xor32(BitStep(u), BitStep(v)) {
      BitStepLinear(u, v);
    }
  }

  lemma HandleIsLinear()
    ensures IsLinear(BitStep, Xor32)
  {
    BitStepIsLinear();
  }

  lemma IterateBitStepLinear(a: bv32, b: bv32, n: nat)
    ensures Iterate(BitStep, Xor32(a, b), n) == Xor32(Iterate(BitStep, a, n), Iterate(BitStep, b, n))
  {
    HandleIsLinear();
    IterateLinear(BitStep, Xor32, a, b, n);
  }

  lemma EightStepsLinear(a: bv32, b: bv32)
    ensures EightSteps(Xor32(a, b)) == Xor32(EightSteps(a), EightSteps(b))
  {
    IterateBitStepLinear(a, b, 8);
  }

  // ----- the table

  /** The table of 256 entries, in rows of 16. */
  const ROW0: seq<bv32> := [
    0x00000000, 0x77073096, 0xee0e612c, 0x990951ba, 0x076dc419, 0x706af48f, 0xe963a535, 0x9e6495a3,
    0x0edb8832, 0x79dcb8a4, 0xe0d5e91e, 0x97d2d988, 0x09b64c2b, 0x7eb17cbd, 0xe7b82d07, 0x90bf1d91
  ]
  const ROW1: seq<bv32> := [
    0x1db71064, 0x6ab020f2, 0xf3b97148, 0x84be41de, 0x1adad47d, 0x6ddde4eb, 0xf4d4b551, 0x83d385c7,
    0x136c9856, 0x646ba8c0, 0xfd62f97a, 0x8a65c9ec, 0x14015c4f, 0x63066cd9, 0xfa0f3d63, 0x8d080df5
  ]
  const ROW2: seq<bv32> := [
    0x3b6e20c8, 0x4c69105e, 0xd56041e4, 0xa2677172, 0x3c03e4d1, 0x4b04d447, 0xd20d85fd, 0xa50ab56b,
    0x35b5a8fa, 0x42b2986c, 0xdbbbc9d6, 0xacbcf940, 0x32d86ce3, 0x45df5c75, 0xdcd60dcf, 0xabd13d59
  ]
  const ROW3: seq<bv32> := [
    0x26d930ac, 0x51de003a, 0xc8d75180, 0xbfd06116, 0x21b4f4b5, 0x56b3c423, 0xcfba9599, 0xb8bda50f,
    0x2802b89e, 0x5f058808, 0xc60cd9b2, 0xb10be924, 0x2f6f7c87, 0x58684c11, 0xc1611dab, 0xb6662d3d
  ]
  const ROW4: seq<bv32> := [
    0x76dc4190, 0x01db7106, 0x98d220bc, 0xefd5102a, 0x71b18589, 0x06b6b51f, 0x9fbfe4a5, 0xe8b8d433,
    0x7807c9a2, 0x0f00f934, 0x9609a88e, 0xe10e9818, 0x7f6a0dbb, 0x086d3d2d, 0x91646c97, 0xe6635c01
  ]
  const ROW5: seq<bv32> := [
    0x6b6b51f4, 0x1c6c6162, 0x856530d8, 0xf262004e, 0x6c0695ed, 0x1b01a57b, 0x8208f4c1, 0xf50fc457,
    0x65b0d9c6, 0x12b7e950, 0x8bbeb8ea, 0xfcb9887c, 0x62dd1ddf, 0x15da2d49, 0x8cd37cf3, 0xfbd44c65
  ]
  const ROW6: seq<bv32> := [
    0x4db26158, 0x3ab551ce, 0xa3bc0074, 0xd4bb30e2, 0x4adfa541, 0x3dd895d7, 0xa4d1c46d, 0xd3d6f4fb,
    0x4369e96a, 0x346ed9fc, 0xad678846, 0xda60b8d0, 0x44042d73, 0x33031de5, 0xaa0a4c5f, 0xdd0d7cc9
  ]
  const ROW7: seq<bv32> := [
    0x5005713c, 0x270241aa, 0xbe0b1010, 0xc90c2086, 0x5768b525, 0x206f85b3, 0xb966d409, 0xce61e49f,
    0x5edef90e, 0x29d9c998, 0xb0d09822, 0xc7d7a8b4, 0x59b33d17, 0x2eb40d81, 0xb7bd5c3b, 0xc0ba6cad
  ]
  const ROW8: seq<bv32> := [
    0xedb88320, 0x9abfb3b6, 0x03b6e20c, 0x74b1d29a, 0xead54739, 0x9dd277af, 0x04db2615, 0x73dc1683,
    0xe3630b12, 0x94643b84, 0x0d6d6a3e, 0x7a6a5aa8, 0xe40ecf0b, 0x9309ff9d, 0x0a00ae27, 0x7d079eb1
  ]
  const ROW9: seq<bv32> := [
    0xf00f9344, 0x8708a3d2, 0x1e01f268, 0x6906c2fe, 0xf762575d, 0x806567cb, 0x196c3671, 0x6e6b06e7,
    0xfed41b76, 0x89d32be0, 0x10da7a5a, 0x67dd4acc, 0xf9b9df6f, 0x8ebeeff9, 0x17b7be43, 0x60b08ed5
  ]
  const ROW10: seq<bv32> := [
    0xd6d6a3e8, 0xa1d1937e, 0x38d8c2c4, 0x4fdff252, 0xd1bb67f1, 0xa6bc5767, 0x3fb506dd, 0x48b2364b,
    0xd80d2bda, 0xaf0a1b4c, 0x36034af6, 0x41047a60, 0xdf60efc3, 0xa867df55, 0x316e8eef, 0x4669be79
  ]
  const ROW11: seq<bv32> := [
    0xcb61b38c, 0xbc66831a, 0x256fd2a0, 0x5268e236, 0xcc0c7795, 0xbb0b4703, 0x220216b9, 0x5505262f,
    0xc5ba3bbe, 0xb2bd0b28, 0x2bb45a92, 0x5cb36a04, 0xc2d7ffa7, 0xb5d0cf31, 0x2cd99e8b, 0x5bdeae1d
  ]
  const ROW12: seq<bv32> := [
    0x9b64c2b0, 0xec63f226, 0x756aa39c, 0x026d930a, 0x9c0906a9, 0xeb0e363f, 0x72076785, 0x05005713,
    0x95bf4a82, 0xe2b87a14, 0x7bb12bae, 0x0cb61b38, 0x92d28e9b, 0xe5d5be0d, 0x7cdcefb7, 0x0bdbdf21
  ]
  const ROW13: seq<bv32> := [
    0x86d3d2d4, 0xf1d4e242, 0x68ddb3f8, 0x1fda836e, 0x81be16cd, 0xf6b9265b, 0x6fb077e1, 0x18b74777,
    0x88085ae6, 0xff0f6a70, 0x66063bca, 0x11010b5c, 0x8f659eff, 0xf862ae69, 0x616bffd3, 0x166ccf45
  ]
  const ROW14: seq<bv32> := [
    0xa00ae278, 0xd70dd2ee, 0x4e048354, 0x3903b3c2, 0xa7672661, 0xd06016f7, 0x4969474d, 0x3e6e77db,
    0xaed16a4a, 0xd9d65adc, 0x40df0b66, 0x37d83bf0, 0xa9bcae53, 0xdebb9ec5, 0x47b2cf7f, 0x30b5ffe9
  ]
  const ROW15: seq<bv32> := [
    0xbdbdf21c, 0xcabac28a, 0x53b39330, 0x24b4a3a6, 0xbad03605, 0xcdd70693, 0x54de5729, 0x23d967bf,
    0xb3667a2e, 0xc4614ab8, 0x5d681b02, 0x2a6f2b94, 0xb40bbe37, 0xc30c8ea1, 0x5a05df1b, 0x2d02ef8d
  ]

  function Row(r: nat): (row: seq<bv32>)
    requires r < 16
    ensures |row| == 16
  {
    match r
    case 0 => ROW0
    case 1 => ROW1
    case 2 => ROW2
    case 3 => ROW3
    case 4 => ROW4
    case 5 => ROW5
    case 6 => ROW6
    case 7 => ROW7
    case 8 => ROW8
    case 9 => ROW9
    case 10 => ROW10
    case 11 => ROW11
    case 12 => ROW12
    case 13 => ROW13
    case 14 => ROW14
    case _ => ROW15
  }

  lemma Nibbles(i: bv32)
    requires i < 256
    ensures i >> 4 < 16 && i & 15 < 16 && Xor32((i >> 4) << 4, i & 15) == i
  {
  }

  lemma NibbleIndex(c: bv32)
    requires c < 16
    ensures c as int < 16
  {
  }

  /** Indexing the table by a byte. */
  function Lookup(i: bv32): bv32
    requires i < 256
  {
    Nibbles(i);
    NibbleIndex(i >> 4);
    NibbleIndex(i & 15);
    Row((i >> 4) as int)[(i & 15) as int]
  }

  /** A row of 16 with `h` added to every entry. */
  function Moved<T>(plus: (T, T) -> T, h: T, row: seq<T>): (r: seq<T>)
    requires |row| == 16
    ensures |r| == 16
  {
    [ plus(h, row[0]), plus(h, row[1]), plus(h, row[2]), plus(h, row[3]),
      plus(h, row[4]), plus(h, row[5]), plus(h, row[6]), plus(h, row[7]),
      plus(h, row[8]), plus(h, row[9]), plus(h, row[10]), plus(h, row[11]),
      plus(h, row[12]), plus(h, row[13]), plus(h, row[14]), plus(h, row[15]) ]
  }

  lemma MovedAt<T>(plus: (T, T) -> T, h: T, row: seq<T>, c: nat)
    requires |row| == 16 && c < 16
    ensures Moved(plus, h, row)[c] == plus(h, row[c])
  {
  }

  lemma FirstRow(c: bv32)
    requires c < 16
    ensures c as int < 16 && ROW0[c as int] == EightSteps(c)
  {
  }

  /** Every row is the first one moved by its head. */
  lemma RowsMoved()
    ensures ROW0 == Moved(Xor32, ROW0[0], ROW0) && ROW1 == Moved(Xor32, ROW1[0], ROW0)
    ensures ROW2 == Moved(Xor32, ROW2[0], ROW0) && ROW3 == Moved(Xor32, ROW3[0], ROW0)
    ensures ROW4 == Moved(Xor32, ROW4[0], ROW0) && ROW5 == Moved(Xor32, ROW5[0], ROW0)
    ensures ROW6 == Moved(Xor32, ROW6[0], ROW0) && ROW7 == Moved(Xor32, ROW7[0], ROW0)
    ensures ROW8 == Moved(Xor32, ROW8[0], ROW0) && ROW9 == Moved(Xor32, ROW9[0], ROW0)
    ensures ROW10 == Moved(Xor32, ROW10[0], ROW0) && ROW11 == Moved(Xor32, ROW11[0], ROW0)
    ensures ROW12 == Moved(Xor32, ROW12[0], ROW0) && ROW13 == Moved(Xor32, ROW13[0], ROW0)
    ensures ROW14 == Moved(Xor32, ROW14[0], ROW0) && ROW15 == Moved(Xor32, ROW15[0], ROW0)
  {
  }

  lemma RowMoved(r: nat)
    requires r < 16
    ensures Row(r) == Moved(Xor32, Row(r)[0], ROW0)
  {
    RowsMoved();
  }

  lemma Entry(r: nat, c: nat)
    requires r < 16 && c < 16
    ensures Row(r)[c] == Xor32(Row(r)[0], ROW0[c])
  {
    RowMoved(r);
    MovedAt(Xor32, Row(r)[0], ROW0, c);
  }

  lemma RowHead(r: bv32)
    requires r < 16
    ensures r as int < 16 && Row(r as int)[0] == EightSteps(r << 4)
  {
  }

  /** Every entry of the table is what eight steps make of its index. */
  lemma LookupCorrect(i: bv32)
    requires i < 256
    ensures Lookup(i) == EightSteps(i)
  {
    var r, c := i >> 4, i & 15;
    Nibbles(i);
    RowHead(r);
    FirstRow(c);
    Entry(r as int, c as int);
    EightStepsLinear(r << 4, c);
  }

  // ----- the loop

  lemma Bytes(x: bv32)
    ensures Xor32((x >> 8) << 8, x & 0xFF) == x && (x >> 8) & 0xFFFFFF == x >> 8 && x & 0xFF < 256
  {
  }

  lemma HighBytesPass(x: bv32)
    ensures EightSteps((x >> 8) << 8) == x >> 8
  {
  }

  /** Eight steps shift the upper bytes down and use only the lowest one. */
  lemma LowestByteDecides(x: bv32)
    ensures EightSteps(x) == Xor32(x >> 8, EightSteps(x & 0xFF))
  {
    Bytes(x);
    EightStepsLinear((x >> 8) << 8, x & 0xFF);
    HighBytesPass(x);
  }

  lemma UpperBytesUnaffected(v: bv32, b: bv8)
    ensures (v ^ (b as bv32)) >> 8 == v >> 8
  {
  }

  /** One turn of the table-driven loop, with whatever table. */
  function StepWith(table: bv32 -> bv32, value: bv32, b: bv8): bv32 {
    (value >> 8) ^ table((value ^ (b as bv32)) & 0xFF)
  }

  lemma StepWithIs(eight: bv32 -> bv32, table: bv32 -> bv32, value: bv32, b: bv8)
    requires var x := value ^ (b as bv32);
             eight(x) == Xor32(x >> 8, eight(x & 0xFF)) && table(x & 0xFF) == eight(x & 0xFF)
    ensures StepWith(table, value, b) == eight(value ^ (b as bv32))
  {
    UpperBytesUnaffected(value, b);
  }

  lemma StepWithCorrect(table: bv32 -> bv32, value: bv32, b: bv8)
    requires table((value ^ (b as bv32)) & 0xFF) == EightSteps((value ^ (b as bv32)) & 0xFF)
    ensures StepWith(table, value, b) == ByteStep(value, b)
  {
    LowestByteDecides(value ^ (b as bv32));
    StepWithIs(EightSteps, table, value, b);
  }

  function TableEntry(i: bv32): bv32 {
    if i < 256 then Lookup(i) else 0
  }

  function TableStep(value: bv32, b: bv8): bv32 {
    StepWith(TableEntry, value, b)
  }

  lemma TableEntryCorrect(x: bv32)
    ensures TableEntry(x & 0xFF) == EightSteps(x & 0xFF)
  {
    Bytes(x);
    LookupCorrect(x & 0xFF);
  }

  lemma TableStepCorrect(value: bv32, b: bv8)
    ensures TableStep(value, b) == ByteStep(value, b)
  {
    TableEntryCorrect(value ^ (b as bv32));
    StepWithCorrect(TableEntry, value, b);
  }

  ghost predicate SameSteps<W(!new), B(!new)>(s: (W, B) -> W, t: (W, B) -> W) {
    forall w, b :: s(w, b) == t(w, b)
  }

  lemma TableStepIsByteStep()
    ensures SameSteps(TableStep, ByteStep)
  {
    forall w: bv32, b: bv8 ensures TableStep(w, b) == ByteStep(w, b) {
      TableStepCorrect(w, b);
    }
  }

  lemma {:induction false} FeedSame<W(!new), B(!new)>(s: (W, B) -> W, t: (W, B) -> W, v: W, data: seq<B>)
    requires SameSteps(s, t)
    ensures Feed(s, v, data) == Feed(t, v, data)
  {
    if data == [] {
    } else {
      FeedSame(s, t, v, data[..|data| - 1]);
    }
  }

  lemma InvertedSame<W(!new), B(!new)>(s: (W, B) -> W, t: (W, B) -> W, not: W -> W, value: W, data: seq<B>)
    requires SameSteps(s, t)
    ensures Inverted(s, not, value, data) == Inverted(t, not, value, data)
  {
    FeedSame(s, t, not(value), data);
  }

  /** The loop over the buffer. */
  method UpdateWith<W, B>(step: (W, B) -> W, not: W -> W, value: W, buf: seq<B>) returns (r: W)
    ensures r == Inverted(step, not, value, buf)
  {
    r := not(value);
    for i := 0 to |buf|
      invariant r == Feed(step, not(value), buf[..i])
    {
      assert buf[..i + 1][..i] == buf[..i];
      r := step(r, buf[i]);
    }
    assert buf[..|buf|] == buf;
    r := not(r);
  }

  /** The table-driven checksum is the bit-by-bit one. */
  method Crc32Update(value: bv32, buf: seq<bv8>) returns (r: bv32)
    ensures r == Crc(value, buf)
  {
    r := UpdateWith(TableStep, Not32, value, buf);
    TableStepIsByteStep();
    InvertedSame(TableStep, ByteStep, Not32, value, buf);
  }

  lemma {:induction false} FeedAppend<W, B>(step: (W, B) -> W, v: W, a: seq<B>, b: seq<B>)
    ensures Feed(step, v, a + b) == Feed(step, Feed(step, v, a), b)
  {
    if b == [] {
      assert a + b == a;
    } else {
      FeedAppend(step, v, a, b[..|b| - 1]);
      assert (a + b)[..|a + b| - 1] == a + b[..|b| - 1];
    }
  }

  lemma InvertedChains<W(!new), B>(step: (W, B) -> W, not: W -> W, value: W, a: seq<B>, b: seq<B>)
    requires forall w :: not(not(w)) == w
    ensures Inverted(step, not, Inverted(step, not, value, a), b) == Inverted(step, not, value, a + b)
  {
    FeedAppend(step, not(value), a, b);
  }

  /** Checksumming in pieces gives the checksum of the whole. */
  lemma CrcChains(value: bv32, a: seq<bv8>, b: seq<bv8>)
    ensures Crc(Crc(value, a), b) == Crc(value, a + b)
  {
    assert forall w :: Not32(Not32(w)) == w;
    InvertedChains(ByteStep, Not32, value, a, b);
  }

  // ----- the inversion, and a known answer

  /** Every bit of the value is flipped. */
  lemma NotFlips(v: bv32)
    ensures Xor32(v, Not32(v)) == 0xFFFFFFFF
  {
  }

  lemma FeedOne<W, B>(step: (W, B) -> W, v: W, b: B)
    ensures Feed(step, v, [b]) == step(v, b)
  {
    assert [b][..0] == [];
  }

  lemma FeedThree<W, B>(step: (W, B) -> W, v: W, x: B, y: B, z: B)
    ensures Feed(step, v, [x, y, z]) == step(step(step(v, x), y), z)
  {
    FeedOne(step, v, x);
    assert [x, y][..1] == [x] && [x, y, z][..2] == [x, y];
  }

  lemma FeedNine<W, B>(step: (W, B) -> W, v: W, a: seq<B>, b: seq<B>, c: seq<B>)
    ensures Feed(step, v, a + b + c) == Feed(step, Feed(step, Feed(step, v, a), b), c)
  {
    FeedAppend(step, v, a + b, c);
    FeedAppend(step, v, a, b);
  }

  lemma CheckFirst()
    ensures ByteStep(ByteStep(ByteStep(0xFFFFFFFF, 0x31), 0x32), 0x33) == 0x77b79c2d
  {
  }

  lemma CheckSecond()
    ensures ByteStep(ByteStep(ByteStep(0x77b79c2d, 0x34), 0x35), 0x36) == 0xf68d2c9e
  {
  }

  lemma CheckThird()
    ensures ByteStep(ByteStep(ByteStep(0xf68d2c9e, 0x37), 0x38), 0x39) == 0x340bc6d9
  {
  }

  /** The checksum of the digits 1 to 9. */
  lemma CheckValue()
    ensures Crc(0, [0x31, 0x32, 0x33, 0x34, 0x35, 0x36, 0x37, 0x38, 0x39]) == 0xCBF43926
  {
    var a: seq<bv8>, b: seq<bv8>, c: seq<bv8> := [0x31, 0x32, 0x33], [0x34, 0x35, 0x36], [0x37, 0x38, 0x39];
    assert [0x31, 0x32, 0x33, 0x34, 0x35, 0x36, 0x37, 0x38, 0x39] == a + b + c;
    FeedNine(ByteStep, 0xFFFFFFFF, a, b, c);
    FeedThree(ByteStep, 0xFFFFFFFF, 0x31, 0x32, 0x33);
    FeedThree(ByteStep, 0x77b79c2d, 0x34, 0x35, 0x36);
    FeedThree(ByteStep, 0xf68d2c9e, 0x37, 0x38, 0x39);
    CheckFirst();
    CheckSecond();
    CheckThird();
  }
}
