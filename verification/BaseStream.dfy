/** The stream underneath (external/minizip-ng-4.2.1/mz_strm.c and mz_strm_os_posix.c): a file with a
    position. Reads are short only at the end of the file, writes are complete, and a write beyond the
    end fills the gap with zeros. */
module BaseStreams {
  import opened Powers

  newtype Byte = x: int | 0 <= x < 256

  const MZ_OK: int := 0
  const MZ_PARAM_ERROR: int := -102
  const MZ_FORMAT_ERROR: int := -103
  const MZ_CRC_ERROR: int := -105
  const MZ_EXIST_ERROR: int := -107
  const MZ_PASSWORD_ERROR: int := -108
  const MZ_OPEN_ERROR: int := -111
  const MZ_SEEK_ERROR: int := -113
  const MZ_READ_ERROR: int := -115
  const MZ_WRITE_ERROR: int := -116

  /** Exclusive or of two numbers, bit by bit. */
  function XorNat(a: nat, b: nat): nat
    decreases a + b
  {
    if a == 0 && b == 0 then 0 else (if a % 2 == b % 2 then 0 else 1) + 2 * XorNat(a / 2, b / 2)
  }

  lemma {:induction false} XorNatBound(a: nat, b: nat, n: nat)
    requires a < Pow2(n) && b < Pow2(n)
    ensures XorNat(a, b) < Pow2(n)
  {
    if n == 0 {
    } else {
      XorNatBound(a / 2, b / 2, n - 1);
    }
  }

  lemma {:induction false} XorNatTwice(a: nat, b: nat)
    ensures XorNat(XorNat(a, b), b) == a
    decreases a + b
  {
    if a == 0 && b == 0 {
    } else {
      XorNatTwice(a / 2, b / 2);
      var x := XorNat(a, b);
      assert x / 2 == XorNat(a / 2, b / 2) && x % 2 == if a % 2 == b % 2 then 0 else 1;
    }
  }

  lemma {:induction false} XorNatZero(b: nat)
    ensures XorNat(0, b) == b
  {
    if b == 0 {
    } else {
      XorNatZero(b / 2);
    }
  }

  lemma {:induction false} XorNatSwap(a: nat, b: nat)
    ensures XorNat(a, b) == XorNat(b, a)
    decreases a + b
  {
    if a == 0 && b == 0 {
    } else {
      XorNatSwap(a / 2, b / 2);
    }
  }

  /** Bit `i` of a number is one. */
  ghost predicate BitAt(a: nat, i: nat)
    decreases i
  {
    if i == 0 then a % 2 == 1 else BitAt(a / 2, i - 1)
  }

  /** A number is known by its bits. */
  lemma {:induction false} SameBits(a: nat, b: nat)
    requires forall i: nat :: BitAt(a, i) <==> BitAt(b, i)
    ensures a == b
    decreases a + b
  {
    assert BitAt(a, 0) <==> BitAt(b, 0);
    if a == 0 && b == 0 {
    } else {
      forall i: nat ensures BitAt(a / 2, i) <==> BitAt(b / 2, i) {
        assert BitAt(a, i + 1) <==> BitAt(b, i + 1);
      }
      SameBits(a / 2, b / 2);
    }
  }

  /** A bit of the result is one exactly if the two bits differ. */
  lemma {:induction false} XorNatBits(a: nat, b: nat, i: nat)
    ensures BitAt(XorNat(a, b), i) <==> BitAt(a, i) != BitAt(b, i)
    decreases i
  {
    var x := XorNat(a, b);
    assert x / 2 == XorNat(a / 2, b / 2) && x % 2 == if a % 2 == b % 2 then 0 else 1;
    if i == 0 {
    } else {
      XorNatBits(a / 2, b / 2, i - 1);
    }
  }

  /** Bitwise exclusive or. */
  function Xor(a: Byte, b: Byte): Byte {
    assert Pow2(8) == 256;
    XorNatBound(a as int, b as int, 8);
    XorNat(a as int, b as int) as Byte
  }

  lemma XorBits(a: Byte, b: Byte, i: nat)
    ensures BitAt(Xor(a, b) as int, i) <==> BitAt(a as int, i) != BitAt(b as int, i)
  {
    XorNatBits(a as int, b as int, i);
  }

  lemma XorTwice(a: Byte, b: Byte)
    ensures Xor(Xor(a, b), b) == a
  {
    XorNatTwice(a as int, b as int);
  }

  lemma XorSwap(a: Byte, b: Byte)
    ensures Xor(a, b) == Xor(b, a)
  {
    XorNatSwap(a as int, b as int);
  }

  lemma XorZero(b: Byte)
    ensures Xor(0, b) == b
  {
    XorNatZero(b as int);
  }

  /** `content` after writing `data` at `pos`, with `gap` where nothing was. */
  function WrittenOver<B>(content: seq<B>, pos: nat, data: seq<B>, gap: B): seq<B> {
    if data == [] then content
    else seq(if pos + |data| < |content| then |content| else pos + |data|,
             i requires 0 <= i =>
               if pos <= i < pos + |data| then data[i - pos] else if i < |content| then content[i] else gap)
  }

  /** `content` after writing `data` at `pos`. */
  function Overlay(content: seq<Byte>, pos: nat, data: seq<Byte>): seq<Byte> {
    WrittenOver(content, pos, data, 0)
  }

  /** Up to `size` bytes from `pos` on. */
  function Slice(content: seq<Byte>, pos: nat, size: nat): (r: seq<Byte>)
    ensures |r| <= size
  {
    if pos >= |content| then []
    else if pos + size <= |content| then content[pos..pos + size]
    else content[pos..]
  }

  /** `r` is `content` with `data` written at `pos`, place by place. */
  ghost predicate IsWrittenOver<B>(r: seq<B>, content: seq<B>, pos: nat, data: seq<B>, gap: B) {
    && |r| == (if pos + |data| < |content| then |content| else pos + |data|)
    && forall i :: 0 <= i < |r| ==>
         r[i] == if pos <= i < pos + |data| then data[i - pos] else if i < |content| then content[i] else gap
  }

  lemma WrittenOverIs<B>(content: seq<B>, pos: nat, data: seq<B>, gap: B)
    requires data != []
    ensures IsWrittenOver(WrittenOver(content, pos, data, gap), content, pos, data, gap)
  {
  }

  lemma WrittenOverUnique<B>(r: seq<B>, content: seq<B>, pos: nat, data: seq<B>, gap: B)
    requires data != [] && IsWrittenOver(r, content, pos, data, gap)
    ensures r == WrittenOver(content, pos, data, gap)
  {
    WrittenOverIs(content, pos, data, gap);
  }

  lemma TwoWrites<B>(content: seq<B>, pos: nat, data: seq<B>, at: nat, more: seq<B>, gap: B, once: seq<B>,
                     joined: seq<B>, l: seq<B>)
    requires at <= |data|
    requires IsWrittenOver(once, content, pos, data, gap) && IsWrittenOver(l, once, pos + at, more, gap)
    requires IsWrittenOver(joined, data, at, more, gap)
    ensures IsWrittenOver(l, content, pos, joined, gap)
  {
    forall i | 0 <= i < |l|
      ensures l[i] == if pos <= i < pos + |joined| then joined[i - pos] else if i < |content| then content[i] else gap
    {
      if pos <= i < pos + |joined| && !(pos + at <= i < pos + at + |more|) {
        assert joined[i - pos] == data[i - pos];
      }
    }
  }

  lemma InsideFrom<B>(content: seq<B>, pos: nat, data: seq<B>, at: nat, more: seq<B>, gap: B, once: seq<B>,
                      joined: seq<B>)
    requires at <= |data| && more != [] && joined != []
    requires IsWrittenOver(once, content, pos, data, gap) && IsWrittenOver(joined, data, at, more, gap)
    ensures WrittenOver(once, pos + at, more, gap) == WrittenOver(content, pos, joined, gap)
  {
    var l := WrittenOver(once, pos + at, more, gap);
    WrittenOverIs(once, pos + at, more, gap);
    TwoWrites(content, pos, data, at, more, gap, once, joined, l);
    WrittenOverUnique(l, content, pos, joined, gap);
  }

  lemma WrittenInside<B>(content: seq<B>, pos: nat, data: seq<B>, at: nat, more: seq<B>, gap: B)
    requires at <= |data|
    ensures WrittenOver(WrittenOver(content, pos, data, gap), pos + at, more, gap) ==
            WrittenOver(content, pos, WrittenOver(data, at, more, gap), gap)
  {
    if data != [] && more != [] {
      WrittenOverIs(content, pos, data, gap);
      WrittenOverIs(data, at, more, gap);
      InsideFrom(content, pos, data, at, more, gap, WrittenOver(content, pos, data, gap),
          WrittenOver(data, at, more, gap));
    } else if more != [] {
      assert WrittenOver(data, at, more, gap) == more;
    }
  }

  /** A write beyond the end fills the gap with zeros. */
  lemma OverlayGap(content: seq<Byte>, pos: nat, data: seq<Byte>, i: nat)
    requires data != [] && |content| <= i < pos
    ensures i < |Overlay(content, pos, data)| && Overlay(content, pos, data)[i] == 0
  {
    WrittenOverIs(content, pos, data, 0);
  }

  /** A second write that starts inside the first, or just behind it, is one bigger write. */
  lemma OverlayInside(content: seq<Byte>, pos: nat, data: seq<Byte>, at: nat, more: seq<Byte>)
    requires at <= |data|
    ensures Overlay(Overlay(content, pos, data), pos + at, more) == Overlay(content, pos, Overlay(data, at, more))
  {
    WrittenInside(content, pos, data, at, more, 0);
  }

  /** Writing the pieces of `data` one behind the other. */
  lemma OverlayAppend(content: seq<Byte>, pos: nat, data: seq<Byte>, a: nat, b: nat)
    requires a <= b <= |data|
    ensures Overlay(Overlay(content, pos, data[..a]), pos + a, data[a..b]) == Overlay(content, pos, data[..b])
  {
    OverlayInside(content, pos, data[..a], a, data[a..b]);
    assert Overlay(data[..a], a, data[a..b]) == data[..b];
  }

  /** `data` is what a read of its length delivers. */
  ghost predicate IsSlice(content: seq<Byte>, pos: nat, data: seq<Byte>) {
    data == Slice(content, pos, |data|)
  }

  lemma SliceAppend(content: seq<Byte>, pos: nat, a: seq<Byte>, b: seq<Byte>)
    requires IsSlice(content, pos, a) && IsSlice(content, pos + |a|, b)
    ensures IsSlice(content, pos, a + b)
  {
  }

  /** At the end of the file, asking for more gives no more. */
  lemma SliceAtEnd(content: seq<Byte>, pos: nat, a: seq<Byte>, size: nat)
    requires IsSlice(content, pos, a) && |a| <= size && pos + |a| >= |content|
    ensures Slice(content, pos, size) == a
  {
  }

  lemma SliceJoin<T>(s: seq<T>, a: nat, b: nat, c: nat)
    requires a <= b <= c <= |s|
    ensures s[a..b] + s[b..c] == s[a..c]
  {
  }

  lemma PrefixJoin<T>(s: seq<T>, a: nat, b: nat)
    requires a <= b <= |s|
    ensures s[..a] + s[a..b] == s[..b]
  {
  }

  lemma AppendAssoc<T>(a: seq<T>, b: seq<T>, c: seq<T>)
    ensures (a + b) + c == a + (b + c)
  {
  }

  lemma SliceOfSlice<T>(s: seq<T>, lo: nat, hi: nat, a: nat, b: nat)
    requires lo <= hi <= |s| && a <= b <= hi - lo
    ensures s[lo..hi][a..b] == s[lo + a..lo + b]
  {
    forall i | 0 <= i < b - a ensures s[lo..hi][a..b][i] == s[lo + a..lo + b][i] {
    }
  }

  /** The pieces one behind the other. */
  ghost function Flatten<B>(chunks: seq<seq<B>>): seq<B> {
    if chunks == [] then [] else Flatten(chunks[..|chunks| - 1]) + chunks[|chunks| - 1]
  }

  lemma FlattenNext<B>(chunks: seq<seq<B>>, i: nat)
    requires i < |chunks|
    ensures Flatten(chunks[..i]) + chunks[i] == Flatten(chunks[..i + 1])
  {
    assert chunks[..i + 1][..i] == chunks[..i];
  }

  lemma FlattenStep<B>(header: seq<B>, chunks: seq<seq<B>>, i: nat)
    requires i < |chunks|
    ensures header + Flatten(chunks[..i]) + chunks[i] == header + Flatten(chunks[..i + 1])
  {
    assert chunks[..i + 1][..i] == chunks[..i];
  }

  /** `memcpy` into a buffer. */
  method CopyInto(buf: array<Byte>, at: nat, data: seq<Byte>)
    requires at + |data| <= buf.Length
    modifies buf
    ensures buf[..] == old(buf[..at]) + data + old(buf[at + |data|..])
  {
    forall i | 0 <= i < |data| {
      buf[at + i] := data[i];
    }
  }

  method CopyToFront(buf: array<Byte>, data: seq<Byte>)
    requires |data| <= buf.Length
    modifies buf
    ensures buf[..|data|] == data && buf[|data|..] == old(buf[|data|..])
  {
    CopyInto(buf, 0, data);
  }

  lemma ArraySlice(a: array<Byte>, len: nat, lo: nat, hi: nat)
    requires lo <= hi <= len <= a.Length
    ensures a[..len][lo..hi] == a[lo..hi]
  {
    forall i | 0 <= i < hi - lo ensures a[..len][lo..hi][i] == a[lo..hi][i] {
    }
  }

  /** A read of a stream that stands inside its content: short only at the end. */
  method TakeFrom<B>(content: seq<B>, pos: nat, size: nat) returns (got: seq<B>)
    requires pos <= |content|
    ensures |got| <= size && pos + |got| <= |content| && got == content[pos..pos + |got|]
    ensures |got| < size ==> pos + |got| == |content|
  {
    var n := if size < |content| - pos then size else |content| - pos;
    got := content[pos..pos + n];
  }

  class BaseStream {
    var content: seq<Byte>
    var pos: nat

    constructor (content: seq<Byte>)
      ensures this.content == content && pos == 0
    {
      this.content, pos := content, 0;
    }

    method Read(size: nat) returns (data: seq<Byte>)
      modifies this`pos
      ensures data == Slice(content, old(pos), size) && pos == old(pos) + |data|
    {
      data := Slice(content, pos, size);
      pos := pos + |data|;
    }

    method Write(data: seq<Byte>) returns (written: int)
      modifies this
      ensures written == |data|
      ensures content == Overlay(old(content), old(pos), data) && pos == old(pos) + |data|
    {
      content := Overlay(content, pos, data);
      pos := pos + |data|;
      written := |data|;
    }

    /** `mz_stream_seek` with `MZ_SEEK_SET`. */
    method Seek(offset: int) returns (err: int)
      modifies this`pos
      ensures if offset < 0 then err == MZ_SEEK_ERROR && pos == old(pos) else err == MZ_OK && pos == offset
    {
      if offset < 0 {
        return MZ_SEEK_ERROR;
      }
      pos := offset;
      return MZ_OK;
    }
  }
}
