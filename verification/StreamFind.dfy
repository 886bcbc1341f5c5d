/** Searching a stream through a sliding window (external/minizip-ng-4.2.1/mz_strm.c, mz_stream_find). */
module StreamFind {
  import opened BaseStreams

  /** `MZ_STREAM_FIND_SIZE`. */
  const WINDOW: nat := 1024

  /** The conversion to `int32_t`. */
  function ToInt32(x: int): int {
    (x + 0x8000_0000) % 0x1_0000_0000 - 0x8000_0000
  }

  predicate Occurs(data: seq<Byte>, find: seq<Byte>, i: nat) {
    i + |find| <= |data| && data[i..i + |find|] == find
  }

  /** No occurrence starts before `k`. */
  ghost predicate NoneBefore(data: seq<Byte>, find: seq<Byte>, k: int) {
    forall i: nat :: i < k ==> !Occurs(data, find, i)
  }

  lemma OccursInPart(data: seq<Byte>, find: seq<Byte>, lo: nat, hi: nat, i: nat)
    requires lo <= hi <= |data| && lo + i + |find| <= hi
    ensures Occurs(data[lo..hi], find, i) <==> Occurs(data, find, lo + i)
  {
    SliceOfSlice(data, lo, hi, i, i + |find|);
  }

  /** What the window shows, carried over to the whole range. */
  lemma Carry(data: seq<Byte>, find: seq<Byte>, lo: nat, hi: nat, k: nat)
    requires lo <= hi <= |data| && NoneBefore(data, find, lo)
    requires lo + k + |find| <= hi + 1 && NoneBefore(data[lo..hi], find, k)
    ensures NoneBefore(data, find, lo + k)
  {
    forall i: nat | lo <= i < lo + k ensures !Occurs(data, find, i) {
      OccursInPart(data, find, lo, hi, i - lo);
    }
  }

  /** Compare the pattern with every place in the filled part of the window. */
  method Scan(buf: array<Byte>, len: nat, find: seq<Byte>) returns (found: bool, i: nat)
    requires |find| <= len <= buf.Length
    ensures found ==> Occurs(buf[..len], find, i) && NoneBefore(buf[..len], find, i)
    ensures !found ==> NoneBefore(buf[..len], find, len - |find| + 1)
  {
    i := 0;
    while i <= len - |find|
      invariant NoneBefore(buf[..len], find, i)
    {
      ArraySlice(buf, len, i, i + |find|);
      if buf[i..i + |find|] == find {
        return true, i;
      }
      i := i + 1;
    }
    return false, 0;
  }

  /** The bytes the search may look at: the next `maxSeek` ones. */
  ghost function Range(content: seq<Byte>, start: nat, maxSeek: int): seq<Byte> {
    Slice(content, start, if maxSeek < 0 then 0 else maxSeek)
  }

  /** Between two reads: `carried` bytes of the range, ending at `consumed`, are at the front of the window. */
  ghost predicate Between(range: seq<Byte>, find: seq<Byte>, buf: seq<Byte>, readPos: nat, bufPos: nat, readSize: nat,
                          first: bool) {
    && |find| < WINDOW == |buf|
    && Filled(range, buf, readPos, bufPos)
    && (first ==> readPos == bufPos == 0 && readSize == WINDOW)
    && (!first ==>
          && bufPos == |find| > 0
          && NoneBefore(range, find, readPos + 1)
          && readSize <= WINDOW - |find|
          && (readSize == WINDOW - |find| || readPos + bufPos == |range|))
  }

  /** The read size, cut to what is left of the range. */
  function Limited(readSize: int, rest: int): int {
    if readSize > ToInt32(rest) && rest < WINDOW then ToInt32(rest) else readSize
  }

  lemma LimitedIsMin(readSize: nat, rest: nat)
    requires readSize <= WINDOW
    ensures Limited(readSize, rest) == if readSize < rest then readSize else rest
  {
  }

  /** A read of `size` bytes, no more than are left of the range, gives the next bytes of the range. */
  lemma ReadGivesRange(content: seq<Byte>, start: nat, maxSeek: nat, consumed: nat, size: nat)
    requires consumed <= |Range(content, start, maxSeek)| && size <= maxSeek - consumed
    ensures var range := Range(content, start, maxSeek); var data := Slice(content, start + consumed, size);
            && consumed + |data| <= |range| && data == range[consumed..consumed + |data|]
            && (|data| < size || size == maxSeek - consumed ==> consumed + |data| == |range|)
  {
    var range := Range(content, start, maxSeek);
    var data := Slice(content, start + consumed, size);
    if start + consumed < |content| {
      assert range == content[start..start + |range|];
      assert data == content[start + consumed..start + consumed + |data|];
      SliceOfSlice(content, start, start + |range|, consumed, consumed + |data|);
    }
  }

  /** The first `len` bytes of the window are those of the range from `readPos` on. */
  ghost predicate Filled(range: seq<Byte>, buf: seq<Byte>, readPos: nat, len: nat) {
    len <= |buf| && readPos + len <= |range| && buf[..len] == range[readPos..readPos + len]
  }

  lemma FillWindow(range: seq<Byte>, buf: seq<Byte>, buf': seq<Byte>, readPos: nat, bufPos: nat, data: seq<Byte>)
    requires Filled(range, buf, readPos, bufPos) && bufPos + |data| <= |buf|
    requires readPos + bufPos + |data| <= |range| && data == range[readPos + bufPos..readPos + bufPos + |data|]
    requires buf' == buf[..bufPos] + data + buf[bufPos + |data|..]
    ensures Filled(range, buf', readPos, bufPos + |data|)
  {
    assert buf'[..bufPos + |data|] == buf[..bufPos] + data;
  }

  lemma ShiftWindow(range: seq<Byte>, buf: seq<Byte>, buf': seq<Byte>, readPos: nat, len: nat, keep: nat)
    requires Filled(range, buf, readPos, len) && keep <= len
    requires buf' == buf[len - keep..len] + buf[keep..]
    ensures Filled(range, buf', readPos + len - keep, keep)
  {
    assert buf'[..keep] == buf[len - keep..len];
    SliceOfSlice(buf, 0, len, len - keep, len);
    SliceOfSlice(range, readPos, readPos + len, len - keep, len);
    assert buf[0..len] == buf[..len];
  }

  lemma FoundInRange(range: seq<Byte>, find: seq<Byte>, buf: seq<Byte>, readPos: nat, len: nat, i: nat)
    requires Filled(range, buf, readPos, len) && NoneBefore(range, find, readPos)
    requires Occurs(buf[..len], find, i) && NoneBefore(buf[..len], find, i)
    ensures Occurs(range, find, readPos + i) && NoneBefore(range, find, readPos + i)
  {
    OccursInPart(range, find, readPos, readPos + len, i);
    Carry(range, find, readPos, readPos + len, i);
  }

  lemma NotInRange(range: seq<Byte>, find: seq<Byte>, upTo: nat)
    requires NoneBefore(range, find, upTo) && |range| < upTo + |find|
    ensures NoneBefore(range, find, |range|)
  {
  }

  lemma PatternNotEmpty(data: seq<Byte>, find: seq<Byte>, k: nat)
    requires NoneBefore(data, find, k) && k > 0
    ensures find != []
  {
    assert !Occurs(data, find, 0);
    assert data[0..0] == [];
  }

  /** Scan the window, and read the outcome as one about the range. */
  method ScanWindow(buf: array<Byte>, len: nat, find: seq<Byte>, ghost range: seq<Byte>, ghost readPos: nat)
    returns (found: bool, i: nat)
    requires |find| <= len <= buf.Length && Filled(range, buf[..], readPos, len) && NoneBefore(range, find, readPos)
    ensures found ==> i + |find| <= len && Occurs(range, find, readPos + i) && NoneBefore(range, find, readPos + i)
    ensures !found ==> find != [] && NoneBefore(range, find, readPos + len - |find| + 1)
  {
    assert buf[..len] == buf[..][..len];
    found, i := Scan(buf, len, find);
    if found {
      FoundInRange(range, find, buf[..], readPos, len, i);
    } else {
      PatternNotEmpty(buf[..len], find, len - |find| + 1);
      Carry(range, find, readPos, readPos + len, len - |find| + 1);
    }
  }

  /** Read the next bytes behind the `bufPos` carried over. */
  method Fill(stream: BaseStream, buf: array<Byte>, maxSeek: nat, start: nat, readPos: nat, bufPos: nat, size: nat,
              ghost range: seq<Byte>)
    returns (read: nat, readSize: nat)
    requires buf.Length == WINDOW && size <= WINDOW - bufPos
    requires range == Range(stream.content, start, maxSeek) && Filled(range, buf[..], readPos, bufPos)
    requires stream.pos == start + readPos + bufPos
    modifies stream`pos, buf
    ensures read <= readSize <= size && bufPos + read <= WINDOW
    ensures Filled(range, buf[..], readPos, bufPos + read)
    ensures stream.pos == start + readPos + bufPos + read
    ensures read < size ==> readPos + bufPos + read == |range|
  {
    LimitedIsMin(size, maxSeek - readPos - bufPos);
    readSize := Limited(size, maxSeek - readPos - bufPos);
    ReadGivesRange(stream.content, start, maxSeek, readPos + bufPos, readSize);
    var data := stream.Read(readSize);
    read := |data|;
    CopyInto(buf, bufPos, data);
    FillWindow(range, old(buf[..]), buf[..], readPos, bufPos, data);
  }

  /** `memmove` the last bytes of the window to its front. */
  method Shift(buf: array<Byte>, from: nat, keep: nat, ghost range: seq<Byte>, ghost readPos: nat)
    requires from + keep <= buf.Length && Filled(range, buf[..], readPos, from + keep)
    modifies buf
    ensures Filled(range, buf[..], readPos + from, keep)
  {
    CopyInto(buf, 0, buf[from..from + keep]);
    assert old(buf[..])[from..from + keep] == old(buf[from..from + keep]);
    ShiftWindow(range, old(buf[..]), buf[..], readPos, from + keep, keep);
  }

  /** Keep the end of a window that was searched in vain. The first time, a pattern's length is set aside for it. */
  method Slide(buf: array<Byte>, find: seq<Byte>, read: nat, readSize: nat, bufPos: nat, readPos: nat, first: bool,
               ghost range: seq<Byte>)
    returns (readSize': nat, bufPos': nat, readPos': nat)
    requires buf.Length == WINDOW && 0 < |find| < WINDOW && read <= readSize
    requires Filled(range, buf[..], readPos, bufPos + read)
    requires NoneBefore(range, find, readPos + bufPos + read - |find| + 1)
    requires |find| <= bufPos + read <= WINDOW && bufPos == if first then 0 else |find|
    requires bufPos + readSize <= WINDOW
    requires bufPos + readSize == WINDOW || readPos + bufPos + read == |range|
    modifies buf
    ensures Between(range, find, buf[..], readPos', bufPos', readSize', false)
    ensures readPos' + bufPos' == readPos + bufPos + read
  {
    var step := read;
    readSize', bufPos' := readSize, bufPos;
    if first {
      step := read - |find|;
      readSize' := readSize - |find|;
      bufPos' := |find|;
    }
    Shift(buf, step, |find|, range, readPos);
    readPos' := readPos + step;
  }

  /** The loop: stop at the first occurrence, or with the whole range searched. */
  method Search(stream: BaseStream, find: seq<Byte>, maxSeek: int, ghost range: seq<Byte>)
    returns (found: bool, at: nat)
    requires |find| < WINDOW && range == Range(stream.content, stream.pos, maxSeek)
    modifies stream`pos
    ensures found ==>
      range != [] && stream.pos == old(stream.pos) + at && Occurs(range, find, at) && NoneBefore(range, find, at)
    ensures !found ==> range == [] || NoneBefore(range, find, |range|)
  {
    var buf := new Byte[WINDOW];
    var bufPos, readSize, readPos, first := 0, WINDOW, 0, true;
    var start := stream.pos;
    while readPos < maxSeek
      invariant 0 <= bufPos && 0 <= readSize && 0 <= readPos && fresh(buf) && buf.Length == WINDOW
      invariant Between(range, find, buf[..], readPos, bufPos, readSize, first)
      invariant stream.pos == start + readPos + bufPos
      decreases first, |range| - readPos
    {
      var read;
      read, readSize := Fill(stream, buf, maxSeek, start, readPos, bufPos, readSize, range);
      if read <= 0 || read + bufPos < |find| {
        if range != [] {
          NotInRange(range, find, if first then 0 else readPos + 1);
        }
        return false, 0;
      }
      var i;
      found, i := ScanWindow(buf, read + bufPos, find, range, readPos);
      if found {
        var diskPos := stream.pos;
        var _ := stream.Seek(diskPos - (read + bufPos - i));
        return true, readPos + i;
      }
      readSize, bufPos, readPos := Slide(buf, find, read, readSize, bufPos, readPos, first, range);
      first := false;
    }
    return false, 0;
  }

  /** The pattern is found iff it lies within the range, at its first place there, and the stream is left there. */
  method Find(stream: BaseStream, find: seq<Byte>, maxSeek: int) returns (err: int, position: int)
    modifies stream`pos
    ensures |find| >= 1024 ==> err == MZ_PARAM_ERROR && stream.pos == old(stream.pos)
    ensures |find| < 1024 && err == MZ_OK ==>
      var range := Range(stream.content, old(stream.pos), maxSeek);
      && position == stream.pos >= old(stream.pos) && range != []
      && Occurs(range, find, position - old(stream.pos)) && NoneBefore(range, find, position - old(stream.pos))
    ensures |find| < 1024 && err != MZ_OK ==>
      var range := Range(stream.content, old(stream.pos), maxSeek);
      && err == MZ_EXIST_ERROR && position == -1
      && (range == [] || NoneBefore(range, find, |range|))
  {
    if |find| >= WINDOW {
      return MZ_PARAM_ERROR, 0;
    }
    var start := stream.pos;
    var found, at := Search(stream, find, maxSeek, Range(stream.content, start, maxSeek));
    if found {
      return MZ_OK, start + at;
    }
    return MZ_EXIST_ERROR, -1;
  }
}
