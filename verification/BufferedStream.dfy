/** The read/write cache over a base stream (external/minizip-ng-4.2.1/mz_strm_buf.c). */
module BufferedStreams {
  import opened BaseStreams

  /** `INT16_MAX`, the size of each buffer. */
  const SIZE: nat := 32767

  lemma CacheSlice(content: seq<Byte>, pos: nat, cache: seq<Byte>, at: nat, k: nat)
    requires |cache| <= pos <= |content| && cache == content[pos - |cache|..pos] && at + k <= |cache|
    ensures IsSlice(content, pos - |cache| + at, cache[at..at + k])
  {
    var lo := pos - |cache|;
    SliceOfSlice(content, lo, pos, at, at + k);
  }

  /** The cached bytes are those just before the position; a part-filled cache means end of file. */
  ghost predicate CacheOf(content: seq<Byte>, pos: nat, cache: seq<Byte>) {
    cache != [] ==>
      && |cache| <= pos <= |content| && cache == content[pos - |cache|..pos]
      && (|cache| < SIZE ==> pos == |content|)
  }

  lemma CacheFilled(content: seq<Byte>, pos: nat, cache: seq<Byte>, data: seq<Byte>)
    requires CacheOf(content, pos, cache) && |cache| < SIZE && data == Slice(content, pos, SIZE)
    ensures CacheOf(content, pos + |data|, cache + data)
    ensures (cache != [] ==> data == []) && (data == [] ==> pos >= |content|)
  {
    if cache == [] {
      assert cache + data == data;
    } else {
      assert cache + data == cache;
    }
  }

  lemma CachePut(buf: seq<Byte>, buf': seq<Byte>, len: nat, at: nat, chunk: seq<Byte>)
    requires at <= len <= |buf| && at + |chunk| <= |buf| && chunk != []
    requires buf' == buf[..at] + chunk + buf[at + |chunk|..]
    ensures buf'[..if at + |chunk| > len then at + |chunk| else len] == Overlay(buf[..len], at, chunk)
  {
  }

  /** `now` is `content` with the first `done` bytes of `data` written at `start`. */
  ghost predicate Written(content: seq<Byte>, start: nat, data: seq<Byte>, done: nat, now: seq<Byte>) {
    done <= |data| && now == Overlay(content, start, data[..done])
  }

  lemma WrittenNone(content: seq<Byte>, start: nat, data: seq<Byte>)
    ensures Written(content, start, data, 0, content)
  {
  }

  lemma WrittenAll(content: seq<Byte>, start: nat, data: seq<Byte>, now: seq<Byte>)
    requires Written(content, start, data, |data|, now)
    ensures now == Overlay(content, start, data)
  {
    assert data[..|data|] == data;
  }

  lemma WrittenStep(content: seq<Byte>, start: nat, data: seq<Byte>, done: nat, n: nat, before: seq<Byte>,
                    now: seq<Byte>)
    requires Written(content, start, data, done, before) && done + n <= |data|
    requires now == Overlay(before, start + done, data[done..][..n])
    ensures Written(content, start, data, done + n, now)
  {
    assert data[done..][..n] == data[done..done + n];
    OverlayAppend(content, start, data, done, done + n);
  }

  /** The file as the user sees it. */
  datatype File = File(content: seq<Byte>, pos: nat)

  /** A seek of the stream underneath, to wherever offset and origin lead. */
  function DirectSeek(f: File, target: int): (File, int) {
    if target < 0 then (f, MZ_SEEK_ERROR) else (f.(pos := target), MZ_OK)
  }

  class BufferedStream {
    const base: BaseStream
    const readbuf: array<Byte>
    var readLen: nat
    var readPos: nat
    const writebuf: array<Byte>
    var writeLen: nat
    var writePos: nat
    var position: int

    /** What holds even after a refused seek has left `position` apart from that of the base stream. */
    ghost predicate Coherent()
      reads this, base, readbuf, writebuf
    {
      && readbuf.Length == writebuf.Length == SIZE && readbuf != writebuf
      && readPos <= readLen <= SIZE && writePos <= writeLen <= SIZE
      && (readLen == 0 || writeLen == 0)
      && ReadCacheValid()
    }

    ghost predicate Valid()
      reads this, base, readbuf, writebuf
    {
      Coherent() && Drift() == 0
    }

    ghost function Drift(): int
      reads this, base
    {
      position - base.pos
    }

    ghost predicate ReadCacheValid()
      reads this, base, readbuf
    {
      readLen <= readbuf.Length && CacheOf(base.content, base.pos, readbuf[..readLen])
    }

    /** The read cache has been filled, as far as the file goes, from `start` on. */
    ghost predicate FilledFrom(start: nat)
      reads this, base
    {
      readLen == |Slice(base.content, start, SIZE)| && base.pos == start + readLen
    }

    /** What the file contains once the pending bytes are written. */
    ghost function Content(): seq<Byte>
      requires Coherent()
      reads this, base, readbuf, writebuf
    {
      Overlay(base.content, base.pos, writebuf[..writeLen])
    }

    /** The position the user sees. */
    ghost function Pos(): nat
      requires Coherent()
      reads this, base, readbuf, writebuf
    {
      base.pos - readLen + readPos + writePos
    }

    /** The cached position starts at zero, which is wrong if the base was opened to append. */
    constructor (base: BaseStream)
      ensures Coherent() && this.base == base && fresh(readbuf) && fresh(writebuf)
      ensures Content() == base.content && Pos() == base.pos && readLen == writeLen == 0 && position == 0
    {
      this.base := base;
      readbuf := new Byte[SIZE];
      writebuf := new Byte[SIZE];
      readLen, readPos, writeLen, writePos, position := 0, 0, 0, 0, 0;
    }

    method Flush() returns (err: int, written: int)
      requires Coherent()
      modifies this, base
      ensures Coherent() && Drift() == old(Drift()) && err == MZ_OK && written == old(writeLen)
      ensures writeLen == 0 && readLen == old(readLen) && readPos == old(readPos)
      ensures Content() == base.content == old(Content())
      ensures base.pos == old(base.pos) + old(writeLen)
    {
      ghost var target := Content();
      var toWrite, left := writeLen, writeLen;
      written := 0;
      while left > 0
        invariant left == toWrite || left == 0
        invariant toWrite == writeLen == old(writeLen) && written == toWrite - left
        invariant readLen == old(readLen) && readPos == old(readPos)
        invariant left == toWrite ==> Coherent() && base.content == old(base.content)
        invariant left == 0 ==> base.content == target
        invariant Drift() == old(Drift()) && base.pos == old(base.pos) + written
      {
        var pending := writebuf[toWrite - left..toWrite];
        assert pending == writebuf[..writeLen];
        var n := base.Write(pending);
        if n != left {
          return MZ_WRITE_ERROR, 0;
        }
        written, left, position := written + n, left - n, position + n;
      }
      writeLen, writePos := 0, 0;
      err := MZ_OK;
    }

    /** The offset lies in one of the caches, as far as `position` tells. */
    ghost predicate Hit(offset: int)
      reads this
    {
      || (readLen > 0 && position - readLen <= offset < position)
      || (writeLen > 0 && position <= offset <= position + writeLen)
    }

    /** Set the user's position. A hit is off by the drift. Otherwise the caches are dropped, and only then is a
        negative offset refused; it leaves `position` apart from the base. */
    method Seek(offset: int) returns (err: int)
      requires Coherent()
      modifies this, base
      ensures Coherent() && Content() == old(Content())
      ensures (old(writeLen) == 0 ==> writeLen == 0) && (old(readLen) == 0 ==> readLen == 0)
      ensures old(Hit(offset)) ==> err == MZ_OK && Pos() == offset - old(Drift()) && Drift() == old(Drift())
      ensures !old(Hit(offset)) ==>
        && readLen == writeLen == 0 && position == offset
        && err == (if offset >= 0 then MZ_OK else MZ_SEEK_ERROR)
        && Pos() == base.pos == (if offset >= 0 then offset else old(base.pos) + old(writeLen))
    {
      if readLen > 0 && offset < position && offset >= position - readLen {
        readPos := offset - (position - readLen);
        return MZ_OK;
      }
      if writeLen > 0 {
        if offset >= position && offset <= position + writeLen {
          writePos := offset - position;
          return MZ_OK;
        }
      }
      var flushed;
      err, flushed := Flush();
      if err != MZ_OK {
        return;
      }
      position := offset;
      readLen, readPos, writeLen, writePos := 0, 0, 0, 0;
      err := base.Seek(offset);
    }

    /** A relative seek does not lead before the start of a cache. */
    ghost predicate InReach(offset: int)
      reads this
    {
      readLen + writeLen > 0 ==> readPos + writePos + offset >= 0
    }

    /** `MZ_SEEK_CUR`. Without a cache, or past the end of one, `position` is not told about the move, and bytes
        pending behind the user's place are skipped. */
    method SeekFromHere(offset: int) returns (err: int)
      requires Coherent() && InReach(offset)
      modifies this, base
      ensures Coherent() && Content() == old(Content())
      ensures (old(writeLen) == 0 ==> writeLen == 0) && (old(readLen) == 0 ==> readLen == 0)
      ensures old(readLen) > 0 || (old(writeLen) > 0 && offset <= old(writeLen) - old(writePos)) ==>
        err == MZ_OK && Pos() == old(Pos()) + offset && Drift() == old(Drift())
      ensures old(writeLen) > 0 && offset > old(writeLen) - old(writePos) ==>
        err == MZ_OK && Pos() == old(base.pos) + old(writeLen) + offset && Drift() == old(Drift()) - offset
      ensures old(readLen) == old(writeLen) == 0 ==>
        && readLen == writeLen == 0 && position == old(position)
        && if old(Pos()) + offset >= 0 then err == MZ_OK && Pos() == old(Pos()) + offset
           else err == MZ_SEEK_ERROR && Pos() == old(Pos())
      ensures (File(Content(), Pos()), err) == DirectSeek(File(old(Content()), old(Pos())), old(Pos()) + offset) <==>
              old(writePos) == old(writeLen) || old(writePos) + offset <= old(writeLen)
    {
      var rest := offset;
      if readLen > 0 {
        if rest <= readLen - readPos {
          readPos := readPos + rest;
          return MZ_OK;
        }
        rest := rest - (readLen - readPos);
        position := position + rest;
      }
      if writeLen > 0 {
        if rest <= writeLen - writePos {
          writePos := writePos + rest;
          return MZ_OK;
        }
      }
      var flushed;
      err, flushed := Flush();
      if err != MZ_OK {
        return;
      }
      readLen, readPos, writeLen, writePos := 0, 0, 0, 0;
      err := base.Seek(base.pos + rest);
    }

    /** `MZ_SEEK_END`. With bytes pending the offset is ignored; otherwise `position` is not told about the move. */
    method SeekFromEnd(offset: int) returns (err: int)
      requires Coherent()
      modifies this, base
      ensures Coherent() && Content() == old(Content()) && (old(readLen) == 0 ==> readLen == 0)
      ensures old(writeLen) > 0 ==> err == MZ_OK && Pos() == old(base.pos) + old(writeLen) && Drift() == old(Drift())
      ensures old(writeLen) == 0 ==>
        && position == old(position) && readLen == writeLen == 0
        && if |Content()| + offset >= 0 then err == MZ_OK && Pos() == |Content()| + offset
           else err == MZ_SEEK_ERROR && Pos() == old(base.pos)
      ensures (File(Content(), Pos()), err) ==
              DirectSeek(File(old(Content()), old(Pos())), |old(Content())| + offset) <==>
              if old(writeLen) > 0 then |Content()| + offset == old(base.pos) + old(writeLen)
              else |Content()| + offset >= 0 || old(readPos) == old(readLen)
    {
      if writeLen > 0 {
        writePos := writeLen;
        return MZ_OK;
      }
      readLen, readPos, writeLen, writePos := 0, 0, 0, 0;
      err := base.Seek(|base.content| + offset);
    }

    /** The user's position; asking for it also puts `position` right. */
    method Tell() returns (p: int)
      requires Coherent()
      modifies this`position
      ensures Valid() && p == Pos() == old(Pos()) && Content() == old(Content())
    {
      p := base.pos;
      position := p;
      if readLen > 0 {
        p := p - (readLen - readPos);
      }
      if writeLen > 0 {
        p := p + writePos;
      }
    }

    /** Put what was read behind what the cache holds. */
    method AppendToCache(data: seq<Byte>)
      requires readbuf.Length == SIZE && readPos == readLen && readLen + |data| <= SIZE
      modifies this`readLen, this`position, readbuf
      ensures readLen == old(readLen) + |data| && position == old(position) + |data|
      ensures readbuf[..readLen] == old(readbuf[..readLen]) + data
    {
      CopyInto(readbuf, readPos, data);
      assert readbuf[..readLen + |data|] == readbuf[..][..readLen + |data|];
      assert old(readbuf[..readLen]) == old(readbuf[..])[..readLen];
      readLen := readLen + |data|;
      position := position + |data|;
    }

    /** Fill the read cache, when nothing in it is left to deliver. */
    method Refill() returns (n: nat)
      requires Coherent() && writeLen == 0 && readPos == readLen
      modifies this, base, readbuf
      ensures Coherent() && writeLen == 0 && base.content == old(base.content) && Pos() == old(Pos())
      ensures Drift() == old(Drift())
      ensures n == 0 ==> Pos() >= |base.content|
      ensures n > 0 ==> readPos < readLen
      ensures old(readLen) == 0 ==> FilledFrom(old(base.pos))
    {
      if readLen == SIZE {
        readPos, readLen := 0, 0;
      }
      n := Fetch();
    }

    /** Read behind what the cache holds. */
    method Fetch() returns (n: nat)
      requires Coherent() && writeLen == 0 && readPos == readLen < SIZE
      modifies this, base, readbuf
      ensures Coherent() && writeLen == 0 && base.content == old(base.content) && Pos() == old(Pos())
      ensures Drift() == old(Drift()) && readPos == old(readPos) && readLen == old(readLen) + n
      ensures n == 0 ==> Pos() >= |base.content|
      ensures old(readLen) == 0 ==> FilledFrom(old(base.pos))
    {
      var toRead := SIZE - (readLen - readPos);
      var data := base.Read(toRead);
      CacheFilled(base.content, old(base.pos), readbuf[..readLen], data);
      AppendToCache(data);
      n := |data|;
    }

    /** Deliver up to `left` cached bytes. */
    method Deliver(left: nat) returns (chunk: seq<Byte>)
      requires Coherent() && writeLen == 0 && readPos < readLen && left > 0
      modifies this`readPos
      ensures Coherent() && 0 < |chunk| <= left && IsSlice(base.content, old(Pos()), chunk)
      ensures Pos() == old(Pos()) + |chunk|
    {
      var k := readLen - readPos;
      if k > left {
        k := left;
      }
      CacheSlice(base.content, base.pos, readbuf[..readLen], readPos, k);
      ArraySlice(readbuf, readLen, readPos, readPos + k);
      chunk := readbuf[readPos..readPos + k];
      readPos := readPos + k;
    }

    /** Where a read starts: pending bytes are written out, and the place behind them is looked up in `position`. */
    ghost function ReadStart(): nat
      requires Coherent()
      reads this, base, readbuf, writebuf
    {
      if writeLen == 0 then Pos()
      else if position + writePos >= 0 then position + writePos
      else base.pos + writeLen
    }

    method SwitchToRead()
      requires Coherent()
      modifies this, base
      ensures Coherent() && writeLen == 0 && base.content == Content() == old(Content()) && Pos() == old(ReadStart())
      ensures old(writeLen) == 0 ==> Drift() == old(Drift()) && readLen == old(readLen)
      ensures old(Valid()) ==> Valid()
    {
      if writeLen > 0 {
        var p := position + writePos;
        var _, _ := Flush();
        var _ := Seek(p);
      }
    }

    /** One turn of the read loop; nothing comes back only at the end of the file. */
    method ReadSome(left: nat) returns (chunk: seq<Byte>)
      requires Coherent() && writeLen == 0 && left > 0
      modifies this, base, readbuf
      ensures Coherent() && writeLen == 0 && base.content == old(base.content) && Drift() == old(Drift())
      ensures old(readLen) == 0 ==> FilledFrom(old(base.pos))
      ensures |chunk| <= left && IsSlice(base.content, old(Pos()), chunk) && Pos() == old(Pos()) + |chunk|
      ensures chunk == [] ==> Pos() >= |base.content|
    {
      if readLen == 0 || readPos == readLen {
        var n := Refill();
        if n == 0 {
          return [];
        }
      }
      chunk := Deliver(left);
    }

    /** The read loop, with nothing left to write. */
    method ReadLoop(size: nat) returns (data: seq<Byte>)
      requires Coherent() && writeLen == 0
      modifies this, base, readbuf
      ensures Coherent() && writeLen == 0 && base.content == old(base.content) && Drift() == old(Drift())
      ensures data == Slice(base.content, old(Pos()), size) && Pos() == old(Pos()) + |data|
      ensures old(readLen) == 0 && size == 1 ==> FilledFrom(old(base.pos))
    {
      ghost var content, start := base.content, Pos();
      data := [];
      var left := size;
      while left > 0
        invariant Coherent() && writeLen == 0 && 0 <= left <= size && Drift() == old(Drift())
        invariant base.content == content && Pos() == start + |data|
        invariant left == size - |data| && IsSlice(content, start, data)
        invariant left == size ==> readLen == old(readLen) && base.pos == old(base.pos)
        invariant old(readLen) == 0 && size == 1 && left == 0 ==> FilledFrom(old(base.pos))
        decreases left
      {
        var chunk := ReadSome(left);
        if chunk == [] {
          SliceAtEnd(content, start, data, size);
          break;
        }
        SliceAppend(content, start, data, chunk);
        data := data + chunk;
        left := left - |chunk|;
      }
    }

    method Read(size: nat) returns (data: seq<Byte>)
      requires Coherent()
      modifies this, base, readbuf
      ensures Coherent() && data == Slice(old(Content()), old(ReadStart()), size)
      ensures Content() == old(Content()) && Pos() == old(ReadStart()) + |data|
      ensures writeLen == 0 && (old(Valid()) ==> Valid())
      ensures old(readLen) == old(writeLen) == 0 && size == 1 ==>
        FilledFrom(old(base.pos)) && base.content == Content() && Drift() == old(Drift())
    {
      SwitchToRead();
      data := ReadLoop(size);
    }

    /** Where a write starts: the bytes read ahead are given back by a seek to where `position` says the user is. */
    ghost function WriteStart(): int
      requires Coherent()
      reads this, base, readbuf, writebuf
    {
      if readLen == 0 then Pos() else Pos() + Drift()
    }

    method SwitchToWrite() returns (err: int)
      requires Coherent()
      modifies this, base
      ensures Coherent() && readLen == 0 && Content() == old(Content())
      ensures err == (if old(WriteStart()) >= 0 then MZ_OK else MZ_SEEK_ERROR)
      ensures Pos() == if old(WriteStart()) >= 0 then old(WriteStart()) else old(base.pos)
      ensures old(Valid()) ==> Valid()
    {
      err := MZ_OK;
      if readLen > 0 {
        position := position - readLen;
        position := position + readPos;
        readLen, readPos := 0, 0;
        err := base.Seek(position);
      }
    }

    /** `memcpy` one piece into the write buffer. */
    method CacheBytes(chunk: seq<Byte>)
      requires writebuf.Length == SIZE && chunk != [] && writePos <= writeLen && writePos + |chunk| <= SIZE
          && writeLen <= SIZE
      modifies this`writePos, this`writeLen, writebuf
      ensures writePos == old(writePos) + |chunk| && writePos <= writeLen <= SIZE
      ensures writebuf[..writeLen] == Overlay(old(writebuf[..writeLen]), old(writePos), chunk)
    {
      CopyInto(writebuf, writePos, chunk);
      CachePut(old(writebuf[..]), writebuf[..], writeLen, writePos, chunk);
      writePos := writePos + |chunk|;
      if writePos > writeLen {
        writeLen := writeLen + (writePos - writeLen);
      }
      assert writebuf[..writeLen] == writebuf[..][..writeLen];
      assert old(writebuf[..writeLen]) == old(writebuf[..])[..old(writeLen)];
    }

    /** Write one piece into the cache at the current place in it. */
    method Put(chunk: seq<Byte>)
      requires Coherent() && readLen == 0 && chunk != [] && writePos + |chunk| <= SIZE
      modifies this`writePos, this`writeLen, writebuf
      ensures Coherent() && readLen == 0
      ensures Content() == Overlay(old(Content()), old(Pos()), chunk) && Pos() == old(Pos()) + |chunk|
    {
      OverlayInside(base.content, base.pos, writebuf[..writeLen], writePos, chunk);
      CacheBytes(chunk);
    }

    /** One turn of the write loop: cache what fits, or make room. */
    method WriteSome(rest: seq<Byte>) returns (err: int, n: nat)
      requires Coherent() && readLen == 0 && rest != []
      modifies this, base, writebuf
      ensures Coherent() && Drift() == old(Drift()) && readLen == 0 && err == MZ_OK && n <= |rest|
      ensures Content() == Overlay(old(Content()), old(Pos()), rest[..n]) && Pos() == old(Pos()) + n
      ensures n == 0 ==> writePos < old(writePos)
    {
      var used := writeLen;
      if used > writePos {
        used := writePos;
      }
      var toCopy := SIZE - used;
      if toCopy > |rest| {
        toCopy := |rest|;
      }
      if toCopy == 0 {
        var flushed;
        err, flushed := Flush();
        return err, 0;
      }
      Put(rest[..toCopy]);
      return MZ_OK, toCopy;
    }

    /** The same turn, seen from the whole write that started with `content` at `start`. */
    method WriteTurn(data: seq<Byte>, done: nat, ghost content: seq<Byte>, ghost start: nat)
      returns (err: int, done': nat)
      requires Coherent() && readLen == 0 && done < |data|
      requires Written(content, start, data, done, Content()) && Pos() == start + done
      modifies this, base, writebuf
      ensures Coherent() && Drift() == old(Drift()) && readLen == 0 && err == MZ_OK && done <= done' <= |data|
      ensures Written(content, start, data, done', Content()) && Pos() == start + done'
      ensures done' == done ==> writePos < old(writePos)
    {
      ghost var before := Content();
      var n;
      err, n := WriteSome(data[done..]);
      WrittenStep(content, start, data, done, n, before, Content());
      done' := done + n;
    }

    /** The write loop, with nothing read ahead. */
    method WriteLoop(data: seq<Byte>) returns (written: int)
      requires Coherent() && readLen == 0
      modifies this, base, writebuf
      ensures Coherent() && Drift() == old(Drift()) && written == |data| && readLen == 0
      ensures Content() == Overlay(old(Content()), old(Pos()), data) && Pos() == old(Pos()) + |data|
    {
      ghost var content, start := Content(), Pos();
      WrittenNone(content, start, data);
      var done, err := 0, MZ_OK;
      while done < |data|
        invariant Coherent() && Drift() == old(Drift()) && readLen == 0 && 0 <= done <= |data|
        invariant Written(content, start, data, done, Content()) && Pos() == start + done
        decreases |data| - done, writePos
      {
        err, done := WriteTurn(data, done, content, start);
        if err != MZ_OK {
          return err;
        }
      }
      WrittenAll(content, start, data, Content());
      written := done;
    }

    method Write(data: seq<Byte>) returns (written: int)
      requires Coherent()
      modifies this, base, writebuf
      ensures Coherent() && (old(Valid()) ==> Valid()) && readLen == 0
      ensures old(WriteStart()) >= 0 ==>
        && written == |data| && Content() == Overlay(old(Content()), old(WriteStart()), data)
        && Pos() == old(WriteStart()) + |data|
      ensures old(WriteStart()) < 0 ==>
          written == MZ_SEEK_ERROR && Content() == old(Content()) && Pos() == old(base.pos)
    {
      var err := SwitchToWrite();
      if err != MZ_OK {
        return err;
      }
      written := WriteLoop(data);
    }

    method Close()
      requires Coherent()
      modifies this, base
      ensures base.content == old(Content())
      ensures readLen == writeLen == 0 && position == 0
    {
      var _, _ := Flush();
      readLen, readPos, writeLen, writePos, position := 0, 0, 0, 0, 0;
    }
  }

  // ----- whole sessions

  datatype Op =
    | ReadOp(size: nat) | WriteOp(data: seq<Byte>) | TellOp
    | SeekOp(offset: int) | HereOp(offset: int) | EndOp(offset: int)

  datatype Answer = Bytes(data: seq<Byte>) | Number(n: int)

  /** Where a seek leads. */
  function Goal(f: File, op: Op): int
    requires op.SeekOp? || op.HereOp? || op.EndOp?
  {
    op.offset + match op case SeekOp(_) => 0 case HereOp(_) => f.pos case EndOp(_) => |f.content|
  }

  /** What the stream underneath does when it is used directly. */
  function Direct(f: File, op: Op): (File, Answer) {
    match op
    case ReadOp(size) => var d := Slice(f.content, f.pos, size); (f.(pos := f.pos + |d|), Bytes(d))
    case WriteOp(d) => (File(Overlay(f.content, f.pos, d), f.pos + |d|), Number(|d|))
    case TellOp => (f, Number(f.pos))
    case _ => var (f', err) := DirectSeek(f, Goal(f, op)); (f', Number(err))
  }

  function DirectAll(f: File, ops: seq<Op>): (File, seq<Answer>) {
    if ops == [] then (f, [])
    else
      var (f1, answers) := DirectAll(f, ops[..|ops| - 1]);
      var (f2, answer) := Direct(f1, ops[|ops| - 1]);
      (f2, answers + [answer])
  }

  /** The operation does not get to see a wrong `position`, nor lose its place in a cache to a refused seek, nor skip
      bytes pending behind it or have its offset ignored. */
  ghost predicate Safe(s: BufferedStream, op: Op)
    requires s.Coherent()
    reads s, s.base, s.readbuf, s.writebuf
  {
    match op
    case ReadOp(_) => s.writeLen == 0 || s.Drift() == 0 || (s.position + s.writePos < 0 && s.writePos == s.writeLen)
    case WriteOp(_) => s.readLen == 0 || s.Drift() == 0
    case TellOp => true
    case SeekOp(offset) =>
      if s.Hit(offset) then s.Drift() == 0 else offset >= 0 || (s.readPos == s.readLen && s.writePos == s.writeLen)
    case HereOp(offset) => s.writePos == s.writeLen || s.writePos + offset <= s.writeLen
    case EndOp(offset) =>
      if s.writeLen > 0 then |s.Content()| + offset == s.base.pos + s.writeLen
      else |s.Content()| + offset >= 0 || s.readPos == s.readLen
  }

  ghost function View(s: BufferedStream): File
    requires s.Coherent()
    reads s, s.base, s.readbuf, s.writebuf
  {
    File(s.Content(), s.Pos())
  }

  method ApplyWrite(s: BufferedStream, data: seq<Byte>) returns (answer: Answer)
    requires s.Coherent()
    modifies s, s.base, s.writebuf
    ensures s.Coherent()
    ensures (View(s), answer) == Direct(old(View(s)), WriteOp(data)) <==> old(Safe(s, WriteOp(data)))
  {
    var n := s.Write(data);
    answer := Number(n);
  }

  method ApplyRead(s: BufferedStream, size: nat) returns (answer: Answer)
    requires s.Coherent()
    modifies s, s.base, s.readbuf
    ensures s.Coherent()
    ensures (View(s), answer) == Direct(old(View(s)), ReadOp(size)) <==> old(Safe(s, ReadOp(size)))
  {
    var d := s.Read(size);
    answer := Bytes(d);
  }

  /** A seek of any kind does what it does without the cache, exactly when it is safe. */
  method ApplySeek(s: BufferedStream, op: Op) returns (answer: Answer)
    requires s.Coherent() && (op.SeekOp? || op.EndOp? || (op.HereOp? && s.InReach(op.offset)))
    modifies s, s.base
    ensures s.Coherent()
    ensures (View(s), answer) == Direct(old(View(s)), op) <==> old(Safe(s, op))
  {
    var err;
    match op {
      case SeekOp(offset) => err := s.Seek(offset);
      case HereOp(offset) => err := s.SeekFromHere(offset);
      case EndOp(offset) => err := s.SeekFromEnd(offset);
    }
    answer := Number(err);
  }

  /** An operation through the cache does what it does without, exactly when it is safe. */
  method Apply(s: BufferedStream, op: Op) returns (answer: Answer)
    requires s.Coherent() && (op.HereOp? ==> s.InReach(op.offset))
    modifies s, s.base, s.readbuf, s.writebuf
    ensures s.Coherent()
    ensures (View(s), answer) == Direct(old(View(s)), op) <==> old(Safe(s, op))
  {
    match op
    case ReadOp(size) =>
      answer := ApplyRead(s, size);
    case WriteOp(data) =>
      answer := ApplyWrite(s, data);
    case TellOp =>
      var p := s.Tell();
      answer := Number(p);
    case _ =>
      answer := ApplySeek(s, op);
  }

  /** What can be known of the caches from the operations alone: whether bytes may be pending, or read ahead, and
      whether `position` may be wrong, or the user's place lost to a refused seek. */
  datatype Mode = Mode(pending: bool, ahead: bool, drifted: bool, lost: bool)

  const START := Mode(false, false, false, false)

  function Next(m: Mode, op: Op): Mode {
    match op
    case ReadOp(_) => m.(pending := false, ahead := true)
    case WriteOp(_) => m.(pending := true, ahead := false)
    case TellOp => m.(drifted := false)
    case SeekOp(offset) =>
      if offset >= 0 then m.(drifted := false, lost := false)
      else Mode(false, false, true, m.lost || m.pending || m.ahead)
    case HereOp(_) => m.(drifted := true)
    case EndOp(_) => Mode(false, false, true, false)
  }

  /** The operation comes at a time when the cache is sure to follow. */
  predicate Allowed(f: File, m: Mode, op: Op) {
    match op
    case ReadOp(_) => !m.lost && !(m.pending && m.drifted)
    case WriteOp(_) => !m.lost && !(m.ahead && m.drifted)
    case TellOp => !m.lost
    case SeekOp(_) => !m.drifted || !(m.pending || m.ahead)
    case HereOp(offset) => !m.lost && !m.pending && (offset >= 0 || !m.ahead)
    case EndOp(offset) => !m.pending && (|f.content| + offset >= 0 || !(m.ahead || m.lost))
  }

  function ModeAfter(ops: seq<Op>): Mode {
    if ops == [] then START else Next(ModeAfter(ops[..|ops| - 1]), ops[|ops| - 1])
  }

  /** Every operation comes at such a time. */
  ghost predicate Steady(content: seq<Byte>, ops: seq<Op>) {
    forall i :: 0 <= i < |ops| ==> Allowed(DirectAll(File(content, 0), ops[..i]).0, ModeAfter(ops[..i]), ops[i])
  }

  ghost predicate Refused(op: Op) {
    op.SeekOp? && op.offset < 0
  }

  /** Only absolute seeks, and a refused one is always followed by another, if by anything. */
  ghost predicate Recovers(ops: seq<Op>) {
    && (forall i :: 0 <= i < |ops| ==> !ops[i].HereOp? && !ops[i].EndOp?)
    && (forall i :: 0 <= i < |ops| - 1 && Refused(ops[i]) ==> ops[i + 1].SeekOp?)
  }

  lemma {:induction false} RecoversMode(ops: seq<Op>, i: nat)
    requires Recovers(ops) && i <= |ops|
    ensures var m := ModeAfter(ops[..i]);
            m.drifted || m.lost ==> i > 0 && Refused(ops[i - 1]) && !m.pending && !m.ahead
    decreases i
  {
    if i == 0 {
    } else {
      RecoversMode(ops, i - 1);
      assert ops[..i][..i - 1] == ops[..i - 1] && ops[..i][i - 1] == ops[i - 1];
      assert i > 1 && Refused(ops[i - 2]) ==> ops[i - 1].SeekOp?;
    }
  }

  lemma RecoversSteady(content: seq<Byte>, ops: seq<Op>)
    requires Recovers(ops)
    ensures Steady(content, ops)
  {
    forall i | 0 <= i < |ops|
      ensures Allowed(DirectAll(File(content, 0), ops[..i]).0, ModeAfter(ops[..i]), ops[i])
    {
      RecoversMode(ops, i);
      assert i > 0 && Refused(ops[i - 1]) ==> ops[i].SeekOp?;
    }
  }

  /** The file underneath and the cache agree, as far as the mode says. */
  ghost predicate Follows(s: BufferedStream, f: File, m: Mode)
    reads s, s.base, s.readbuf, s.writebuf
  {
    && s.Coherent() && s.Content() == f.content && (!m.lost ==> s.Pos() == f.pos)
    && (m.lost ==> !m.pending && !m.ahead)
    && (!m.pending ==> s.writeLen == 0) && (!m.ahead ==> s.readLen == 0) && (!m.drifted ==> s.Drift() == 0)
  }

  method ReadNext(s: BufferedStream, size: nat, ghost f: File, ghost m: Mode) returns (answer: Answer)
    requires Follows(s, f, m) && Allowed(f, m, ReadOp(size))
    modifies s, s.base, s.readbuf
    ensures var (f', expected) := Direct(f, ReadOp(size)); Follows(s, f', Next(m, ReadOp(size))) && answer == expected
  {
    var d := s.Read(size);
    answer := Bytes(d);
  }

  method WriteNext(s: BufferedStream, data: seq<Byte>, ghost f: File, ghost m: Mode) returns (answer: Answer)
    requires Follows(s, f, m) && Allowed(f, m, WriteOp(data))
    modifies s, s.base, s.writebuf
    ensures var (f', expected) := Direct(f, WriteOp(data)); Follows(s, f', Next(m, WriteOp(data))) && answer == expected
  {
    var n := s.Write(data);
    answer := Number(n);
  }

  method SeekNext(s: BufferedStream, op: Op, ghost f: File, ghost m: Mode) returns (answer: Answer)
    requires Follows(s, f, m) && Allowed(f, m, op) && (op.SeekOp? || op.HereOp? || op.EndOp?)
    modifies s, s.base
    ensures var (f', expected) := Direct(f, op); Follows(s, f', Next(m, op)) && answer == expected
  {
    var err;
    match op {
      case SeekOp(offset) => err := s.Seek(offset);
      case HereOp(offset) => err := s.SeekFromHere(offset);
      case EndOp(offset) => err := s.SeekFromEnd(offset);
    }
    answer := Number(err);
  }

  method ApplyNext(s: BufferedStream, op: Op, ghost f: File, ghost m: Mode) returns (answer: Answer)
    requires Follows(s, f, m) && Allowed(f, m, op)
    modifies s, s.base, s.readbuf, s.writebuf
    ensures var (f', expected) := Direct(f, op); Follows(s, f', Next(m, op)) && answer == expected
  {
    match op
    case ReadOp(size) =>
      answer := ReadNext(s, size, f, m);
    case WriteOp(data) =>
      answer := WriteNext(s, data, f, m);
    case TellOp =>
      var p := s.Tell();
      answer := Number(p);
    case _ =>
      answer := SeekNext(s, op, f, m);
  }

  /** A steady session through the cache gives the answers, and leaves the file, of the same session without it. */
  method Session(content: seq<Byte>, ops: seq<Op>) returns (answers: seq<Answer>, final: seq<Byte>)
    requires Steady(content, ops)
    ensures var (f, expected) := DirectAll(File(content, 0), ops); answers == expected && final == f.content
  {
    var base := new BaseStream(content);
    var s := new BufferedStream(base);
    answers := [];
    ghost var f, m := File(content, 0), START;
    for i := 0 to |ops|
      invariant s.base == base && fresh(s) && fresh(base) && fresh(s.readbuf) && fresh(s.writebuf)
      invariant Follows(s, f, m) && m == ModeAfter(ops[..i]) && (f, answers) == DirectAll(File(content, 0), ops[..i])
    {
      var answer := ApplyNext(s, ops[i], f, m);
      answers := answers + [answer];
      f, m := Direct(f, ops[i]).0, Next(m, ops[i]);
      assert ops[..i + 1][..i] == ops[..i];
    }
    assert ops[..|ops|] == ops;
    s.Close();
    final := base.content;
  }

  lemma OneByte(content: seq<Byte>, at: nat)
    requires at < |content|
    ensures Slice(content, at, 1) == [content[at]]
  {
  }

  /** Open a file and have a seek refused. */
  method OpenAndRefuse(content: seq<Byte>, offset: int) returns (s: BufferedStream)
    requires offset < 0
    ensures fresh(s) && fresh(s.base) && fresh(s.readbuf) && fresh(s.writebuf)
    ensures s.Coherent() && s.Content() == content && s.Pos() == 0
    ensures s.readLen == s.writeLen == 0 && s.base.pos == 0 && s.Drift() == offset
  {
    var base := new BaseStream(content);
    s := new BufferedStream(base);
    var _ := s.Seek(offset);
  }

  /** Read the byte at a place, with nothing left to write. */
  method ReadAt(s: BufferedStream, at: nat) returns (got: seq<Byte>)
    requires s.Coherent() && s.writeLen == 0
    modifies s, s.base, s.readbuf
    ensures s.Coherent()
    ensures !old(s.Hit(at)) || old(s.Drift()) == 0 ==> got == Slice(old(s.Content()), at, 1)
    ensures old(s.Hit(at)) && old(s.Drift()) <= 0 ==> got == Slice(old(s.Content()), at - old(s.Drift()), 1)
  {
    var _ := s.Seek(at);
    got := s.Read(1);
  }

  /** Read a byte with nothing cached yet: the cache is filled from there. */
  method ReadFirst(s: BufferedStream)
    requires s.Coherent() && s.readLen == s.writeLen == 0
    modifies s, s.base, s.readbuf
    ensures s.Coherent() && s.writeLen == 0 && s.Content() == old(s.Content()) && s.Drift() == old(s.Drift())
    ensures s.base.pos == old(s.base.pos) + s.readLen && s.readLen == |Slice(s.Content(), old(s.base.pos), SIZE)|
  {
    var _ := s.Read(1);
  }

  /** Reading on after a refused seek brings the wrong byte: here the one `-offset` bytes too far. */
  method MisledAfterRefusal(content: seq<Byte>, offset: int, at: nat) returns (got: seq<Byte>)
    requires offset < 0 && at - offset < |content| && at - offset < SIZE
    ensures got == [content[at - offset]]
  {
    var s := OpenAndRefuse(content, offset);
    ReadFirst(s);
    OneByte(content, at - offset);
    got := ReadAt(s, at);
  }

  /** Open a file and go on by some bytes. */
  method OpenAndMove(content: seq<Byte>, offset: nat) returns (s: BufferedStream)
    ensures fresh(s) && fresh(s.base) && fresh(s.readbuf) && fresh(s.writebuf)
    ensures s.Coherent() && s.Content() == content && s.Pos() == offset
    ensures s.readLen == s.writeLen == 0 && s.base.pos == offset && s.Drift() + offset == 0
  {
    var base := new BaseStream(content);
    s := new BufferedStream(base);
    var _ := s.SeekFromHere(offset);
  }

  /** So does reading on after a relative seek. */
  method MisledAfterRelativeSeek(content: seq<Byte>, offset: nat, at: nat) returns (got: seq<Byte>)
    requires 0 < offset && at + offset < |content| && at < SIZE
    ensures got == [content[at + offset]]
  {
    var s := OpenAndMove(content, offset);
    ReadFirst(s);
    OneByte(content, at + offset);
    got := ReadAt(s, at);
  }

  /** Asking for the position right after the refusal avoids this. */
  method RightAfterTell(content: seq<Byte>, offset: int, at: nat) returns (got: seq<Byte>)
    requires offset < 0 && at < |content|
    ensures got == [content[at]]
  {
    var s := OpenAndRefuse(content, offset);
    var _ := s.Tell();
    ReadFirst(s);
    OneByte(content, at);
    got := ReadAt(s, at);
  }
}
