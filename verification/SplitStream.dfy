/** A stream split over numbered disk files (external/minizip-ng-4.2.1/mz_strm_split.c). The files are
    a map from disk number to contents; number -1 is the file that holds the central directory. */
module SplitStreams {
  import opened BaseStreams

  type Disks = map<int, seq<Byte>>

  /** `MZ_ZIP_MAGIC_DISKHEADER`, least significant byte first. */
  const MAGIC: seq<Byte> := [0x50, 0x4b, 0x07, 0x08]

  lemma MagicNumber()
    ensures |MAGIC| == 4
    ensures MAGIC[0] as int + 256 * (MAGIC[1] as int + 256 * (MAGIC[2] as int + 256 * MAGIC[3] as int)) == 0x08074b50
  {
  }

  /** The contents of disks `lo` to `hi - 1`, one behind the other. */
  ghost function Concat(disks: Disks, lo: int, hi: int): seq<Byte>
    requires lo <= hi && forall i :: lo <= i < hi ==> i in disks
    decreases hi - lo
  {
    if lo == hi then [] else Concat(disks, lo, hi - 1) + disks[hi - 1]
  }

  lemma {:induction false} ConcatSame(d: Disks, d': Disks, lo: int, hi: int)
    requires lo <= hi && forall i :: lo <= i < hi ==> i in d && i in d' && d'[i] == d[i]
    ensures Concat(d', lo, hi) == Concat(d, lo, hi)
    decreases hi - lo
  {
    if lo == hi {
    } else {
      ConcatSame(d, d', lo, hi - 1);
    }
  }

  lemma {:induction false} ConcatFirst(d: Disks, lo: int, hi: int)
    requires lo < hi && forall i :: lo <= i < hi ==> i in d
    ensures Concat(d, lo, hi) == d[lo] + Concat(d, lo + 1, hi)
    decreases hi - lo
  {
    if lo + 1 == hi {
      assert Concat(d, lo, lo) == [];
    } else {
      ConcatFirst(d, lo, hi - 1);
      AppendAssoc(d[lo], Concat(d, lo + 1, hi - 1), d[hi - 1]);
    }
  }

  /** Apart from the numbered disks up to `last`, no file is touched. */
  ghost predicate Others(d: Disks, d': Disks, last: int) {
    && (forall i :: i in d && (i < 0 || last < i) ==> i in d' && d'[i] == d[i])
    && (forall i :: i in d' ==> i in d || 0 <= i <= last)
  }

  lemma {:induction false} ConcatLength(d: Disks, size: nat, n: nat)
    requires forall k :: 0 <= k < n ==> k in d && |d[k]| == size
    ensures |Concat(d, 0, n)| == n * size
  {
    if n == 0 {
    } else {
      ConcatLength(d, size, n - 1);
      assert n * size == (n - 1) * size + size;
    }
  }

  lemma {:induction false} ConcatPrefix(d: Disks, n: nat, m: nat)
    requires n <= m && forall k :: 0 <= k < m ==> k in d
    ensures Concat(d, 0, n) <= Concat(d, 0, m)
    decreases m
  {
    if n == m {
    } else {
      ConcatPrefix(d, n, m - 1);
    }
  }

  /** With every disk but the last full, the disks are the consecutive pieces of what they hold together. */
  lemma DisksArePieces(d: Disks, size: nat, last: nat, i: nat)
    requires i <= last && (forall k :: 0 <= k <= last ==> k in d) && (forall k :: 0 <= k < last ==> |d[k]| == size)
    ensures d[i] == Slice(Concat(d, 0, last + 1), i * size, |d[i]|)
  {
    ConcatLength(d, size, i);
    ConcatPrefix(d, i + 1, last + 1);
    var start, all, upTo := i * size, Concat(d, 0, last + 1), Concat(d, 0, i + 1);
    assert upTo == all[..|upTo|] && |upTo| == start + |d[i]|;
    assert upTo[start..] == d[i];
    assert all[start..start + |d[i]|] == upTo[start..];
  }

  // ----- writing

  class SplitWriter {
    const diskSize: int
    var disks: Disks
    var isOpen: bool
    var basePos: nat
    var numberDisk: int
    var currentDisk: int
    var totalOut: int
    var totalOutDisk: int

    ghost predicate Valid()
      reads this
    {
      && diskSize >= 4
      && isOpen && currentDisk in disks && |disks[currentDisk]| == basePos
      && (numberDisk == currentDisk || numberDisk == -1)
      && currentDisk >= -1 && totalOut >= 4
      && (currentDisk >= 0 ==> totalOutDisk == basePos <= diskSize && Parts(currentDisk))
    }

    /** Nothing is split: all bytes go to the central directory file, whatever the disk number. */
    ghost predicate Whole()
      reads this
    {
      diskSize == 0 && isOpen && currentDisk >= 0 && -1 in disks && |disks[-1]| == basePos
    }

    /** The file a disk number stands for. */
    function FileOf(number: int): int {
      if number >= 0 && diskSize > 0 then number else -1
    }

    /** Disks 0 to `last` are there, nothing but the last of them is part-filled. */
    ghost predicate Parts(last: int)
      reads this
    {
      && (forall i :: 0 <= i <= last ==> i in disks)
      && (forall i :: 0 <= i < last ==> |disks[i]| == diskSize)
    }

    /** Open for writing: the first disk starts with the magic number. */
    constructor (diskSize: int, disks: Disks)
      requires diskSize == 0 || diskSize >= 4
      ensures this.diskSize == diskSize && numberDisk == currentDisk == 0
      ensures if diskSize == 0 then Whole() && this.disks == disks[-1 := []]
              else Valid() && this.disks == disks[0 := MAGIC] && totalOut == 4
    {
      this.diskSize, this.disks := diskSize, disks;
      isOpen, basePos, numberDisk, currentDisk, totalOut, totalOutDisk := false, 0, 0, -1, 0, 0;
      new;
      GotoDisk(0);
    }

    method OpenDisk(number: int)
      modifies this
      ensures isOpen && currentDisk == number && numberDisk == old(numberDisk)
      ensures disks == old(disks)[FileOf(number) := if number == 0 && diskSize > 0 then MAGIC else []]
      ensures basePos == totalOutDisk == |disks[FileOf(number)]| && totalOut == old(totalOut) + totalOutDisk
    {
      disks := disks[FileOf(number) := []];
      basePos := 0;
      totalOutDisk, currentDisk := 0, number;
      if currentDisk == 0 && diskSize > 0 {
        PutBytes(MAGIC);
        assert [] + MAGIC == MAGIC;
        totalOutDisk := totalOutDisk + 4;
        totalOut := totalOut + totalOutDisk;
      }
      isOpen := true;
    }

    /** The base stream's write, at the end of the open file. */
    method PutBytes(data: seq<Byte>)
      requires FileOf(currentDisk) in disks && basePos == |disks[FileOf(currentDisk)]|
      modifies this`disks, this`basePos
      ensures disks == old(disks)[FileOf(currentDisk) := old(disks)[FileOf(currentDisk)] + data]
      ensures basePos == old(basePos) + |data|
    {
      disks := disks[FileOf(currentDisk) := disks[FileOf(currentDisk)] + data];
      basePos := basePos + |data|;
    }

    method GotoDisk(number: int)
      requires diskSize >= 0
      modifies this
      ensures diskSize == 0 && !old(isOpen) ==>
        && isOpen && currentDisk == number && numberDisk == old(numberDisk)
        && disks == old(disks)[-1 := []] && basePos == 0
      ensures diskSize > 0 && old(isOpen) && number == old(currentDisk) ==>
        && disks == old(disks) && isOpen && basePos == old(basePos) && numberDisk == old(numberDisk)
        && currentDisk == number
        && totalOut == old(totalOut) && totalOutDisk == old(totalOutDisk)
      ensures diskSize > 0 && !(old(isOpen) && number == old(currentDisk)) ==>
        && isOpen && numberDisk == currentDisk == number
        && disks == old(disks)[FileOf(number) := if number == 0 then MAGIC else []]
        && basePos == totalOutDisk == |disks[FileOf(number)]| && totalOut == old(totalOut) + totalOutDisk
    {
      if diskSize == 0 {
        if !isOpen {
          OpenDisk(number);
        }
      } else if number != currentDisk || !isOpen {
        isOpen := false;
        OpenDisk(number);
        numberDisk := number;
      }
    }

    /** `MZ_STREAM_PROP_DISK_NUMBER`: what follows goes to the central directory file. */
    method SelectDirectory()
      requires Valid() || Whole()
      modifies this`numberDisk
      ensures numberDisk == -1 && (old(Valid()) ==> Valid()) && (old(Whole()) ==> Whole())
    {
      numberDisk := -1;
    }

    /** Leave a full disk for the next one, or the numbered disks for the directory file. */
    method ChangeDisk()
      requires Valid()
      modifies this
      ensures Valid() && numberDisk == currentDisk
      ensures old(numberDisk) >= 0 ==>
        && numberDisk >= old(numberDisk) && totalOutDisk < diskSize
        && Concat(disks, 0, currentDisk + 1) == old(Concat(disks, 0, currentDisk + 1))
        && Others(old(disks), disks, currentDisk)
      ensures old(numberDisk) == -1 ==>
        numberDisk == -1 && disks == if old(currentDisk) == -1 then old(disks) else old(disks)[-1 := []]
    {
      var target := -1;
      if (totalOutDisk == diskSize && totalOut > 0) || (numberDisk == -1 && numberDisk != currentDisk) {
        if numberDisk != -1 {
          target := currentDisk + 1;
        }
        GotoDisk(target);
        if numberDisk >= 0 {
          ConcatSame(old(disks), disks, 0, currentDisk);
        }
      }
    }

    /** One turn of the write loop: change the disk if need be, then write as much as fits. */
    method WriteSome(rest: seq<Byte>) returns (n: nat)
      requires (Valid() || Whole()) && rest != []
      modifies this
      ensures 0 < n <= |rest|
      ensures old(Whole()) ==> Whole() && n == |rest| && disks == old(disks)[-1 := old(disks)[-1] + rest]
      ensures old(Valid()) ==> Valid() && numberDisk == currentDisk
      ensures old(Valid()) && old(numberDisk) >= 0 ==>
        && numberDisk >= old(numberDisk)
        && Concat(disks, 0, currentDisk + 1) == old(Concat(disks, 0, currentDisk + 1)) + rest[..n]
        && Others(old(disks), disks, currentDisk)
      ensures old(Valid()) && old(numberDisk) == -1 ==>
        && numberDisk == -1 && n == |rest|
        && disks == old(disks)[-1 := (if old(currentDisk) == -1 then old(disks)[-1] else []) + rest]
    {
      n := |rest|;
      if diskSize > 0 {
        ChangeDisk();
        if numberDisk != -1 {
          var avail := diskSize - totalOutDisk;
          if n > avail {
            n := avail;
          }
        }
      }
      ghost var before := disks;
      PutBytes(rest[..n]);
      assert n == |rest| ==> rest[..n] == rest;
      if diskSize > 0 && numberDisk >= 0 {
        ConcatSame(before, disks, 0, currentDisk);
      }
      totalOut := totalOut + n;
      totalOutDisk := totalOutDisk + n;
    }

    /** What the numbered disks hold together. */
    ghost function All(): seq<Byte>
      requires Valid() && currentDisk >= 0
      reads this
    {
      Concat(disks, 0, currentDisk + 1)
    }

    /** `d0` with `data` in the central directory file, which is emptied when it is opened. */
    static ghost function WithDirectory(d0: Disks, isThere: bool, data: seq<Byte>): Disks
      requires isThere ==> -1 in d0
    {
      if data == [] then d0 else d0[-1 := (if isThere then d0[-1] else []) + data]
    }

    /** All but the last `left` bytes of `data` have gone to the numbered disks, */
    ghost predicate WroteDisks(d0: Disks, all0: seq<Byte>, number: int, data: seq<Byte>, left: nat)
      requires left <= |data|
      reads this
    {
      && Valid() && numberDisk >= number && numberDisk >= 0 && Others(d0, disks, currentDisk)
      && All() == all0 + data[..|data| - left]
    }

    /** or, all at once, to the central directory file, */
    ghost predicate WroteDirectory(d0: Disks, disk: int, data: seq<Byte>, left: nat)
      requires left <= |data| && (disk == -1 ==> -1 in d0)
      reads this
    {
      && Valid() && numberDisk == -1 && (left == |data| || left == 0)
      && disks == WithDirectory(d0, disk == -1, if left == 0 then data else [])
      && currentDisk == if left == |data| then disk else -1
    }

    /** or to the one file there is. */
    ghost predicate WroteWhole(d0: Disks, data: seq<Byte>, left: nat)
      requires left <= |data| && -1 in d0
      reads this
    {
      && Whole() && (left > 0 ==> left == |data| && disks == d0)
      && (left == 0 ==> disks == d0[-1 := d0[-1] + data])
    }

    /** One turn of the write loop, seen from its start. */
    method WriteTurn(data: seq<Byte>, left: nat, ghost d0: Disks, ghost all0: seq<Byte>, ghost number: int,
                     ghost disk: int)
      returns (n: nat)
      requires (Valid() || Whole()) && 0 < left <= |data| && (disk == -1 || diskSize == 0 ==> -1 in d0)
      modifies this
      ensures (Valid() || Whole()) && 0 < n <= left
      ensures old(WroteDisks(d0, all0, number, data, left)) ==> WroteDisks(d0, all0, number, data, left - n)
      ensures old(WroteDirectory(d0, disk, data, left)) ==> WroteDirectory(d0, disk, data, left - n)
      ensures diskSize == 0 && old(WroteWhole(d0, data, left)) ==> WroteWhole(d0, data, left - n)
    {
      assert left == |data| ==> data[|data| - left..] == data;
      n := WriteSome(data[|data| - left..]);
      assert data[|data| - left..][..n] == data[|data| - left..|data| - (left - n)];
      PrefixJoin(data, |data| - left, |data| - (left - n));
      AppendAssoc(all0, data[..|data| - left], data[|data| - left..|data| - (left - n)]);
    }

    /** Numbered disks: the bytes are appended to what they hold together. The central directory file, and the one
        file there is if nothing is split: the bytes are appended to it, whatever its size. */
    method Write(data: seq<Byte>) returns (written: int)
      requires Valid() || Whole()
      modifies this
      ensures written == |data|
      ensures old(Valid()) && old(numberDisk) >= 0 ==> WroteDisks(old(disks), old(All()), old(numberDisk), data, 0)
      ensures old(Valid()) && old(numberDisk) == -1 ==> WroteDirectory(old(disks), old(currentDisk), data, 0)
      ensures old(Whole()) ==> WroteWhole(old(disks), data, 0)
    {
      ghost var d0, number, disk := disks, numberDisk, currentDisk;
      ghost var all0 := if Valid() && numberDisk >= 0 then All() else [];
      assert all0 + [] == all0 && (Whole() && data == [] ==> d0[-1] + data == d0[-1]);
      var left := |data|;
      while left > 0
        invariant 0 <= left <= |data| && (Valid() || Whole())
        invariant old(Valid()) && number >= 0 ==> WroteDisks(d0, all0, number, data, left)
        invariant old(Valid()) && number == -1 ==> WroteDirectory(d0, disk, data, left)
        invariant old(Whole()) ==> WroteWhole(d0, data, left)
        decreases left
      {
        var n := WriteTurn(data, left, d0, all0, number, disk);
        left := left - n;
      }
      written := |data| - left;
    }
  }

  // ----- reading

  /** A numbered disk is looked for before it is opened, the central directory file is not. */
  function Missing(number: int): int {
    if number >= 0 then MZ_EXIST_ERROR else MZ_OPEN_ERROR
  }

  class SplitReader {
    const disks: Disks
    var isOpen: bool
    var basePos: nat
    var numberDisk: int
    var currentDisk: int

    ghost predicate Valid()
      reads this
    {
      isOpen ==> currentDisk in disks && basePos <= |disks[currentDisk]|
    }

    constructor (disks: Disks)
      ensures Valid() && this.disks == disks && !isOpen && numberDisk == currentDisk == 0
    {
      this.disks, isOpen, basePos, numberDisk, currentDisk := disks, false, 0, 0, 0;
    }

    /** Positioned on the central directory file. */
    ghost predicate OnDirectory()
      reads this
    {
      Valid() && isOpen && currentDisk == numberDisk == -1
    }

    /** Open for reading: the central directory file is opened first. */
    method Open() returns (err: int)
      requires Valid() && !isOpen
      modifies this
      ensures if -1 in disks then err == MZ_OK && OnDirectory() && basePos == 0 else err == MZ_OPEN_ERROR
    {
      currentDisk := 0;
      err := GotoDisk(-1);
    }

    method SelectDisk(number: int)
      modifies this`numberDisk
      ensures numberDisk == number
    {
      numberDisk := number;
    }

    /** Open a disk; the first one must start with the magic number. */
    method OpenDisk(number: int) returns (err: int)
      modifies this
      ensures numberDisk == old(numberDisk)
      ensures number !in disks ==> err == Missing(number) && !isOpen && currentDisk == old(currentDisk)
      ensures number in disks ==>
        && currentDisk == number && isOpen
        && (err == MZ_OK <==> number == 0 ==> MAGIC <= disks[0])
        && (err == MZ_OK ==> basePos == (if number == 0 then 4 else 0))
        && (err != MZ_OK ==> err == MZ_FORMAT_ERROR) && basePos <= |disks[number]|
    {
      if number !in disks {
        isOpen := false;
        return Missing(number);
      }
      isOpen, basePos, currentDisk := true, 0, number;
      if currentDisk == 0 {
        var magic := Slice(disks[0], 0, 4);
        basePos := |magic|;
        if magic != MAGIC {
          return MZ_FORMAT_ERROR;
        }
      }
      return MZ_OK;
    }

    method GotoDisk(number: int) returns (err: int)
      requires Valid()
      modifies this
      ensures old(isOpen) && number == old(currentDisk) ==>
        err == MZ_OK && isOpen && basePos == old(basePos) && currentDisk == number && numberDisk == old(numberDisk)
      ensures !(old(isOpen) && number == old(currentDisk)) ==>
        && (number !in disks ==>
              err == Missing(number) && !isOpen && currentDisk == old(currentDisk) && numberDisk == old(numberDisk))
        && (number in disks ==>
              && isOpen && currentDisk == number
              && (err == MZ_OK <==> number == 0 ==> MAGIC <= disks[0])
              && (err == MZ_OK ==> numberDisk == number && basePos == (if number == 0 then 4 else 0))
              && (err != MZ_OK ==> err == MZ_FORMAT_ERROR) && basePos <= |disks[number]|)
    {
      err := MZ_OK;
      if number != currentDisk || !isOpen {
        isOpen := false;
        err := OpenDisk(number);
        if err == MZ_OK {
          numberDisk := number;
        }
      }
    }

    /** Positioned on one of the disks 0 to `count - 1`, the only numbered ones. */
    ghost predicate Sequential(count: int)
      reads this
    {
      && Valid() && 0 <= currentDisk == numberDisk < count && isOpen
      && (forall i :: 0 <= i < count ==> i in disks) && count !in disks
      && (currentDisk == 0 ==> MAGIC <= disks[0])
    }

    /** The missing-disk error was given: the last disk is closed, but still the one selected. */
    ghost predicate Ended(count: int)
      reads this
    {
      && !isOpen && currentDisk == -1 && 0 <= numberDisk == count - 1
      && (forall i :: 0 <= i < count ==> i in disks) && count !in disks
      && (numberDisk == 0 ==> MAGIC <= disks[0])
    }

    /** The last disk once more, from its start. */
    ghost function Again(count: int): seq<Byte>
      requires Ended(count)
      reads this
    {
      disks[numberDisk][if numberDisk == 0 then 4 else 0..]
    }

    /** `data` is what stands just before the position, on the current disk. */
    ghost predicate JustRead(data: seq<Byte>)
      reads this
    {
      && currentDisk in disks && |data| <= basePos <= |disks[currentDisk]|
      && data == disks[currentDisk][basePos - |data|..basePos]
    }

    /** What is still to be read. */
    ghost function Rest(count: int): seq<Byte>
      requires Sequential(count)
      reads this
    {
      disks[currentDisk][basePos..] + Concat(disks, currentDisk + 1, count)
    }

    /** At the end of a disk, go to the next one. */
    method NextDisk(ghost count: int) returns (err: int)
      requires Sequential(count) && basePos == |disks[currentDisk]|
      modifies this
      ensures err == MZ_OK || err == MZ_EXIST_ERROR
      ensures err == MZ_OK ==>
        Sequential(count) && currentDisk == old(currentDisk) + 1 && Rest(count) == old(Rest(count))
      ensures err == MZ_EXIST_ERROR ==> old(Rest(count)) == [] && Ended(count)
    {
      if currentDisk + 1 < count {
        ConcatFirst(disks, currentDisk + 1, count);
      }
      err := GotoDisk(currentDisk + 1);
      if err == MZ_EXIST_ERROR {
        currentDisk := -1;
      }
    }

    /** The base stream's read. */
    method Take(left: nat) returns (got: seq<Byte>)
      requires Valid() && isOpen && left > 0
      modifies this`basePos
      ensures Valid() && |got| <= left && (got == [] <==> old(basePos) == |disks[currentDisk]|)
      ensures basePos == old(basePos) + |got| && forall data :: old(JustRead(data)) ==> JustRead(data + got)
      ensures forall count: int :: old(Sequential(count)) ==> Sequential(count) && got + Rest(count) == old(Rest(count))
    {
      got := Slice(disks[currentDisk], basePos, left);
      ghost var at := basePos;
      basePos := basePos + |got|;
      assert got == disks[currentDisk][at..basePos];
      forall data | old(JustRead(data)) ensures JustRead(data + got) {
        SliceJoin(disks[currentDisk], at - |data|, at, basePos);
      }
      assert disks[currentDisk][at..] == got + disks[currentDisk][basePos..];
      forall count: int | old(Sequential(count)) ensures got + Rest(count) == old(Rest(count)) {
        AppendAssoc(got, disks[currentDisk][basePos..], Concat(disks, currentDisk + 1, count));
      }
    }

    /** What the next read starts with. */
    ghost function Ahead(count: int): seq<Byte>
      requires Sequential(count) || Ended(count)
      reads this
    {
      if Sequential(count) then Rest(count) else Again(count)
    }

    /** The first step of a read: go to the selected disk, which after the error is the last one, closed before. */
    method Resume(ghost count: int) returns (err: int)
      requires Sequential(count) || OnDirectory() || Ended(count)
      modifies this
      ensures err == MZ_OK
      ensures old(Sequential(count)) || old(Ended(count)) ==> Sequential(count) && Rest(count) == old(Ahead(count))
      ensures old(OnDirectory()) ==> OnDirectory() && basePos == old(basePos)
    {
      ghost var ahead := if OnDirectory() then [] else Ahead(count);
      err := GotoDisk(numberDisk);
      if !OnDirectory() {
        assert ahead + [] == ahead;
      }
    }

    /** Read on, never across the end of a disk; the error comes when no byte is left. After it the last disk is read
        again from its start. The central directory file is read to its end. */
    method Read(size: nat, ghost count: int) returns (err: int, data: seq<Byte>)
      requires Sequential(count) || OnDirectory() || Ended(count)
      modifies this
      ensures old(Sequential(count)) || old(Ended(count)) ==>
        && (err == MZ_OK || err == MZ_EXIST_ERROR)
        && (err == MZ_OK ==> Sequential(count) && |data| <= size && old(Ahead(count)) == data + Rest(count))
        && (err == MZ_OK ==> JustRead(data) && (size > 0 ==> data != []))
        && (err == MZ_EXIST_ERROR ==> data == [] && old(Ahead(count)) == [] && Ended(count) && size > 0)
      ensures old(OnDirectory()) ==>
        && err == MZ_OK && OnDirectory() && JustRead(data) && basePos == old(basePos) + |data|
        && |data| <= size && (|data| < size ==> basePos == |disks[-1]|)
    {
      err := Resume(count);
      if err != MZ_OK {
        return err, [];
      }
      data := [];
      var left := size;
      while left > 0
        invariant 0 <= left == size - |data| && JustRead(data)
        invariant !old(OnDirectory()) ==> Sequential(count) && old(Ahead(count)) == data + Rest(count)
        invariant old(OnDirectory()) ==> OnDirectory() && basePos == old(basePos) + |data|
        decreases count - currentDisk, left
      {
        var got := Take(left);
        if got == [] {
          if currentDisk < 0 {
            break;
          }
          if size != left {
            break;
          }
          err := NextDisk(count);
          if err != MZ_OK {
            return err, [];
          }
        }
        if !old(OnDirectory()) {
          AppendAssoc(data, got, Rest(count));
        }
        data := data + got;
        left := left - |got|;
      }
      err := MZ_OK;
    }
  }

  // ----- there and back

  /** Write the pieces one after the other. */
  method WriteChunks(w: SplitWriter, chunks: seq<seq<Byte>>)
    requires w.Valid() && w.numberDisk >= 0 && Others(map[], w.disks, w.currentDisk)
    requires Concat(w.disks, 0, w.currentDisk + 1) == MAGIC
    modifies w
    ensures w.Valid() && w.numberDisk >= 0 && Others(map[], w.disks, w.currentDisk)
    ensures Concat(w.disks, 0, w.currentDisk + 1) == MAGIC + Flatten(chunks)
  {
    for k := 0 to |chunks|
      invariant w.Valid() && w.numberDisk >= 0 && Others(map[], w.disks, w.currentDisk)
      invariant Concat(w.disks, 0, w.currentDisk + 1) == MAGIC + Flatten(chunks[..k])
    {
      var _ := w.Write(chunks[k]);
      FlattenStep(MAGIC, chunks, k);
    }
    assert chunks[..|chunks|] == chunks;
  }

  /** Write the pieces, then the directory; an empty one leaves no file. */
  method WriteAll(diskSize: int, chunks: seq<seq<Byte>>, directory: seq<Byte>) returns (disks: Disks, last: nat)
    requires diskSize >= 4
    ensures forall i :: i in disks <==> 0 <= i <= last || (i == -1 && directory != [])
    ensures forall i :: 0 <= i < last ==> |disks[i]| == diskSize
    ensures |disks[last]| <= diskSize
    ensures Concat(disks, 0, last + 1) == MAGIC + Flatten(chunks)
    ensures directory != [] ==> disks[-1] == directory
  {
    var w := new SplitWriter(diskSize, map[]);
    WriteChunks(w, chunks);
    last := w.currentDisk;
    ghost var before := w.disks;
    w.SelectDirectory();
    var _ := w.Write(directory);
    disks := w.disks;
    ConcatSame(before, disks, 0, last + 1);
    assert [] + directory == directory;
  }

  /** Read from disk 0 on, in pieces of any size, until the error says that there is no further disk. */
  method ReadDisks(r: SplitReader, ghost count: int) returns (err: int, data: seq<Byte>)
    requires r.OnDirectory() && count > 0 && count !in r.disks && (forall i :: 0 <= i < count ==> i in r.disks)
    requires MAGIC <= r.disks[0]
    modifies r
    ensures err == MZ_EXIST_ERROR && MAGIC + data == Concat(r.disks, 0, count)
  {
    r.SelectDisk(0);
    err := r.GotoDisk(0);
    ConcatFirst(r.disks, 0, count);
    data := [];
    while err == MZ_OK
      invariant err == MZ_OK || err == MZ_EXIST_ERROR
      invariant err == MZ_OK ==> r.Sequential(count) && MAGIC + data + r.Rest(count) == Concat(r.disks, 0, count)
      invariant err == MZ_EXIST_ERROR ==> MAGIC + data == Concat(r.disks, 0, count)
      decreases err == MZ_OK, |Concat(r.disks, 0, count)| - |data|
    {
      var size: nat :| size > 0;
      var got;
      err, got := r.Read(size, count);
      AppendAssoc(MAGIC, data, got);
      if err == MZ_OK {
        AppendAssoc(MAGIC + data, got, r.Rest(count));
      }
      data := data + got;
    }
  }

  /** Open and read; without a central directory file there is no opening. */
  method ReadAll(disks: Disks, ghost count: int) returns (err: int, data: seq<Byte>)
    requires count > 0 && count !in disks && (forall i :: 0 <= i < count ==> i in disks) && MAGIC <= disks[0]
    ensures if -1 in disks then err == MZ_EXIST_ERROR && MAGIC + data == Concat(disks, 0, count)
            else err == MZ_OPEN_ERROR && data == []
  {
    var r := new SplitReader(disks);
    data := [];
    err := r.Open();
    if err == MZ_OK {
      err, data := ReadDisks(r, count);
    }
  }

  method RoundTrip(diskSize: int, chunks: seq<seq<Byte>>, directory: seq<Byte>) returns (err: int, data: seq<Byte>)
    requires diskSize >= 4
    ensures if directory == [] then err == MZ_OPEN_ERROR else err == MZ_EXIST_ERROR && data == Flatten(chunks)
  {
    var disks, last := WriteAll(diskSize, chunks, directory);
    ghost var all := MAGIC + Flatten(chunks);
    ConcatFirst(disks, 0, last + 1);
    assert all[..4] == MAGIC && all[4..] == Flatten(chunks);
    assert last == 0 ==> disks[0] == all;
    assert disks[0][..4] == all[..4];
    err, data := ReadAll(disks, last + 1);
    assert (MAGIC + data)[4..] == data;
  }

  // ----- without splitting

  /** With a disk size of zero, all bytes go to one file, without a magic number. */
  method WriteUnsplit(chunks: seq<seq<Byte>>) returns (disks: Disks)
    ensures disks == map[-1 := Flatten(chunks)]
  {
    var w := new SplitWriter(0, map[]);
    ghost var done := [];
    for k := 0 to |chunks|
      invariant fresh(w) && w.diskSize == 0 && w.Whole() && done == Flatten(chunks[..k]) && w.disks == map[-1 := done]
    {
      var _ := w.Write(chunks[k]);
      FlattenNext(chunks, k);
      done := done + chunks[k];
    }
    assert chunks[..|chunks|] == chunks;
    disks := w.disks;
  }

  /** Read the one file in pieces of any size, until nothing comes. */
  method ReadUnsplit(disks: Disks) returns (err: int, data: seq<Byte>)
    requires -1 in disks
    ensures err == MZ_OK && data == disks[-1]
  {
    var r := new SplitReader(disks);
    err := r.Open();
    data := [];
    while true
      invariant fresh(r) && r.disks == disks && err == MZ_OK && r.OnDirectory() && data == disks[-1][..r.basePos]
      decreases |disks[-1]| - r.basePos
    {
      var size: nat :| size > 0;
      ghost var at := r.basePos;
      var got;
      err, got := r.Read(size, 0);
      if got == [] {
        break;
      }
      PrefixJoin(disks[-1], at, r.basePos);
      data := data + got;
    }
  }

  method UnsplitRoundTrip(chunks: seq<seq<Byte>>) returns (err: int, data: seq<Byte>)
    ensures err == MZ_OK && data == Flatten(chunks)
  {
    var disks := WriteUnsplit(chunks);
    err, data := ReadUnsplit(disks);
  }
}
