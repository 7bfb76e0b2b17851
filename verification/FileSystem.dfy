// The file system's objects: the disk, the bitmap of free sectors, file
// headers, open files, the directory and the file system itself.  Each method
// is proved against the description of the disk in FsModel and FsRuns.

module FileSystem {
  import opened Basics
  import opened MachineWords
  import opened FsModel
  import opened FsCodec
  import opened FsVolume
  import opened FsRuns
  import opened FsMeta

  // -------------------------------------------------------------------- buffers

  // bcopy between two buffers.
  method Bcopy(from: array<byte>, fromAt: nat, into: array<byte>, intoAt: nat, n: nat)
    requires from != into && fromAt + n <= from.Length && intoAt + n <= into.Length
    modifies into
    ensures into[..] == Splice(old(into[..]), intoAt, from[fromAt..fromAt + n])
  {
    forall k | 0 <= k < n {
      into[intoAt + k] := from[fromAt + k];
    }
  }

  // The disk as the rest of the kernel sees it: whole sectors, one at a time.
  class SynchDisk {
    var image: Disk

    constructor (image: Disk)
      ensures this.image == image
    {
      this.image := image;
    }

    method ReadSector(sectorNumber: int, data: array<byte>, at: nat)
      requires 0 <= sectorNumber < NUM_SECTORS && at + SECTOR_SIZE <= data.Length
      modifies data
      ensures data[..] == Splice(old(data[..]), at, image[sectorNumber])
    {
      var sector := image[sectorNumber];
      forall k | 0 <= k < SECTOR_SIZE {
        data[at + k] := sector[k];
      }
    }

    method WriteSector(sectorNumber: int, data: array<byte>, at: nat)
      requires 0 <= sectorNumber < NUM_SECTORS && at + SECTOR_SIZE <= data.Length
      modifies this
      ensures image == old(image)[sectorNumber := data[at..at + SECTOR_SIZE]]
    {
      image := image[sectorNumber := data[at..at + SECTOR_SIZE]];
    }
  }

  // --------------------------------------------------------------------- bitmap

  class BitMap {
    const numBits: nat
    const words: array<Word>

    ghost predicate Valid() {
      words.Length == numBits / 32 + if numBits % 32 > 0 then 1 else 0
    }

    function Bits(): (bits: seq<bool>)
      requires Valid()
      reads words
      ensures |bits| == numBits
    {
      BitsOf(words[..], numBits)
    }

    // The words are not initialised; every bit is cleared in turn.
    constructor (nitems: nat)
      ensures Valid() && fresh(words) && numBits == nitems
      ensures Bits() == seq(nitems, _ => false)
    {
      numBits := nitems;
      words := new Word[nitems / 32 + if nitems % 32 > 0 then 1 else 0];
      new;
      var i := 0;
      while i < nitems
        invariant 0 <= i <= nitems && Valid()
        invariant forall k :: 0 <= k < i ==> !Bits()[k]
      {
        Clear(i);
        i := i + 1;
      }
    }

    method Mark(which: int)
      requires Valid() && 0 <= which < numBits
      modifies words
      ensures Bits() == old(Bits())[which := true]
    {
      WordSize();
      BitFits(words[which / 32], which % 32, 32);
      SetInBits(words[..], numBits, which);
      words[which / 32] := SetBit(words[which / 32], which % 32);
      assert words[..] == old(words[..])[which / 32 := SetBit(old(words[..])[which / 32], which % 32)];
    }

    method Clear(which: int)
      requires Valid() && 0 <= which < numBits
      modifies words
      ensures Bits() == old(Bits())[which := false]
    {
      WordSize();
      BitFits(words[which / 32], which % 32, 32);
      ClearInBits(words[..], numBits, which);
      words[which / 32] := ClearBit(words[which / 32], which % 32);
      assert words[..] == old(words[..])[which / 32 := ClearBit(old(words[..])[which / 32], which % 32)];
    }

    method Test(which: int) returns (marked: bool)
      requires Valid() && 0 <= which < numBits
      ensures marked == Bits()[which]
    {
      marked := Bit(words[which / 32], which % 32);
    }

    // Marks the first clear bit; -1 when there is none.
    method Find() returns (found: int)
      requires Valid()
      modifies words
      ensures found == if FirstClear(old(Bits())) == numBits then -1 else FirstClear(old(Bits()))
      ensures Bits() == if found == -1 then old(Bits()) else old(Bits())[found := true]
    {
      var i := 0;
      while i < numBits
        invariant 0 <= i <= numBits && words[..] == old(words[..])
        invariant forall k :: 0 <= k < i ==> Bits()[k]
      {
        var marked := Test(i);
        if !marked {
          Mark(i);
          return i;
        }
        i := i + 1;
      }
      assert Bits() == old(Bits()) && FirstClear(Bits()) == numBits;
      return -1;
    }

    method NumClear() returns (count: nat)
      requires Valid()
      ensures count == FsModel.NumClear(Bits())
    {
      count := 0;
      var i := 0;
      while i < numBits
        invariant 0 <= i <= numBits
        invariant count == FsModel.NumClear(Bits()[..i])
      {
        var marked := Test(i);
        assert Bits()[..i + 1][..i] == Bits()[..i];
        if !marked {
          count := count + 1;
        }
        i := i + 1;
      }
      assert Bits()[..numBits] == Bits();
    }

    // The bitmap's words, read from the start of its file.
    method FetchFrom(file: OpenFile, ghost at: nat)
      requires Valid() && file.Valid(at) && file.hdr.numBytes == 4 * words.Length
      requires words != file.hdr.dataSectors
      modifies words
      ensures words[..] == WordsAt(Contents(file.disk.image, file.hdr.Extent(at)), 0, words.Length)
    {
      ghost var c := Contents(file.disk.image, file.hdr.Extent(at));
      ContentsLength(file.disk.image, file.hdr.Extent(at));
      var buf := new byte[4 * words.Length];
      var _ := file.ReadAt(buf, 0, 4 * words.Length, 0, at);
      var s := buf[..];
      assert s == c;
      WordsFit(s, 0, words.Length);
      var fetched := WordsAt(s, 0, words.Length);
      forall k | 0 <= k < words.Length {
        words[k] := fetched[k];
      }
    }

    method WriteBack(file: OpenFile, ghost at: nat)
      requires Valid() && file.Valid(at)
      modifies file.disk
      ensures Wrote(old(file.disk.image), file.disk.image, file.hdr.Extent(at), EncodeWords(words[..]), 0)
    {
      var bytes := EncodeWords(words[..]);
      var buf := new byte[|bytes|](k requires 0 <= k < |bytes| => bytes[k]);
      assert buf[..|bytes|] == bytes;
      var _ := file.WriteAt(buf, |bytes|, 0, at);
    }
  }

  // --------------------------------------------------------------- file headers

  class FileHeader {
    var numBytes: Word
    var numSectors: Word
    const dataSectors: array<Word>

    // No initialisation: the fields hold whatever memory held.
    constructor ()
      ensures fresh(dataSectors) && dataSectors.Length == NUM_DIRECT
    {
      dataSectors := new Word[NUM_DIRECT];
    }

    // The header, as one stored in sector at.
    function Extent(at: nat): Extent
      reads this, dataSectors
    {
      FsModel.Extent(at, numBytes, if numSectors <= dataSectors.Length then dataSectors[..numSectors] else [])
    }

    method Allocate(freeMap: BitMap, fileSize: nat) returns (ok: bool)
      requires freeMap.Valid() && freeMap.numBits <= W32 && freeMap.words != dataSectors
      requires fileSize <= MAX_FILE_SIZE && dataSectors.Length == NUM_DIRECT
      modifies this, dataSectors, freeMap.words
      ensures var taken := FsModel.Allocate(old(freeMap.Bits()), fileSize);
        && ok == taken.Some?
        && if ok then
             && freeMap.Bits() == taken.value.0 && |taken.value.1| <= NUM_DIRECT
             && numBytes == fileSize && numSectors == |taken.value.1| && dataSectors[..numSectors] == taken.value.1
             && fileSize <= SECTOR_SIZE * numSectors < fileSize + SECTOR_SIZE
           else freeMap.Bits() == old(freeMap.Bits())
    {
      AllocateCases(freeMap.Bits(), fileSize);
      numBytes := fileSize;
      numSectors := fileSize / SECTOR_SIZE + if fileSize % SECTOR_SIZE > 0 then 1 else 0;
      assert numSectors == SectorsFor(fileSize) <= NUM_DIRECT;
      var free := freeMap.NumClear();
      if free < numSectors {
        return false;
      }
      TakeSectors(freeMap, numSectors);
      return true;
    }

    // One free sector, marked and noted at i.
    method TakeOne(freeMap: BitMap, i: nat, ghost bits: seq<bool>, ghost done: seq<nat>, ghost left: nat)
        returns (ghost bits': seq<bool>, ghost done': seq<nat>)
      requires freeMap.Valid() && freeMap.numBits <= W32 && freeMap.words != dataSectors
      requires i < dataSectors.Length && freeMap.Bits() == bits && dataSectors[..i] == done
      requires Spare(bits, left) >= 0 && left > 0
      modifies dataSectors, freeMap.words
      ensures freeMap.Bits() == bits' && dataSectors[..i + 1] == done'
      ensures Outcome(bits', done', left - 1) == Outcome(bits, done, left) && Spare(bits', left - 1) >= 0
    {
      bits', done' := TakeNext(bits, done, left);
      var found := freeMap.Find();
      dataSectors[i] := found;
    }

    // The loop of Allocate: one free sector after another.
    method TakeSectors(freeMap: BitMap, n: nat)
      requires freeMap.Valid() && freeMap.numBits <= W32 && freeMap.words != dataSectors
      requires n <= NUM_DIRECT == dataSectors.Length && n <= FsModel.NumClear(freeMap.Bits())
      modifies dataSectors, freeMap.words
      ensures (freeMap.Bits(), dataSectors[..n]) == Take(old(freeMap.Bits()), n)
    {
      ghost var bits, done: seq<nat>, left: nat := freeMap.Bits(), [], n;
      ghost var all := Take(bits, n);
      TakeAll(bits, n);
      var i: nat := 0;
      while i < n
        invariant i <= n && left == n - i
        invariant freeMap.Bits() == bits && dataSectors[..i] == done
        invariant Outcome(bits, done, left) == all && Spare(bits, left) >= 0
      {
        bits, done := TakeOne(freeMap, i, bits, done, left);
        left := left - 1;
        i := i + 1;
      }
      TakeNone(bits, done);
    }

    // The source asserts that each sector is marked when its turn comes.
    method Deallocate(freeMap: BitMap)
      requires freeMap.Valid() && dataSectors.Length == NUM_DIRECT && numSectors <= NUM_DIRECT && freeMap.words != dataSectors
      requires forall k :: 0 <= k < numSectors ==> dataSectors[k] < freeMap.numBits && freeMap.Bits()[dataSectors[k]]
      requires forall k, l :: 0 <= k < l < numSectors ==> dataSectors[k] != dataSectors[l]
      modifies freeMap.words
      ensures freeMap.Bits() == Give(old(freeMap.Bits()), dataSectors[..numSectors])
    {
      var i: nat := 0;
      while i < numSectors
        invariant i <= numSectors
        invariant forall k :: i <= k < numSectors ==> freeMap.Bits()[dataSectors[k]]
        invariant Give(old(freeMap.Bits()), dataSectors[..numSectors]) == Give(freeMap.Bits(), dataSectors[i..numSectors])
      {
        var marked := freeMap.Test(dataSectors[i]);
        assert marked;
        assert dataSectors[i..numSectors][1..] == dataSectors[i + 1..numSectors];
        freeMap.Clear(dataSectors[i]);
        i := i + 1;
      }
      assert dataSectors[i..numSectors] == [];
    }

    // The header is stored as it lies in memory, unused places included.
    method FetchFrom(disk: SynchDisk, sector: int)
      requires 0 <= sector < NUM_SECTORS && dataSectors.Length == NUM_DIRECT
      modifies this, dataSectors
      ensures WordAt(disk.image[sector], 1) <= NUM_DIRECT ==> Extent(sector) == HeaderAt(disk.image, sector)
      ensures WordAt(disk.image[sector], 1) <= NUM_DIRECT ==> numSectors <= NUM_DIRECT
    {
      var data := new byte[SECTOR_SIZE];
      disk.ReadSector(sector, data, 0);
      var s := data[..];
      assert s == disk.image[sector];
      WordFits(s, 0);
      WordFits(s, 1);
      numBytes, numSectors := WordAt(s, 0), WordAt(s, 1);
      var words := WordsAt(s, 2, NUM_DIRECT);
      WordsFit(s, 2, NUM_DIRECT);
      forall k | 0 <= k < NUM_DIRECT {
        dataSectors[k] := words[k];
      }
      if numSectors <= NUM_DIRECT {
        assert dataSectors[..numSectors] == WordsAt(s, 2, numSectors);
      }
    }

    method WriteBack(disk: SynchDisk, sector: int)
      requires 0 <= sector < NUM_SECTORS && dataSectors.Length == NUM_DIRECT && numSectors <= NUM_DIRECT
      modifies disk
      ensures |EncodeHeader(numBytes, numSectors, dataSectors[..])| == SECTOR_SIZE
      ensures disk.image == old(disk.image)[sector := EncodeHeader(numBytes, numSectors, dataSectors[..])]
    {
      HeaderSize(numBytes, numSectors, dataSectors[..]);
      var bytes := EncodeHeader(numBytes, numSectors, dataSectors[..]);
      var data := new byte[SECTOR_SIZE](k requires 0 <= k < |bytes| => bytes[k]);
      assert data[0..SECTOR_SIZE] == bytes;
      disk.WriteSector(sector, data, 0);
    }

    method ByteToSector(offset: nat) returns (sector: nat)
      requires offset / SECTOR_SIZE < dataSectors.Length
      ensures sector == dataSectors[offset / SECTOR_SIZE]
    {
      sector := dataSectors[offset / SECTOR_SIZE];
    }

    method FileLength() returns (length: nat)
      ensures length == numBytes
    {
      length := numBytes;
    }
  }

  // ----------------------------------------------------------------- open files

  class OpenFile {
    const disk: SynchDisk
    const hdr: FileHeader
    var seekPosition: nat

    // The header is brought into memory and stays there.
    constructor (disk: SynchDisk, sector: int)
      requires 0 <= sector < NUM_SECTORS && Sound(HeaderAt(disk.image, sector))
      ensures this.disk == disk && fresh(hdr) && fresh(hdr.dataSectors) && Valid(sector)
      ensures hdr.Extent(sector) == HeaderAt(disk.image, sector) && seekPosition == 0
    {
      this.disk := disk;
      hdr := new FileHeader();
      seekPosition := 0;
      new;
      hdr.FetchFrom(disk, sector);
    }

    // at is the sector of the header, which the object does not keep.
    ghost predicate Valid(at: nat)
      reads hdr, hdr.dataSectors
    {
      && hdr.dataSectors.Length == NUM_DIRECT && hdr.numSectors <= NUM_DIRECT
      && Sound(hdr.Extent(at))
    }

    // The file's length and its part that a request can reach.
    method Clamped(numBytes: int, position: nat) returns (n: nat)
      ensures n == Clamp(numBytes, position, hdr.numBytes)
    {
      var fileLength := hdr.FileLength();
      if numBytes <= 0 || position >= fileLength {
        return 0;
      }
      n := numBytes;
      if position + numBytes > fileLength {
        n := fileLength - position;
      }
    }

    // Reads whole sectors of the file, the first to the last of a request.
    method LoadSectors(firstSector: nat, lastSector: nat, ghost at: nat) returns (buf: array<byte>)
      requires Valid(at) && firstSector <= lastSector < hdr.numSectors
      ensures fresh(buf) && buf.Length == (1 + lastSector - firstSector) * SECTOR_SIZE
      ensures Loaded(buf[..], disk.image, hdr.Extent(at), firstSector, 1 + lastSector - firstSector)
    {
      buf := new byte[(1 + lastSector - firstSector) * SECTOR_SIZE];
      ghost var d, e, loaded := disk.image, hdr.Extent(at), buf[..];
      var i := firstSector;
      while i <= lastSector
        invariant firstSector <= i <= lastSector + 1 && buf[..] == loaded
        invariant Loaded(loaded, d, e, firstSector, i - firstSector)
      {
        var sector := hdr.ByteToSector(i * SECTOR_SIZE);
        LoadOne(loaded, d, e, firstSector, i - firstSector, sector);
        disk.ReadSector(sector, buf, (i - firstSector) * SECTOR_SIZE);
        loaded := buf[..];
        i := i + 1;
      }
    }

    // Moves the file's bytes into a buffer, clamped at the end of the file.
    method ReadAt(into: array<byte>, intoAt: nat, numBytes: int, position: nat, ghost at: nat) returns (count: nat)
      requires Valid(at) && intoAt + Clamp(numBytes, position, hdr.numBytes) <= into.Length
      modifies into
      ensures count == Clamp(numBytes, position, hdr.numBytes)
      ensures into[..] == Splice(old(into[..]), intoAt, Range(Contents(disk.image, hdr.Extent(at)), position, count))
    {
      ghost var e := hdr.Extent(at);
      ContentsLength(disk.image, e);
      var n := Clamped(numBytes, position);
      if n == 0 {
        SpliceNothing(into[..], intoAt);
        assert Range(Contents(disk.image, e), position, 0) == [];
        return 0;
      }
      SectorSpan(position, n, e.length);
      var firstSector := position / SECTOR_SIZE;
      var lastSector := (position + n - 1) / SECTOR_SIZE;
      var buf := LoadSectors(firstSector, lastSector, at);
      var offset := position - firstSector * SECTOR_SIZE;
      ghost var bytes := Range(Contents(disk.image, e), position, n);
      assert buf[offset..offset + n] == bytes by {
        LoadedRange(buf[..], disk.image, e, firstSector, 1 + lastSector - firstSector, position, n);
        assert buf[..][offset..offset + n] == buf[offset..offset + n];
      }
      Bcopy(buf, offset, into, intoAt, n);
      assert hdr.Extent(at) == e;
      return n;
    }

    // One sector of the file from its place in the buffer.
    method StoreSector(buf: array<byte>, firstSector: nat, i: nat, ghost at: nat,
                       ghost d: Disk, ghost was: Disk, ghost e: Extent, ghost bytes: Bytes) returns (ghost now: Disk)
      requires Valid(at) && firstSector <= i < hdr.numSectors && (i - firstSector + 1) * SECTOR_SIZE <= buf.Length
      requires disk.image == was && hdr.Extent(at) == e && buf[..] == bytes
      requires Stored(d, was, e, bytes, firstSector, i - firstSector)
      modifies disk
      ensures disk.image == now && Stored(d, now, e, bytes, firstSector, i + 1 - firstSector)
    {
      var sector := hdr.ByteToSector(i * SECTOR_SIZE);
      var k := (i - firstSector) * SECTOR_SIZE;
      ghost var chunk: Sector := bytes[k..k + SECTOR_SIZE];
      now := was[sector := chunk];
      StoreOne(d, was, e, bytes, firstSector, i - firstSector, sector, chunk);
      assert buf[k..k + SECTOR_SIZE] == chunk;
      disk.WriteSector(sector, buf, k);
    }

    // Writes whole sectors of the file from a buffer.
    method StoreSectors(buf: array<byte>, firstSector: nat, lastSector: nat, ghost at: nat)
      requires Valid(at) && firstSector <= lastSector < hdr.numSectors
      requires buf.Length == (1 + lastSector - firstSector) * SECTOR_SIZE
      modifies disk
      ensures Stored(old(disk.image), disk.image, hdr.Extent(at), buf[..], firstSector, 1 + lastSector - firstSector)
    {
      ghost var d, e, bytes := disk.image, hdr.Extent(at), buf[..];
      ghost var now := d;
      var i := firstSector;
      StoreNone(d, e, bytes, firstSector);
      while i <= lastSector
        invariant firstSector <= i <= lastSector + 1
        invariant disk.image == now && Stored(d, now, e, bytes, firstSector, i - firstSector)
      {
        now := StoreSector(buf, firstSector, i, at, d, now, e, bytes);
        i := i + 1;
      }
    }

    // Reads one sector's part of the file to its place in the buffer of a write.
    method ReadWhole(buf: array<byte>, firstSector: nat, k: nat, ghost at: nat)
      requires Valid(at) && firstSector <= k && (k - firstSector) * SECTOR_SIZE + SECTOR_SIZE <= buf.Length
      modifies buf
      ensures buf[..] == WithSector(old(buf[..]), Contents(disk.image, hdr.Extent(at)), firstSector, k)
    {
      ContentsLength(disk.image, hdr.Extent(at));
      var _ := ReadAt(buf, (k - firstSector) * SECTOR_SIZE, SECTOR_SIZE, k * SECTOR_SIZE, at);
    }

    // The buffer of a write, with the sectors that change only in part.
    method ReadPartial(n: nat, position: nat, firstSector: nat, lastSector: nat, ghost at: nat) returns (buf: array<byte>)
      requires Valid(at) && firstSector <= lastSector
      ensures fresh(buf) && buf.Length == (1 + lastSector - firstSector) * SECTOR_SIZE
      ensures PartsRead(buf[..], Contents(disk.image, hdr.Extent(at)), position, n, firstSector, lastSector)
    {
      ghost var c := Contents(disk.image, hdr.Extent(at));
      buf := new byte[(1 + lastSector - firstSector) * SECTOR_SIZE];
      var firstAligned := position == firstSector * SECTOR_SIZE;
      var lastAligned := position + n == (lastSector + 1) * SECTOR_SIZE;
      if !firstAligned {
        SectorRead(buf[..], c, firstSector, firstSector, lastSector);
        ReadWhole(buf, firstSector, firstSector, at);
      }
      if !lastAligned && (firstSector != lastSector || firstAligned) {
        SectorRead(buf[..], c, firstSector, lastSector, firstSector);
        ReadWhole(buf, firstSector, lastSector, at);
      }
    }

    // And with the new bytes copied in.
    method FillBuffer(from: array<byte>, n: nat, position: nat, firstSector: nat, lastSector: nat, ghost at: nat) returns (buf: array<byte>)
      requires Valid(at) && 0 < n <= from.Length && position + n <= hdr.numBytes
      requires firstSector == position / SECTOR_SIZE && lastSector == (position + n - 1) / SECTOR_SIZE
      ensures fresh(buf) && buf.Length == (1 + lastSector - firstSector) * SECTOR_SIZE
      ensures Filled(buf[..], Put(Contents(disk.image, hdr.Extent(at)), position, from[..n]), firstSector, 1 + lastSector - firstSector)
    {
      ghost var e, data := hdr.Extent(at), from[0..n];
      ghost var c := Contents(disk.image, e);
      ContentsLength(disk.image, e);
      buf := ReadPartial(n, position, firstSector, lastSector, at);
      ghost var full := BufferFilled(buf[..], c, data, position, firstSector, lastSector);
      Bcopy(from, 0, buf, position - firstSector * SECTOR_SIZE, n);
      assert buf[..] == full;
      assert hdr.Extent(at) == e && from[..n] == data;
    }

    // Replaces bytes of the file, clamped at its end, and changes no other file byte.
    method WriteAt(from: array<byte>, numBytes: int, position: nat, ghost at: nat) returns (count: nat)
      requires Valid(at) && numBytes <= from.Length
      modifies disk
      ensures count == Clamp(numBytes, position, hdr.numBytes)
      ensures Wrote(old(disk.image), disk.image, hdr.Extent(at), from[..if numBytes < 0 then 0 else numBytes], position)
    {
      ghost var d, e := disk.image, hdr.Extent(at);
      ContentsLength(d, e);
      var n := Clamped(numBytes, position);
      if n == 0 {
        return 0;
      }
      SectorSpan(position, n, e.length);
      var firstSector := position / SECTOR_SIZE;
      var lastSector := (position + n - 1) / SECTOR_SIZE;
      ghost var c := Put(Contents(d, e), position, from[..n]);
      var buf := FillBuffer(from, n, position, firstSector, lastSector, at);
      StoreSectors(buf, firstSector, lastSector, at);
      StoredFile(d, disk.image, e, buf[..], firstSector, 1 + lastSector - firstSector, c);
      assert from[..numBytes][..n] == from[..n] && hdr.Extent(at) == e;
      return n;
    }

    method Seek(position: nat)
      modifies this
      ensures seekPosition == position
    {
      seekPosition := position;
    }

    method Read(into: array<byte>, numBytes: int, ghost at: nat) returns (result: nat)
      requires Valid(at) && Clamp(numBytes, seekPosition, hdr.numBytes) <= into.Length
      modifies into, this
      ensures result == Clamp(numBytes, old(seekPosition), hdr.numBytes) && seekPosition == old(seekPosition) + result
      ensures into[..] == Splice(old(into[..]), 0, Range(Contents(disk.image, hdr.Extent(at)), old(seekPosition), result))
    {
      result := ReadAt(into, 0, numBytes, seekPosition, at);
      seekPosition := seekPosition + result;
    }

    method Write(from: array<byte>, numBytes: int, ghost at: nat) returns (result: nat)
      requires Valid(at) && numBytes <= from.Length
      modifies disk, this
      ensures result == Clamp(numBytes, old(seekPosition), hdr.numBytes) && seekPosition == old(seekPosition) + result
      ensures Wrote(old(disk.image), disk.image, hdr.Extent(at), from[..if numBytes < 0 then 0 else numBytes], old(seekPosition))
    {
      result := WriteAt(from, numBytes, seekPosition, at);
      seekPosition := seekPosition + result;
    }
  }

  // ------------------------------------------------------------------ directory

  type DirectoryEntry = e: Entry | EntryOk(e) witness Entry(false, 0, Zeros(NAME_MAX + 1), Zeros(5))

  class Directory {
    const table: array<DirectoryEntry>

    constructor (size: nat)
      ensures fresh(table) && table.Length == size
      ensures forall k :: 0 <= k < size ==> !table[k].inUse
    {
      table := new DirectoryEntry[size];
      new;
      var i := 0;
      while i < size
        invariant 0 <= i <= size
        invariant forall k :: 0 <= k < i ==> !table[k].inUse
      {
        table[i] := table[i].(inUse := false);
        i := i + 1;
      }
    }

    // The place of a name in the table, or -1.  d is any disk: what the headers
    // hold does not matter here.
    method FindIndex(name: Bytes, ghost d: Disk) returns (index: int)
      requires CString(name)
      ensures var k := FindName(SlotsOf(d, table[..]), name);
        index == if k == table.Length then -1 else k
      ensures index >= 0 ==> table[index].inUse
    {
      ghost var slots := SlotsOf(d, table[..]);
      var i := 0;
      while i < table.Length
        invariant 0 <= i <= table.Length
        invariant forall k :: 0 <= k < i ==> !(slots[k].Some? && slots[k].value.name == Short(name))
      {
        NamesCompared(table[i].name, name);
        if table[i].inUse && SameName(table[i].name, name, NAME_MAX) {
          assert slots[i].Some? && slots[i].value.name == Short(name);
          return i;
        }
        i := i + 1;
      }
      return -1;
    }

    method Find(name: Bytes, ghost d: Disk) returns (sector: int)
      requires CString(name)
      ensures var k := FindName(SlotsOf(d, table[..]), name);
        && sector == (if k == table.Length then -1 else table[k].sector)
        && (k < table.Length ==> table[k].inUse)
    {
      var i := FindIndex(name, d);
      if i != -1 {
        return table[i].sector;
      }
      return -1;
    }

    method Add(name: Bytes, newSector: int, ghost d: Disk) returns (ok: bool)
      requires CString(name) && 0 <= newSector < NUM_SECTORS
      modifies table
      ensures var slots := old(SlotsOf(d, table[..]));
        var k := FreeSlot(slots);
        && ok == (FindName(slots, name) == table.Length && k < table.Length)
        && if ok then
             && table[..] == old(table[..])[k := old(table[..])[k].(
                  inUse := true, name := CopyName(old(table[..])[k].name, name), sector := newSector)]
             && NamesFile(table[k], name, newSector)
           else table[..] == old(table[..])
    {
      ghost var slots := SlotsOf(d, table[..]);
      var index := FindIndex(name, d);
      if index != -1 {
        return false;
      }
      var i := 0;
      while i < table.Length
        invariant 0 <= i <= table.Length && table[..] == old(table[..])
        invariant forall k :: 0 <= k < i ==> slots[k].Some?
      {
        if !table[i].inUse {
          assert slots[i] == SlotOf(d, old(table[..])[i]) == None;
          assert FreeSlot(slots) == i;
          NameReadBack(table[i].name, name);
          table[i] := table[i].(inUse := true, name := CopyName(table[i].name, name), sector := newSector);
          return true;
        }
        i := i + 1;
      }
      assert FreeSlot(slots) == table.Length;
      return false;
    }

    method Remove(name: Bytes, ghost d: Disk) returns (ok: bool)
      requires CString(name)
      modifies table
      ensures var k := old(FindName(SlotsOf(d, table[..]), name));
        && ok == (k < table.Length)
        && table[..] == if ok then old(table[..])[k := old(table[..])[k].(inUse := false)] else old(table[..])
    {
      var i := FindIndex(name, d);
      if i == -1 {
        return false;
      }
      table[i] := table[i].(inUse := false);
      return true;
    }

    method FetchFrom(file: OpenFile, ghost at: nat)
      requires file.Valid(at) && file.hdr.numBytes == ENTRY_SIZE * table.Length
      modifies table
      ensures table[..] == DecodeTable(Contents(file.disk.image, file.hdr.Extent(at)), table.Length)
    {
      ghost var c := Contents(file.disk.image, file.hdr.Extent(at));
      ContentsLength(file.disk.image, file.hdr.Extent(at));
      var buf := new byte[ENTRY_SIZE * table.Length];
      var _ := file.ReadAt(buf, 0, ENTRY_SIZE * table.Length, 0, at);
      var s := buf[..];
      assert s == c;
      forall k | 0 <= k < table.Length {
        table[k] := EntryIn(s, k);
      }
    }

    method WriteBack(file: OpenFile, ghost at: nat)
      requires file.Valid(at)
      modifies file.disk
      ensures Wrote(old(file.disk.image), file.disk.image, file.hdr.Extent(at), EncodeTable(table[..]), 0)
    {
      var bytes := EncodeTable(table[..]);
      var buf := new byte[|bytes|](k requires 0 <= k < |bytes| => bytes[k]);
      assert buf[..|bytes|] == bytes;
      var _ := file.WriteAt(buf, |bytes|, 0, at);
    }
  }

  // ---------------------------------------------------------------- file system

  class FileSystem {
    const disk: SynchDisk
    const freeMapFile: OpenFile
    const directoryFile: OpenFile

    // The two open files are those that the disk names, and the disk is sound.
    ghost predicate Valid()
      reads disk, freeMapFile.hdr, freeMapFile.hdr.dataSectors, directoryFile.hdr, directoryFile.hdr.dataSectors
    {
      && freeMapFile.disk == disk && directoryFile.disk == disk
      && freeMapFile.Valid(MAP_SECTOR) && directoryFile.Valid(DIR_SECTOR)
      && freeMapFile.hdr.Extent(MAP_SECTOR) == View(disk.image).mapFile
      && directoryFile.hdr.Extent(DIR_SECTOR) == View(disk.image).dirFile
      && Layout(View(disk.image))
    }

    // FileSystem(FALSE): open the two files of a disk formatted before.
    constructor (disk: SynchDisk)
      requires Layout(View(disk.image))
      ensures this.disk == disk && Valid()
    {
      FixedSound(View(disk.image));
      this.disk := disk;
      freeMapFile := new OpenFile(disk, MAP_SECTOR);
      directoryFile := new OpenFile(disk, DIR_SECTOR);
    }

    // Brings the directory into memory.
    method FetchDirectory() returns (directory: Directory)
      requires Valid()
      ensures fresh(directory) && fresh(directory.table) && directory.table.Length == NUM_ENTRIES
      ensures directory.table[..] == DecodeTable(Contents(disk.image, View(disk.image).dirFile), NUM_ENTRIES)
      ensures SlotsOf(disk.image, directory.table[..]) == View(disk.image).slots
      ensures forall k :: 0 <= k < NUM_ENTRIES && directory.table[k].inUse ==> 0 <= directory.table[k].sector < NUM_SECTORS
    {
      directory := new Directory(NUM_ENTRIES);
      directory.FetchFrom(directoryFile, DIR_SECTOR);
      ghost var table: seq<Entry> := directory.table[..];
      forall k | 0 <= k < NUM_ENTRIES && directory.table[k].inUse
        ensures 0 <= directory.table[k].sector < NUM_SECTORS
      {
        EntryInRange(View(disk.image), disk.image, table, k);
      }
    }

    method FetchFreeMap() returns (freeMap: BitMap)
      requires Valid()
      ensures fresh(freeMap) && fresh(freeMap.words) && freeMap.Valid() && freeMap.numBits == NUM_SECTORS
      ensures freeMap.Bits() == View(disk.image).bits
    {
      freeMap := new BitMap(NUM_SECTORS);
      freeMap.FetchFrom(freeMapFile, MAP_SECTOR);
    }

    // Finds a free sector for the header and enters it under the name; -1 when
    // the disk or the directory is full.
    static method Enter(name: Bytes, directory: Directory, freeMap: BitMap, ghost v: Volume, ghost d: Disk) returns (sector: int)
      requires CString(name) && |v.slots| == NUM_ENTRIES && FindName(v.slots, name) == NUM_ENTRIES
      requires directory.table.Length == NUM_ENTRIES && SlotsOf(d, directory.table[..]) == v.slots
      requires freeMap.Valid() && freeMap.numBits == NUM_SECTORS && freeMap.Bits() == v.bits
      modifies directory.table, freeMap.words
      ensures sector == if FirstClear(v.bits) == NUM_SECTORS || FreeSlot(v.slots) == NUM_ENTRIES then -1 else FirstClear(v.bits)
      ensures sector != -1 ==> freeMap.Bits() == v.bits[sector := true]
      ensures var k := FreeSlot(v.slots);
        sector != -1 ==>
          && NamesFile(directory.table[k], name, sector)
          && directory.table[..] == old(directory.table[..])[k := directory.table[k]]
    {
      sector := freeMap.Find();
      if sector == -1 {
        return;
      }
      var added := directory.Add(name, sector, d);
      if !added {
        sector := -1;
      }
    }

    // All of a new file, in memory: failing leaves the disk alone.
    static method Settle(name: Bytes, initialSize: nat, directory: Directory, freeMap: BitMap, ghost v: Volume, ghost d: Disk)
        returns (hdr: FileHeader?, sector: int)
      requires CString(name) && initialSize <= MAX_FILE_SIZE && |v.slots| == NUM_ENTRIES && FindName(v.slots, name) == NUM_ENTRIES
      requires directory.table.Length == NUM_ENTRIES && SlotsOf(d, directory.table[..]) == v.slots
      requires freeMap.Valid() && freeMap.numBits == NUM_SECTORS && freeMap.Bits() == v.bits
      modifies directory.table, freeMap.words
      ensures hdr == null <==> Created(v, name, initialSize).None?
      ensures hdr != null ==> fresh(hdr) && fresh(hdr.dataSectors) && hdr.dataSectors.Length == NUM_DIRECT && hdr.numSectors <= NUM_DIRECT
      ensures hdr != null ==> 0 <= sector && FreeSlot(v.slots) < NUM_ENTRIES
      ensures var k := FreeSlot(v.slots);
        hdr != null ==> Settled(v, name, initialSize, k, hdr.Extent(sector), directory.table[k], freeMap.words[..])
      ensures var k := FreeSlot(v.slots);
        hdr != null ==> directory.table[..] == old(directory.table[..])[k := directory.table[k]]
    {
      hdr := null;
      sector := Enter(name, directory, freeMap, v, d);
      if sector == -1 {
        return;
      }
      var header := new FileHeader();
      var ok := header.Allocate(freeMap, initialSize);
      if ok {
        hdr := header;
        SettledBy(v, name, initialSize, FreeSlot(v.slots), hdr.Extent(sector), directory.table[FreeSlot(v.slots)], freeMap.words[..]);
      }
    }

    // The two open files, whose headers these are.
    static ghost predicate OpenPair(disk: SynchDisk, freeMapFile: OpenFile, directoryFile: OpenFile, mapFile: Extent, dirFile: Extent)
      reads freeMapFile.hdr, freeMapFile.hdr.dataSectors, directoryFile.hdr, directoryFile.hdr.dataSectors
    {
      && freeMapFile.disk == disk && directoryFile.disk == disk
      && freeMapFile.Valid(MAP_SECTOR) && directoryFile.Valid(DIR_SECTOR)
      && freeMapFile.hdr.Extent(MAP_SECTOR) == mapFile && mapFile.length == MAP_FILE_SIZE
      && directoryFile.hdr.Extent(DIR_SECTOR) == dirFile && dirFile.length == DIR_FILE_SIZE
      && (forall x :: x in mapFile.sectors ==> x !in dirFile.sectors)
    }

    // The open files are those of this volume.
    ghost predicate Opened(v: Volume)
      reads freeMapFile.hdr, freeMapFile.hdr.dataSectors, directoryFile.hdr, directoryFile.hdr.dataSectors
    {
      OpenPair(disk, freeMapFile, directoryFile, v.mapFile, v.dirFile)
    }

    // The directory and then the bitmap go back to disk; onDir and onMap are
    // their bytes.
    method FlushDirectory(directory: Directory, freeMap: BitMap, ghost v: Volume, ghost onDir: Bytes, ghost onMap: Bytes)
      requires Opened(v) && directory.table.Length == NUM_ENTRIES && freeMap.Valid() && freeMap.numBits == NUM_SECTORS
      requires onDir == EncodeTable(directory.table[..]) && onMap == EncodeWords(freeMap.words[..])
      modifies disk
      ensures Flushed(old(disk.image), disk.image, v.dirFile, onDir, v.mapFile, onMap)
    {
      ghost var d := disk.image;
      TableReadBack(directory.table[..]);
      BitmapReadBack(freeMap.words[..]);
      directory.WriteBack(directoryFile, DIR_SECTOR);
      ghost var mid := disk.image;
      freeMap.WriteBack(freeMapFile, MAP_SECTOR);
      FlushBoth(d, mid, disk.image, v.dirFile, onDir, v.mapFile, onMap);
    }

    // The bitmap and then the directory.
    static method FlushFreeMap(disk: SynchDisk, freeMapFile: OpenFile, directoryFile: OpenFile, directory: Directory, freeMap: BitMap,
                               ghost mapFile: Extent, ghost dirFile: Extent, ghost onMap: Bytes, ghost onDir: Bytes)
      requires OpenPair(disk, freeMapFile, directoryFile, mapFile, dirFile)
      requires directory.table.Length == NUM_ENTRIES && freeMap.Valid() && freeMap.numBits == NUM_SECTORS
      requires onDir == EncodeTable(directory.table[..]) && onMap == EncodeWords(freeMap.words[..])
      modifies disk
      ensures Flushed(old(disk.image), disk.image, mapFile, onMap, dirFile, onDir)
    {
      ghost var d := disk.image;
      TableReadBack(directory.table[..]);
      BitmapReadBack(freeMap.words[..]);
      freeMap.WriteBack(freeMapFile, MAP_SECTOR);
      ghost var mid := disk.image;
      directory.WriteBack(directoryFile, DIR_SECTOR);
      FlushBoth(d, mid, disk.image, mapFile, onMap, dirFile, onDir);
    }

    // Stores a header; the sector then reads as that header.
    static method FlushHeader(disk: SynchDisk, hdr: FileHeader, sector: int)
      requires 0 <= sector < NUM_SECTORS && hdr.dataSectors.Length == NUM_DIRECT && hdr.numSectors <= NUM_DIRECT
      modifies disk
      ensures SameOutside(old(disk.image), disk.image, [sector]) && HeaderAt(disk.image, sector) == hdr.Extent(sector)
    {
      hdr.WriteBack(disk, sector);
      HeaderReadBack(disk.image, sector, hdr.numBytes, hdr.numSectors, hdr.dataSectors[..]);
      assert hdr.dataSectors[..][..hdr.numSectors] == hdr.dataSectors[..hdr.numSectors];
    }

    lemma OpenedNow()
      requires Valid()
      ensures Opened(View(disk.image)) && Layout(View(disk.image))
    {
      FixedSound(View(disk.image));
    }

    // The new header, the directory and the bitmap, in this order.
    method FlushNew(hdr: FileHeader, sector: int, directory: Directory, freeMap: BitMap, ghost v: Volume, ghost onDir: Bytes,
                    ghost onMap: Bytes) returns (ghost withHeader: Disk)
      requires Opened(v) && directory.table.Length == NUM_ENTRIES && freeMap.Valid() && freeMap.numBits == NUM_SECTORS
      requires 0 <= sector < NUM_SECTORS && hdr.dataSectors.Length == NUM_DIRECT && hdr.numSectors <= NUM_DIRECT
      requires onDir == EncodeTable(directory.table[..]) && onMap == EncodeWords(freeMap.words[..])
      modifies disk
      ensures SameOutside(old(disk.image), withHeader, [sector]) && HeaderAt(withHeader, sector) == hdr.Extent(sector)
      ensures Flushed(withHeader, disk.image, v.dirFile, onDir, v.mapFile, onMap)
    {
      FlushHeader(disk, hdr, sector);
      withHeader := disk.image;
      FlushDirectory(directory, freeMap, v, onDir, onMap);
    }

    // Create up to the point where everything is settled in memory; hdr is
    // null when Create fails.
    method Plan(name: Bytes, initialSize: nat, directory: Directory, ghost v: Volume) returns (hdr: FileHeader?, sector: int, freeMap: BitMap?)
      requires Valid() && View(disk.image) == v && CString(name) && initialSize <= MAX_FILE_SIZE
      requires directory.table.Length == NUM_ENTRIES && SlotsOf(disk.image, directory.table[..]) == v.slots
      requires forall k :: 0 <= k < NUM_ENTRIES && directory.table[k].inUse ==> 0 <= directory.table[k].sector < NUM_SECTORS
      modifies directory.table
      ensures hdr == null <==> Created(v, name, initialSize).None?
      ensures hdr != null ==> freeMap != null && freeMap.Valid() && freeMap.numBits == NUM_SECTORS
      ensures hdr != null ==> hdr.dataSectors.Length == NUM_DIRECT && hdr.numSectors <= NUM_DIRECT
      ensures hdr != null ==> 0 <= sector && FreeSlot(v.slots) < NUM_ENTRIES
      ensures var k := FreeSlot(v.slots);
        hdr != null ==> Settled(v, name, initialSize, k, hdr.Extent(sector), directory.table[k], freeMap.words[..])
      ensures var k := FreeSlot(v.slots);
        hdr != null ==> directory.table[..] == old(directory.table[..])[k := directory.table[k]]
    {
      hdr, sector, freeMap := null, -1, null;
      var found := directory.Find(name, disk.image);
      if found != -1 {
        return;
      }
      freeMap := FetchFreeMap();
      hdr, sector := Settle(name, initialSize, directory, freeMap, v, disk.image);
    }

    // And the rest of a Create that succeeds.
    method Finish(name: Bytes, initialSize: nat, hdr: FileHeader, sector: int, directory: Directory, freeMap: BitMap,
                  ghost k: nat, ghost v: Volume, ghost table: seq<Entry>)
      requires Opened(v) && Layout(v) && View(disk.image) == v && freeMap.Valid() && freeMap.numBits == NUM_SECTORS
      requires hdr.dataSectors.Length == NUM_DIRECT && hdr.numSectors <= NUM_DIRECT && directory.table.Length == NUM_ENTRIES
      requires 0 <= sector && k < NUM_ENTRIES
      requires Settled(v, name, initialSize, k, hdr.Extent(sector), directory.table[k], freeMap.words[..])
      requires table == DecodeTable(Contents(disk.image, v.dirFile), NUM_ENTRIES)
      requires directory.table[..] == table[k := directory.table[k]]
      modifies disk
      ensures Step(old(disk.image), FsRuns.Create(name, initialSize, true), disk.image)
    {
      ghost var d, e, words, entry := disk.image, hdr.Extent(sector), freeMap.words[..], directory.table[k];
      ghost var withHeader := FlushNew(hdr, sector, directory, freeMap, v, EncodeTable(table[k := entry]), EncodeWords(words));
      CreateOnDisk(v, d, withHeader, disk.image, name, initialSize, k, e, table, entry, words);
    }

    // Creates a file of a fixed size; on failure nothing on disk has changed.
    method Create(name: Bytes, initialSize: nat) returns (success: bool)
      requires Valid() && CString(name) && initialSize <= MAX_FILE_SIZE
      modifies disk
      ensures Step(old(disk.image), FsRuns.Create(name, initialSize, success), disk.image)
    {
      ghost var v := View(disk.image);
      OpenedNow();
      var directory := FetchDirectory();
      ghost var table: seq<Entry> := directory.table[..];
      var hdr, sector, freeMap := Plan(name, initialSize, directory, v);
      if hdr == null {
        return false;
      }
      Finish(name, initialSize, hdr, sector, directory, freeMap, FreeSlot(v.slots), v, table);
      return true;
    }

    // Whatever call took the disk from one state to the other, the two open
    // files are still those that it names.
    twostate lemma StaysValid(op: Op)
      requires old(Valid()) && Proper(op) && Step(old(disk.image), op, disk.image)
      requires unchanged(freeMapFile.hdr) && unchanged(freeMapFile.hdr.dataSectors)
      requires unchanged(directoryFile.hdr) && unchanged(directoryFile.hdr.dataSectors)
      ensures Valid()
    {
      StepKeepsLayout(old(disk.image), op, disk.image);
      VolumeAfter(old(disk.image), op, disk.image);
    }

    // The file of this name, or null.
    method Open(name: Bytes) returns (file: OpenFile?)
      requires Valid() && CString(name)
      ensures var e := Lookup(View(disk.image), name);
        if e.None? then file == null
        else file != null && fresh(file) && file.disk == disk && file.Valid(e.value.at) && file.hdr.Extent(e.value.at) == e.value
               && file.seekPosition == 0
    {
      ghost var v := View(disk.image);
      var directory := FetchDirectory();
      var sector := directory.Find(name, disk.image);
      file := null;
      if sector >= 0 {
        ghost var k := FindName(v.slots, name);
        EntryInRange(v, disk.image, directory.table[..], k);
        LookupSound(v, name);
        file := new OpenFile(disk, sector);
      }
    }

    // Marks the sectors of the file whose header is in this sector as free.
    method Release(sector: int, freeMap: BitMap, ghost e: Extent)
      requires 0 <= sector < NUM_SECTORS && HeaderAt(disk.image, sector) == e && freeMap.Valid() && AllMarked(freeMap.Bits(), e)
      modifies freeMap.words
      ensures freeMap.Bits() == Give(old(freeMap.Bits()), e.sectors + [e.at])
    {
      ghost var bits := freeMap.Bits();
      var fileHdr := new FileHeader();
      fileHdr.FetchFrom(disk, sector);
      fileHdr.Deallocate(freeMap);
      freeMap.Clear(sector);
      GiveMore(bits, e.sectors, e.at);
    }

    // Removes a file; without one of that name nothing on disk has changed.
    method Remove(name: Bytes) returns (success: bool)
      requires Valid() && CString(name)
      modifies disk
      ensures Step(old(disk.image), FsRuns.Remove(name, success), disk.image)
    {
      ghost var v := View(disk.image);
      OpenedNow();
      var directory := FetchDirectory();
      var sector := directory.Find(name, disk.image);
      if sector == -1 {
        return false;
      }
      var freeMap := FetchFreeMap();
      RemoveFound(name, sector, directory, freeMap, v, FindName(v.slots, name));
      return true;
    }

    // The file is there: its sectors and its entry go, in memory and on disk.
    method RemoveFound(name: Bytes, sector: int, directory: Directory, freeMap: BitMap, ghost v: Volume, ghost k: nat)
      requires Opened(v) && Layout(v) && View(disk.image) == v && CString(name) && 0 <= sector < NUM_SECTORS
      requires directory.table.Length == NUM_ENTRIES && SlotsOf(disk.image, directory.table[..]) == v.slots
      requires directory.table[..] == DecodeTable(Contents(disk.image, v.dirFile), NUM_ENTRIES)
      requires k == FindName(v.slots, name) < NUM_ENTRIES && directory.table[k].inUse && directory.table[k].sector == sector
      requires freeMap.Valid() && freeMap.numBits == NUM_SECTORS && freeMap.Bits() == v.bits
      modifies disk, directory.table, freeMap.words
      ensures Step(old(disk.image), FsRuns.Remove(name, true), disk.image)
    {
      ghost var d, table: seq<Entry> := disk.image, directory.table[..];
      EntryInRange(v, d, table, k);
      FileMarked(v, k);
      Unlist(name, sector, directory, freeMap, v, d, k, v.slots[k].value.extent);
      ghost var words, table': seq<Entry> := freeMap.words[..], directory.table[..];
      FlushFreeMap(disk, freeMapFile, directoryFile, directory, freeMap, v.mapFile, v.dirFile, EncodeWords(words), EncodeTable(table'));
      RemoveOnDisk(v, d, disk.image, name, k, table, table', words);
    }

    // The part in memory.
    method Unlist(name: Bytes, sector: int, directory: Directory, freeMap: BitMap, ghost v: Volume, ghost d: Disk, ghost k: nat,
                  ghost e: Extent)
      requires CString(name) && 0 <= sector < NUM_SECTORS && disk.image == d && |v.slots| == NUM_ENTRIES && |v.bits| == NUM_SECTORS
      requires directory.table.Length == NUM_ENTRIES && SlotsOf(d, directory.table[..]) == v.slots
      requires k == FindName(v.slots, name) < NUM_ENTRIES && e == v.slots[k].value.extent == HeaderAt(d, sector)
      requires freeMap.Valid() && freeMap.numBits == NUM_SECTORS && freeMap.Bits() == v.bits && AllMarked(v.bits, e)
      modifies directory.table, freeMap.words
      ensures Unlisted(v, name, k, old(directory.table[..]), directory.table[..], freeMap.words[..])
    {
      ghost var table: seq<Entry> := directory.table[..];
      Release(sector, freeMap, e);
      var _ := directory.Remove(name, d);
      UnlistedBy(v, name, k, e, table, directory.table[..], freeMap.words[..]);
    }

    // FileSystem(TRUE): an empty directory, and a bitmap with only the sectors
    // of the two files marked.
    static method Format(disk: SynchDisk)
      modifies disk
      ensures Formatted(View(disk.image))
    {
      var directory := new Directory(NUM_ENTRIES);
      var freeMap, mapHdr, dirHdr := FormatAllot();
      ghost var mapFile, dirFile := mapHdr.Extent(MAP_SECTOR), dirHdr.Extent(DIR_SECTOR);
      FormatHeaders(disk, mapHdr, dirHdr);
      FormatFiles(disk, freeMap, directory, mapFile, dirFile, freeMap.words[..], directory.table[..]);
    }

    // The sectors of the two headers and of the two files' data.
    static method FormatAllot() returns (freeMap: BitMap, mapHdr: FileHeader, dirHdr: FileHeader)
      ensures freeMap.Valid() && freeMap.numBits == NUM_SECTORS
      ensures mapHdr.dataSectors.Length == NUM_DIRECT && mapHdr.numSectors <= NUM_DIRECT
      ensures dirHdr.dataSectors.Length == NUM_DIRECT && dirHdr.numSectors <= NUM_DIRECT
      ensures Allotted(freeMap.Bits(), mapHdr.Extent(MAP_SECTOR), dirHdr.Extent(DIR_SECTOR))
    {
      freeMap := new BitMap(NUM_SECTORS);
      mapHdr := new FileHeader();
      dirHdr := new FileHeader();
      freeMap.Mark(MAP_SECTOR);
      freeMap.Mark(DIR_SECTOR);
      FormatAllots(freeMap.Bits());
      var ok := mapHdr.Allocate(freeMap, MAP_FILE_SIZE);
      assert ok;
      ok := dirHdr.Allocate(freeMap, DIR_FILE_SIZE);
      assert ok;
    }

    static method FormatHeaders(disk: SynchDisk, mapHdr: FileHeader, dirHdr: FileHeader)
      requires mapHdr.dataSectors.Length == NUM_DIRECT && mapHdr.numSectors <= NUM_DIRECT
      requires dirHdr.dataSectors.Length == NUM_DIRECT && dirHdr.numSectors <= NUM_DIRECT
      modifies disk
      ensures HeaderAt(disk.image, MAP_SECTOR) == mapHdr.Extent(MAP_SECTOR)
      ensures HeaderAt(disk.image, DIR_SECTOR) == dirHdr.Extent(DIR_SECTOR)
    {
      FlushHeader(disk, mapHdr, MAP_SECTOR);
      FlushHeader(disk, dirHdr, DIR_SECTOR);
    }

    // The headers are on disk: open the two files and write them.
    static method FormatFiles(disk: SynchDisk, freeMap: BitMap, directory: Directory, ghost mapFile: Extent, ghost dirFile: Extent,
                              ghost words: seq<nat>, ghost table: seq<Entry>)
      requires freeMap.Valid() && freeMap.numBits == NUM_SECTORS && directory.table.Length == NUM_ENTRIES
      requires words == freeMap.words[..] && GoodWords(words) && table == directory.table[..] && BlankTable(table)
      requires HeaderAt(disk.image, MAP_SECTOR) == mapFile && HeaderAt(disk.image, DIR_SECTOR) == dirFile
      requires Allotted(BitsOf(words, NUM_SECTORS), mapFile, dirFile)
      modifies disk
      ensures Formatted(View(disk.image))
    {
      ghost var d := disk.image;
      var freeMapFile := new OpenFile(disk, MAP_SECTOR);
      var directoryFile := new OpenFile(disk, DIR_SECTOR);
      assert forall x :: x in mapFile.sectors ==> Owns(mapFile, x);
      FlushFreeMap(disk, freeMapFile, directoryFile, directory, freeMap, mapFile, dirFile, EncodeWords(words), EncodeTable(table));
      FormatOnDisk(d, disk.image, mapFile, dirFile, words, table);
    }
  }
}
