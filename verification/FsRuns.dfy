// Whole runs of the file system.  Over any sequence of operations the disk
// behaves as a map from names to byte arrays of fixed length.

module FsRuns {
  import opened Basics
  import opened MachineWords
  import opened FsModel
  import opened FsCodec
  import opened FsVolume

  // ---------------------------------------------------------- what is untouched

  ghost predicate SameOutside(d: Disk, d': Disk, changed: seq<nat>) {
    forall x: nat :: x < NUM_SECTORS && x !in changed ==> d'[x] == d[x]
  }

  lemma ContentsLength(d: Disk, e: Extent)
    requires |e.sectors| == SectorsFor(e.length)
    ensures |Contents(d, e)| == e.length
  {
    JoinLength(SectorsAt(d, e.sectors), SECTOR_SIZE);
  }

  // Which disk byte is which file byte.
  lemma FileByte(d: Disk, e: Extent, q: nat)
    requires |e.sectors| == SectorsFor(e.length) && q < e.length
    ensures q / SECTOR_SIZE < |e.sectors| && |Contents(d, e)| == e.length
    ensures Contents(d, e)[q] == SectorAt(d, e.sectors[q / SECTOR_SIZE])[q % SECTOR_SIZE]
  {
    ContentsLength(d, e);
    JoinLength(SectorsAt(d, e.sectors), SECTOR_SIZE);
    JoinChunk(SectorsAt(d, e.sectors), SECTOR_SIZE, q / SECTOR_SIZE);
    assert Chunk(Join(SectorsAt(d, e.sectors)), SECTOR_SIZE, q / SECTOR_SIZE)[q % SECTOR_SIZE]
        == Join(SectorsAt(d, e.sectors))[q];
  }

  // The count sectors of the file from the first on, one after another.
  predicate Loaded(buf: Bytes, d: Disk, e: Extent, first: nat, count: nat) {
    && first + count <= |e.sectors| && count * SECTOR_SIZE <= |buf|
    && (forall t :: 0 <= t < count ==> buf[t * SECTOR_SIZE..t * SECTOR_SIZE + SECTOR_SIZE] == SectorAt(d, e.sectors[first + t]))
  }

  lemma LoadOne(buf: Bytes, d: Disk, e: Extent, first: nat, count: nat, sector: nat)
    requires Loaded(buf, d, e, first, count) && first + count < |e.sectors| && (count + 1) * SECTOR_SIZE <= |buf|
    requires sector == e.sectors[first + count] < NUM_SECTORS
    ensures Loaded(Splice(buf, count * SECTOR_SIZE, d[sector]), d, e, first, count + 1)
  {
    var buf' := Splice(buf, count * SECTOR_SIZE, d[sector]);
    forall t | 0 <= t < count + 1
      ensures buf'[t * SECTOR_SIZE..t * SECTOR_SIZE + SECTOR_SIZE] == SectorAt(d, e.sectors[first + t])
    {
      if t < count {
        assert buf'[t * SECTOR_SIZE..t * SECTOR_SIZE + SECTOR_SIZE] == buf[t * SECTOR_SIZE..t * SECTOR_SIZE + SECTOR_SIZE];
      }
    }
  }

  lemma LoadedRange(buf: Bytes, d: Disk, e: Extent, first: nat, count: nat, pos: nat, n: nat)
    requires |e.sectors| == SectorsFor(e.length) && Loaded(buf, d, e, first, count)
    requires first * SECTOR_SIZE <= pos && pos + n <= (first + count) * SECTOR_SIZE && pos + n <= e.length
    ensures buf[pos - first * SECTOR_SIZE..pos - first * SECTOR_SIZE + n] == Range(Contents(d, e), pos, n)
  {
    ContentsLength(d, e);
    forall q | pos <= q < pos + n
      ensures buf[q - first * SECTOR_SIZE] == Contents(d, e)[q]
    {
      FileByte(d, e, q);
      var t := q / SECTOR_SIZE - first;
      assert buf[t * SECTOR_SIZE..t * SECTOR_SIZE + SECTOR_SIZE][q % SECTOR_SIZE] == buf[q - first * SECTOR_SIZE];
    }
  }

  // The sectors that bytes pos to pos + n of a file lie in.
  lemma SectorSpan(pos: nat, n: nat, length: nat)
    requires n > 0 && pos + n <= length
    ensures pos / SECTOR_SIZE <= (pos + n - 1) / SECTOR_SIZE < SectorsFor(length)
    ensures pos / SECTOR_SIZE * SECTOR_SIZE <= pos
    ensures pos + n <= (pos / SECTOR_SIZE + (1 + (pos + n - 1) / SECTOR_SIZE - pos / SECTOR_SIZE)) * SECTOR_SIZE
  {
  }

  // Of the file's sectors, count from the first on were replaced by the buffer.
  ghost predicate Stored(d: Disk, d': Disk, e: Extent, buf: Bytes, first: nat, count: nat) {
    && first + count <= |e.sectors| && count * SECTOR_SIZE <= |buf|
    && SameOutside(d, d', e.sectors)
    && (forall k :: 0 <= k < |e.sectors| ==> SectorAt(d', e.sectors[k]) == NewSector(d, e, buf, first, count, k))
  }

  function NewSector(d: Disk, e: Extent, buf: Bytes, first: nat, count: nat, k: nat): Bytes
    requires k < |e.sectors| && count * SECTOR_SIZE <= |buf|
  {
    if first <= k < first + count then buf[(k - first) * SECTOR_SIZE..(k - first) * SECTOR_SIZE + SECTOR_SIZE]
    else SectorAt(d, e.sectors[k])
  }

  lemma StoreNone(d: Disk, e: Extent, buf: Bytes, first: nat)
    requires first <= |e.sectors|
    ensures Stored(d, d, e, buf, first, 0)
  {
  }

  lemma StoreOne(d: Disk, d': Disk, e: Extent, buf: Bytes, first: nat, count: nat, sector: nat, chunk: Sector)
    requires Sound(e) && Stored(d, d', e, buf, first, count) && first + count < |e.sectors|
    requires (count + 1) * SECTOR_SIZE <= |buf| && sector == e.sectors[first + count]
    requires chunk == buf[count * SECTOR_SIZE..count * SECTOR_SIZE + SECTOR_SIZE]
    ensures Stored(d, d'[sector := chunk], e, buf, first, count + 1)
  {
    var d'' := d'[sector := chunk];
    forall k | 0 <= k < |e.sectors|
      ensures SectorAt(d'', e.sectors[k]) == NewSector(d, e, buf, first, count + 1, k)
    {
      assert SectorAt(d', e.sectors[k]) == NewSector(d, e, buf, first, count, k);
      if k == first + count {
        assert d''[e.sectors[k]] == chunk;
      } else {
        assert e.sectors[k] != sector;
      }
    }
  }

  // Wherever the buffer covers the file, it holds the file's new bytes c.
  predicate Filled(buf: Bytes, c: Bytes, first: nat, count: nat) {
    && count * SECTOR_SIZE == |buf|
    && (forall q :: first * SECTOR_SIZE <= q < (first + count) * SECTOR_SIZE && q < |c| ==> buf[q - first * SECTOR_SIZE] == c[q])
  }

  // Writing the buffer back gives the file its new bytes, if those outside the
  // buffer are the old ones.
  lemma StoredFile(d: Disk, d': Disk, e: Extent, buf: Bytes, first: nat, count: nat, c: Bytes)
    requires Sound(e) && Stored(d, d', e, buf, first, count) && Filled(buf, c, first, count)
    requires |c| == e.length == |Contents(d, e)|
    requires forall q :: 0 <= q < |c| && !(first * SECTOR_SIZE <= q < (first + count) * SECTOR_SIZE) ==> c[q] == Contents(d, e)[q]
    ensures Contents(d', e) == c
  {
    ContentsLength(d', e);
    forall q | 0 <= q < |c|
      ensures Contents(d', e)[q] == c[q]
    {
      var k := q / SECTOR_SIZE;
      FileByte(d, e, q);
      FileByte(d', e, q);
      assert SectorAt(d', e.sectors[k]) == NewSector(d, e, buf, first, count, k);
      if first <= k < first + count {
        assert buf[(k - first) * SECTOR_SIZE..(k - first) * SECTOR_SIZE + SECTOR_SIZE][q % SECTOR_SIZE] == buf[q - first * SECTOR_SIZE];
      }
    }
  }

  // The buffer, which starts at sector first, holds the file's part of sector k.
  predicate HasSector(buf: Bytes, c: Bytes, first: nat, k: nat) {
    && first <= k && (k - first) * SECTOR_SIZE + SECTOR_SIZE <= |buf|
    && (forall q :: k * SECTOR_SIZE <= q < k * SECTOR_SIZE + SECTOR_SIZE && q < |c| ==> buf[q - first * SECTOR_SIZE] == c[q])
  }

  // What ReadAt of one whole sector does to the buffer.
  function WithSector(buf: Bytes, c: Bytes, first: nat, k: nat): (r: Bytes)
    requires first <= k && (k - first) * SECTOR_SIZE + SECTOR_SIZE <= |buf|
    ensures |r| == |buf|
  {
    Splice(buf, (k - first) * SECTOR_SIZE, Range(c, k * SECTOR_SIZE, Clamp(SECTOR_SIZE, k * SECTOR_SIZE, |c|)))
  }

  lemma SectorRead(buf: Bytes, c: Bytes, first: nat, k: nat, other: nat)
    requires first <= k && (k - first) * SECTOR_SIZE + SECTOR_SIZE <= |buf|
    ensures HasSector(WithSector(buf, c, first, k), c, first, k)
    ensures other != k && HasSector(buf, c, first, other) ==> HasSector(WithSector(buf, c, first, k), c, first, other)
  {
  }

  // The sectors that n bytes at pos change only in part have been read.
  predicate PartsRead(buf: Bytes, c: Bytes, pos: nat, n: nat, first: nat, last: nat) {
    && first <= last && |buf| == (1 + last - first) * SECTOR_SIZE
    && (pos != first * SECTOR_SIZE ==> HasSector(buf, c, first, first))
    && (pos + n != (last + 1) * SECTOR_SIZE && (first != last || pos == first * SECTOR_SIZE) ==> HasSector(buf, c, first, last))
  }

  lemma BufferFilled(buf: Bytes, c: Bytes, data: Bytes, pos: nat, first: nat, last: nat) returns (full: Bytes)
    requires |data| > 0 && pos + |data| <= |c| && first == pos / SECTOR_SIZE && last == (pos + |data| - 1) / SECTOR_SIZE
    requires PartsRead(buf, c, pos, |data|, first, last)
    ensures pos - first * SECTOR_SIZE + |data| <= |buf|
    ensures full == Splice(buf, pos - first * SECTOR_SIZE, data) && Filled(full, Put(c, pos, data), first, 1 + last - first)
  {
    full := Splice(buf, pos - first * SECTOR_SIZE, data);
    var buf', c' := full, Put(c, pos, data);
    forall q | first * SECTOR_SIZE <= q < (first + (1 + last - first)) * SECTOR_SIZE && q < |c'|
      ensures buf'[q - first * SECTOR_SIZE] == c'[q]
    {
      if q < pos {
        assert HasSector(buf, c, first, first);
        assert q < first * SECTOR_SIZE + SECTOR_SIZE;
      } else if q >= pos + |data| {
        assert last * SECTOR_SIZE <= q;
        assert HasSector(buf, c, first, last);
      }
    }
  }

  lemma SpliceNothing<T>(s: seq<T>, at: nat)
    requires at <= |s|
    ensures Splice(s, at, []) == s
  {
  }

  lemma ContentsSame(d: Disk, d': Disk, e: Extent)
    requires forall k :: 0 <= k < |e.sectors| ==> SectorAt(d', e.sectors[k]) == SectorAt(d, e.sectors[k])
    ensures Contents(d', e) == Contents(d, e)
  {
    assert SectorsAt(d', e.sectors) == SectorsAt(d, e.sectors);
  }

  // A step that changes none of the owner's sectors changes none of its bytes.
  lemma OthersKeep(d: Disk, d': Disk, changed: seq<nat>, e: Extent)
    requires SameOutside(d, d', changed)
    requires forall x :: x in e.sectors ==> x !in changed
    ensures Contents(d', e) == Contents(d, e)
  {
    ContentsSame(d, d', e);
  }

  // Different owners own different sectors.
  lemma Apart(v: Volume, k: nat, l: nat, x: nat)
    requires Layout(v) && k != l && OwnedBy(v, l, x)
    ensures !OwnedBy(v, k, x)
    ensures x < NUM_SECTORS
  {
    assert Sound(Holder(v, l).value);
  }

  // Only data sectors of one file have changed.
  ghost predicate DataChange(v: Volume, d: Disk, d': Disk, k: nat) {
    && Layout(v) && k < NUM_ENTRIES && v.slots[k].Some?
    && SameOutside(d, d', v.slots[k].value.extent.sectors)
  }

  lemma OwnerKeeps(v: Volume, d: Disk, d': Disk, k: nat, l: nat)
    requires DataChange(v, d, d', k) && l != k + 2 && Holder(v, l).Some?
    ensures Contents(d', Holder(v, l).value) == Contents(d, Holder(v, l).value)
  {
    var o, e := Holder(v, l).value, v.slots[k].value.extent;
    forall x | x in o.sectors
      ensures x !in e.sectors
    {
      assert OwnedBy(v, l, x);
      Apart(v, k + 2, l, x);
    }
    OthersKeep(d, d', e.sectors, o);
  }

  // The header sectors keep their bytes, even that of the file written.
  lemma HeaderKeeps(v: Volume, d: Disk, d': Disk, k: nat, l: nat)
    requires DataChange(v, d, d', k) && Holder(v, l).Some?
    ensures Holder(v, l).value.at < NUM_SECTORS
    ensures d'[Holder(v, l).value.at] == d[Holder(v, l).value.at]
  {
    var at := Holder(v, l).value.at;
    assert Sound(Holder(v, l).value);
    assert Sound(Holder(v, k + 2).value);
    assert OwnedBy(v, l, at);
    if l != k + 2 {
      Apart(v, k + 2, l, at);
    }
  }

  lemma SlotKeeps(v: Volume, d: Disk, d': Disk, k: nat, i: nat, e: Entry)
    requires DataChange(v, d, d', k) && i < NUM_ENTRIES && v.slots[i] == SlotOf(d, e)
    ensures SlotOf(d', e) == SlotOf(d, e)
  {
    if e.inUse {
      assert Holder(v, i + 2) == Some(v.slots[i].value.extent);
      HeaderKeeps(v, d, d', k, i + 2);
    }
  }

  // Data sectors of a file: a change there leaves all that View reads alone.
  lemma DataOnly(d: Disk, d': Disk, k: nat)
    requires DataChange(View(d), d, d', k)
    ensures View(d') == View(d)
  {
    var v := View(d);
    assert Holder(v, 0) == Some(v.mapFile) && Holder(v, 1) == Some(v.dirFile);
    HeaderKeeps(v, d, d', k, 0);
    HeaderKeeps(v, d, d', k, 1);
    OwnerKeeps(v, d, d', k, 0);
    OwnerKeeps(v, d, d', k, 1);
    var table := DecodeTable(Contents(d, v.dirFile), NUM_ENTRIES);
    forall i | 0 <= i < NUM_ENTRIES
      ensures SlotOf(d', table[i]) == SlotOf(d, table[i])
    {
      SlotKeeps(v, d, d', k, i, table[i]);
    }
    assert SlotsOf(d', table) == SlotsOf(d, table);
  }

  // ----------------------------------------------------------------- operations

  // One call and what it returned.  A Write or Read opens the file first; its
  // result is None when there is no such file.
  datatype Op =
    | Create(name: Bytes, size: nat, ok: bool)
    | Remove(name: Bytes, ok: bool)
    | Write(name: Bytes, data: Bytes, pos: nat, count: Option<nat>)
    | Read(name: Bytes, len: int, pos: nat, got: Option<Bytes>)

  predicate Proper(op: Op) {
    CString(op.name) && (op.Create? ==> op.size <= MAX_FILE_SIZE)
  }

  function Lookup(v: Volume, name: Bytes): Option<Extent> {
    var k := FindName(v.slots, name);
    if k < |v.slots| then Some(v.slots[k].value.extent) else None
  }

  // The directory's sectors, the bitmap's, and the header of a new file.
  function MetaSectors(v: Volume): seq<nat> {
    v.mapFile.sectors + v.dirFile.sectors
  }

  // What a call does to the disk and returns; v and v' are what the disk says
  // before and after.
  ghost predicate Effect(v: Volume, d: Disk, op: Op, v': Volume, d': Disk) {
    match op
    case Create(name, size, ok) =>
      var made := Created(v, name, size);
      && ok == made.Some?
      && if ok then v' == made.value && SameOutside(d, d', MetaSectors(v) + [FirstClear(v.bits)]) else d' == d
    case Remove(name, ok) =>
      var gone := Removed(v, name);
      && ok == gone.Some?
      && if ok then v' == gone.value && SameOutside(d, d', MetaSectors(v)) else d' == d
    case Write(name, data, pos, count) =>
      var e := Lookup(v, name);
      if e.None? then count == None && d' == d
      else Wrote(d, d', e.value, data, pos) && count == Some(Clamp(|data|, pos, e.value.length))
    case Read(name, len, pos, got) =>
      var e := Lookup(v, name);
      && d' == d
      && got == if e.None? then None else Some(Range(Contents(d, e.value), pos, Clamp(len, pos, e.value.length)))
  }

  ghost predicate Step(d: Disk, op: Op, d': Disk) {
    Effect(View(d), d, op, View(d'), d')
  }

  function VolumeStep(v: Volume, op: Op): Volume {
    match op
    case Create(name, size, ok) => Created(v, name, size).GetOr(v)
    case Remove(name, ok) => Removed(v, name).GetOr(v)
    case Write(_, _, _, _) => v
    case Read(_, _, _, _) => v
  }

  function Range(s: Bytes, pos: nat, n: nat): Bytes {
    if pos + n <= |s| then s[pos..pos + n] else []
  }

  function Put<T>(s: seq<T>, pos: nat, data: seq<T>): (r: seq<T>)
    ensures |r| == |s|
  {
    if pos + |data| <= |s| then Splice(s, pos, data) else s
  }

  // OpenFile::WriteAt on a file with this header.
  ghost predicate Wrote(d: Disk, d': Disk, e: Extent, data: Bytes, pos: nat) {
    && SameOutside(d, d', e.sectors)
    && Contents(d', e) == Put(Contents(d, e), pos, data[..Clamp(|data|, pos, e.length)])
  }

  // ------------------------------------------------------- the flat file system

  // A name's bytes; None for one that nobody has written yet.
  type Flat = map<Bytes, seq<Option<byte>>>

  function Known(data: Bytes): seq<Option<byte>> {
    seq(|data|, k requires 0 <= k < |data| => Some(data[k]))
  }

  function Unknown(n: nat): (s: seq<Option<byte>>)
    ensures |s| == n
    ensures forall k :: 0 <= k < n ==> s[k] == None
  {
    seq(n, _ => None)
  }

  function FlatStep(flat: Flat, op: Op): Flat {
    var key := Short(op.name);
    match op
    case Create(_, size, ok) => if ok then flat[key := Unknown(size)] else flat
    case Remove(_, ok) => if ok then flat - {key} else flat
    case Write(_, data, pos, _) =>
      if key in flat then flat[key := Put(flat[key], pos, Known(data[..Clamp(|data|, pos, |flat[key]|)]))] else flat
    case Read(_, _, _, _) => flat
  }

  predicate Matches(f: seq<Option<byte>>, s: Bytes) {
    && |f| == |s|
    && (forall k :: 0 <= k < |f| && f[k].Some? ==> f[k].value == s[k])
  }

  // What the calls may return, told from the flat file system alone.
  predicate Expected(flat: Flat, op: Op) {
    var key := Short(op.name);
    match op
    case Create(_, _, ok) => ok ==> key !in flat
    case Remove(_, ok) => ok <==> key in flat
    case Write(_, data, pos, count) =>
      count == if key in flat then Some(Clamp(|data|, pos, |flat[key]|)) else None
    case Read(_, len, pos, got) =>
      if key !in flat then got == None
      else
        var n := Clamp(len, pos, |flat[key]|);
        got.Some? && |got.value| == n && Matches(if n == 0 then [] else flat[key][pos..pos + n], got.value)
  }

  ghost predicate Agrees(d: Disk, flat: Flat) {
    forall name: Bytes :: |name| <= NAME_MAX ==>
      AgreesIn(View(d), d, flat, name)
  }

  lemma ShortIsShort(name: Bytes)
    ensures |Short(name)| <= NAME_MAX && Short(Short(name)) == Short(name)
    ensures Short(name) <= name && (Short(name) == name || |Short(name)| == NAME_MAX)
  {
  }

  lemma LookupShort(v: Volume, name: Bytes)
    ensures Lookup(v, Short(name)) == Lookup(v, name)
  {
    FindNameShort(v.slots, name);
  }

  lemma {:induction false} FindNameShort(slots: seq<Option<File>>, name: Bytes)
    ensures FindName(slots, Short(name)) == FindName(slots, name)
    decreases |slots|
  {
    if slots != [] {
      FindNameShort(slots[1..], name);
    }
  }

  // The slot found is the only one with that name.
  lemma FoundAt(v: Volume, name: Bytes, k: nat)
    requires DistinctNames(v) && k < |v.slots| && v.slots[k].Some? && v.slots[k].value.name == Short(name)
    ensures FindName(v.slots, name) == k
  {
    FindsOnly(v.slots, name, k);
  }

  lemma LookupSound(v: Volume, name: Bytes)
    requires Layout(v) && Lookup(v, name).Some?
    ensures Sound(Lookup(v, name).value)
  {
    assert Holder(v, FindName(v.slots, name) + 2) == Lookup(v, name);
  }

  // ------------------------------------------------------------ the invariant

  // Writing data changes nothing that the disk says about itself.
  lemma VolumeAfter(d: Disk, op: Op, d': Disk)
    requires Layout(View(d)) && Step(d, op, d')
    ensures View(d') == VolumeStep(View(d), op)
  {
    if op.Write? && Lookup(View(d), op.name).Some? {
      DataOnly(d, d', FindName(View(d).slots, op.name));
    }
  }

  lemma VolumeKeepsLayout(v: Volume, op: Op)
    requires Layout(v) && Proper(op)
    ensures Layout(VolumeStep(v, op))
  {
    if op.Create? && Created(v, op.name, op.size).Some? {
      CreateKeeps(v, op.name, op.size);
    } else if op.Remove? && Removed(v, op.name).Some? {
      RemoveKeeps(v, op.name);
    }
  }

  // MAIN: every operation keeps the partition.
  lemma StepKeepsLayout(d: Disk, op: Op, d': Disk)
    requires Layout(View(d)) && Proper(op) && Step(d, op, d')
    ensures Layout(View(d'))
  {
    VolumeAfter(d, op, d');
    VolumeKeepsLayout(View(d), op);
  }

  // No data sector of a file is a sector of the bitmap or the directory.
  lemma NotMeta(v: Volume, k: nat, e: Extent, x: nat)
    requires Layout(v) && k < |v.slots| && v.slots[k].Some? && v.slots[k].value.extent == e && x in e.sectors
    ensures x !in MetaSectors(v) && x < |v.bits| && v.bits[x]
  {
    assert Holder(v, k + 2) == Some(e) && Sound(e);
    assert OwnedBy(v, k + 2, x);
    assert Holder(v, 0) == Some(v.mapFile) && Holder(v, 1) == Some(v.dirFile);
    assert x in v.mapFile.sectors ==> OwnedBy(v, 0, x);
    assert x in v.dirFile.sectors ==> OwnedBy(v, 1, x);
  }

  // Only the bitmap, the directory and sectors that were free have changed.
  ghost predicate MetaChange(v: Volume, d: Disk, d': Disk, changed: seq<nat>) {
    && SameOutside(d, d', changed)
    && (forall x: nat :: x in changed ==> x in MetaSectors(v) || (x < |v.bits| && !v.bits[x]))
  }

  // Creating, or removing, one file leaves the bytes of the others alone.
  lemma FileKept(v: Volume, d: Disk, d': Disk, name: Bytes, changed: seq<nat>)
    requires Layout(v) && Lookup(v, name).Some? && MetaChange(v, d, d', changed)
    ensures Contents(d', Lookup(v, name).value) == Contents(d, Lookup(v, name).value)
  {
    var k := FindName(v.slots, name);
    var e := v.slots[k].value.extent;
    forall x | x in e.sectors
      ensures x !in changed
    {
      NotMeta(v, k, e, x);
    }
    OthersKeep(d, d', changed, e);
  }

  // --------------------------------------------------------------- refinement

  lemma LookupCreated(v: Volume, name: Bytes, size: nat, k: nat, e: Extent, other: Bytes)
    requires Layout(v) && Chosen(v, name, size, k, e) && |other| <= NAME_MAX
    ensures Lookup(v.(slots := v.slots[k := Some(File(Short(name), e))]), other)
      == if other == Short(name) then Some(e) else Lookup(v, other)
  {
    var v' := v.(slots := v.slots[k := Some(File(Short(name), e))]);
    var f := FindName(v.slots, other);
    if other == Short(name) {
      FindsOnly(v'.slots, name, k);
      FindNameShort(v'.slots, name);
    } else if f < |v.slots| {
      assert v'.slots[f] == v.slots[f];
      FoundAt(v, other, f);
      FindsOnly(v'.slots, other, f);
    }
  }

  lemma LookupRemoved(v: Volume, name: Bytes, other: Bytes)
    requires Layout(v) && Removed(v, name).Some? && |other| <= NAME_MAX
    ensures Lookup(Removed(v, name).value, other) == if other == Short(name) then None else Lookup(v, other)
  {
    var v' := Removed(v, name).value;
    var k := FindName(v.slots, name);
    var f := FindName(v.slots, other);
    assert forall i :: 0 <= i < |v.slots| && v'.slots[i].Some? ==> i != k && v'.slots[i] == v.slots[i];
    if other != Short(name) && f < |v.slots| {
      assert v'.slots[f] == v.slots[f];
      FoundAt(v, other, f);
      FindsOnly(v'.slots, other, f);
    }
  }

  // Agreement on one name.
  predicate AgreesIn(v: Volume, d: Disk, flat: Flat, name: Bytes) {
    match Lookup(v, name)
    case None => name !in flat
    case Some(e) => name in flat && Matches(flat[name], Contents(d, e))
  }

  lemma CreateAgrees(v: Volume, d: Disk, d': Disk, name: Bytes, size: nat, flat: Flat, other: Bytes)
    requires Layout(v) && Created(v, name, size).Some? && |other| <= NAME_MAX && AgreesIn(v, d, flat, other)
    requires SameOutside(d, d', MetaSectors(v) + [FirstClear(v.bits)])
    ensures AgreesIn(Created(v, name, size).value, d', flat[Short(name) := Unknown(size)], other)
  {
    var v' := Created(v, name, size).value;
    var k, e := CreateChooses(v, name, size);
    LookupCreated(v, name, size, k, e, other);
    assert v'.slots == v.(slots := v.slots[k := Some(File(Short(name), e))]).slots;
    if other == Short(name) {
      ContentsLength(d', e);
    } else if Lookup(v, other).Some? {
      FileKept(v, d, d', other, MetaSectors(v) + [FirstClear(v.bits)]);
    }
  }

  lemma RemoveAgrees(v: Volume, d: Disk, d': Disk, name: Bytes, flat: Flat, other: Bytes)
    requires Layout(v) && Removed(v, name).Some? && |other| <= NAME_MAX && AgreesIn(v, d, flat, other)
    requires SameOutside(d, d', MetaSectors(v))
    ensures AgreesIn(Removed(v, name).value, d', flat - {Short(name)}, other)
  {
    LookupRemoved(v, name, other);
    if other != Short(name) && Lookup(v, other).Some? {
      FileKept(v, d, d', other, MetaSectors(v));
    }
  }

  lemma PutMatches(f: seq<Option<byte>>, s: Bytes, pos: nat, data: Bytes)
    requires Matches(f, s)
    ensures Matches(Put(f, pos, Known(data)), Put(s, pos, data))
  {
  }

  // The file written, seen under its name.
  lemma WriteAgreesHere(v: Volume, d: Disk, d': Disk, name: Bytes, data: Bytes, pos: nat, flat: Flat)
    requires Layout(v) && Lookup(v, name).Some? && AgreesIn(v, d, flat, Short(name))
    requires Wrote(d, d', Lookup(v, name).value, data, pos)
    ensures Short(name) in flat && |flat[Short(name)]| == Lookup(v, name).value.length
    ensures AgreesIn(v, d', flat[Short(name) := Put(flat[Short(name)], pos,
      Known(data[..Clamp(|data|, pos, |flat[Short(name)]|)]))], Short(name))
  {
    var e := Lookup(v, name).value;
    LookupShort(v, name);
    LookupSound(v, name);
    ContentsLength(d, e);
    PutMatches(flat[Short(name)], Contents(d, e), pos, data[..Clamp(|data|, pos, e.length)]);
  }

  // Two names, two files: the other one keeps its bytes.
  lemma WriteKeepsOther(v: Volume, d: Disk, d': Disk, name: Bytes, other: Bytes)
    requires Layout(v) && Lookup(v, name).Some? && Lookup(v, other).Some? && Short(other) != Short(name)
    requires SameOutside(d, d', Lookup(v, name).value.sectors)
    ensures Contents(d', Lookup(v, other).value) == Contents(d, Lookup(v, other).value)
  {
    var k, l := FindName(v.slots, name), FindName(v.slots, other);
    var e, o := Lookup(v, name).value, Lookup(v, other).value;
    forall x | x in o.sectors
      ensures x !in e.sectors
    {
      assert OwnedBy(v, l + 2, x);
      Apart(v, k + 2, l + 2, x);
    }
    OthersKeep(d, d', e.sectors, o);
  }

  lemma ReadsExpected(v: Volume, d: Disk, name: Bytes, len: int, pos: nat, flat: Flat)
    requires Layout(v) && Lookup(v, name).Some? && AgreesIn(v, d, flat, Short(name))
    ensures Short(name) in flat
    ensures Expected(flat, Read(name, len, pos, Some(Range(Contents(d, Lookup(v, name).value), pos,
      Clamp(len, pos, Lookup(v, name).value.length)))))
  {
    LookupShort(v, name);
    LookupSound(v, name);
    ContentsLength(d, Lookup(v, name).value);
  }

  lemma ExpectedIn(v: Volume, d: Disk, op: Op, d': Disk, flat: Flat)
    requires Layout(v) && Effect(v, d, op, VolumeStep(v, op), d') && AgreesIn(v, d, flat, Short(op.name))
    ensures Expected(flat, op)
  {
    LookupShort(v, op.name);
    match op
    case Create(name, size, ok) =>
    case Remove(name, ok) =>
    case Write(name, data, pos, count) =>
      if Lookup(v, name).Some? { WriteAgreesHere(v, d, d', name, data, pos, flat); }
    case Read(name, len, pos, got) =>
      if Lookup(v, name).Some? { ReadsExpected(v, d, name, len, pos, flat); }
  }

  lemma AgreesAfter(v: Volume, d: Disk, op: Op, d': Disk, flat: Flat, name: Bytes)
    requires Layout(v) && Effect(v, d, op, VolumeStep(v, op), d') && |name| <= NAME_MAX
    requires AgreesIn(v, d, flat, name) && AgreesIn(v, d, flat, Short(op.name))
    ensures AgreesIn(VolumeStep(v, op), d', FlatStep(flat, op), name)
  {
    LookupShort(v, op.name);
    match op
    case Create(made, size, ok) =>
      if ok { CreateAgrees(v, d, d', made, size, flat, name); }
    case Remove(gone, ok) =>
      if ok { RemoveAgrees(v, d, d', gone, flat, name); }
    case Write(written, data, pos, count) =>
      if Lookup(v, written).Some? {
        WriteAgreesHere(v, d, d', written, data, pos, flat);
        if name != Short(written) && Lookup(v, name).Some? { WriteKeepsOther(v, d, d', written, name); }
      }
    case Read(_, _, _, _) =>
  }

  // MAIN: one operation on the disk is one operation on the map from names to
  // bytes, and returns what the map says.
  lemma StepRefines(d: Disk, op: Op, d': Disk, flat: Flat)
    requires Layout(View(d)) && Proper(op) && Step(d, op, d') && Agrees(d, flat)
    ensures Expected(flat, op) && Agrees(d', FlatStep(flat, op))
  {
    var v := View(d);
    VolumeAfter(d, op, d');
    ShortIsShort(op.name);
    ExpectedIn(v, d, op, d', flat);
    forall name: Bytes | |name| <= NAME_MAX
      ensures AgreesIn(VolumeStep(v, op), d', FlatStep(flat, op), name)
    {
      AgreesAfter(v, d, op, d', flat, name);
    }
  }

  // ---------------------------------------------------------------------- runs

  // disks[i] is the disk after i of the operations.
  ghost predicate IsRun(disks: seq<Disk>, ops: seq<Op>) {
    && |disks| == |ops| + 1
    && (forall i :: 0 <= i < |ops| ==> Called(disks[i], ops[i], disks[i + 1]))
  }

  ghost predicate Called(d: Disk, op: Op, d': Disk) {
    Proper(op) && Step(d, op, d')
  }

  // The disk satisfies the invariant and holds the files of this map.
  ghost predicate Holds(d: Disk, flat: Flat) {
    Layout(View(d)) && Agrees(d, flat) && forall name :: name in flat ==> |name| <= NAME_MAX
  }

  lemma CallKeeps(d: Disk, op: Op, d': Disk, flat: Flat)
    requires Called(d, op, d') && Holds(d, flat)
    ensures Holds(d', FlatStep(flat, op)) && Expected(flat, op)
  {
    StepKeepsLayout(d, op, d');
    StepRefines(d, op, d', flat);
  }

  function FlatRun(flat: Flat, ops: seq<Op>): Flat {
    if ops == [] then flat else FlatStep(FlatRun(flat, ops[..|ops| - 1]), ops[|ops| - 1])
  }

  lemma FlatRunStep(flat: Flat, ops: seq<Op>, i: nat)
    requires i < |ops|
    ensures FlatRun(flat, ops[..i + 1]) == FlatStep(FlatRun(flat, ops[..i]), ops[i])
  {
    assert ops[..i + 1][..i] == ops[..i];
  }

  lemma {:induction false} RunKeeps(disks: seq<Disk>, ops: seq<Op>, flat: Flat, i: nat)
    requires IsRun(disks, ops) && Holds(disks[0], flat) && i <= |ops|
    ensures Holds(disks[i], FlatRun(flat, ops[..i]))
    decreases i
  {
    if i > 0 {
      RunKeeps(disks, ops, flat, i - 1);
      CallKeeps(disks[i - 1], ops[i - 1], disks[i], FlatRun(flat, ops[..i - 1]));
      FlatRunStep(flat, ops, i - 1);
    } else {
      assert ops[..i] == [];
    }
  }

  // MAIN: in every run, from any disk that satisfies the invariant, marked
  // sectors stay the exact union of what the files own, and every file is what
  // a plain map from names to bytes would hold.
  lemma RunRefines(disks: seq<Disk>, ops: seq<Op>, flat: Flat)
    requires IsRun(disks, ops) && Holds(disks[0], flat)
    ensures Holds(disks[|ops|], FlatRun(flat, ops))
  {
    RunKeeps(disks, ops, flat, |ops|);
    assert ops[..|ops|] == ops;
  }

  // MAIN: and every call of the run returns what that map says.
  lemma RunAnswers(disks: seq<Disk>, ops: seq<Op>, flat: Flat, i: nat)
    requires IsRun(disks, ops) && Holds(disks[0], flat) && i < |ops|
    ensures Expected(FlatRun(flat, ops[..i]), ops[i])
  {
    RunKeeps(disks, ops, flat, i);
    CallKeeps(disks[i], ops[i], disks[i + 1], FlatRun(flat, ops[..i]));
  }

  // An open file keeps the header it read.  One call leaves it right unless the
  // call removes that file.
  lemma HeaderStays(d: Disk, op: Op, d': Disk, name: Bytes)
    requires Layout(View(d)) && Called(d, op, d') && |name| <= NAME_MAX && Lookup(View(d), name).Some?
    requires op.Remove? && op.ok ==> Short(op.name) != name
    ensures Lookup(View(d'), name) == Lookup(View(d), name)
  {
    var v := View(d);
    VolumeAfter(d, op, d');
    LookupStays(v, op, name);
  }

  lemma LookupStays(v: Volume, op: Op, name: Bytes)
    requires Layout(v) && |name| <= NAME_MAX && Lookup(v, name).Some?
    requires op.Remove? && Removed(v, op.name).Some? ==> Short(op.name) != name
    ensures Lookup(VolumeStep(v, op), name) == Lookup(v, name)
  {
    if op.Create? && Created(v, op.name, op.size).Some? {
      var k, e := CreateChooses(v, op.name, op.size);
      LookupCreated(v, op.name, op.size, k, e, name);
      assert VolumeStep(v, op).slots == v.(slots := v.slots[k := Some(File(Short(op.name), e))]).slots;
    } else if op.Remove? && Removed(v, op.name).Some? {
      LookupRemoved(v, op.name, name);
    }
  }

  // MAIN: until a file is removed, an open handle and the disk agree on where
  // its bytes are, whatever else is created, removed or written.
  lemma {:induction false} HandleStays(disks: seq<Disk>, ops: seq<Op>, flat: Flat, name: Bytes, i: nat)
    requires IsRun(disks, ops) && Holds(disks[0], flat) && i <= |ops|
    requires |name| <= NAME_MAX && Lookup(View(disks[0]), name).Some?
    requires forall k :: 0 <= k < i && ops[k].Remove? && ops[k].ok ==> Short(ops[k].name) != name
    ensures Lookup(View(disks[i]), name) == Lookup(View(disks[0]), name)
    decreases i
  {
    if i > 0 {
      HandleStays(disks, ops, flat, name, i - 1);
      RunKeeps(disks, ops, flat, i - 1);
      HeaderStays(disks[i - 1], ops[i - 1], disks[i], name);
    }
  }

  // --------------------------------------------------------------- fresh disks

  // What formatting leaves: nothing in the directory, and only the two fixed
  // files' sectors marked.
  ghost predicate Formatted(v: Volume) {
    && Fixed(v) && Sound(v.mapFile) && Sound(v.dirFile)
    && (forall x: nat :: !(Owns(v.mapFile, x) && Owns(v.dirFile, x)))
    && (forall k :: 0 <= k < |v.slots| ==> v.slots[k].None?)
    && (forall x: nat :: x < |v.bits| ==> (v.bits[x] <==> Owns(v.mapFile, x) || Owns(v.dirFile, x)))
  }

  // MAIN: a formatted disk satisfies the invariant and holds no file.
  lemma FormatOk(d: Disk)
    requires Formatted(View(d))
    ensures Layout(View(d)) && Agrees(d, map[])
  {
    var v := View(d);
    assert Holder(v, 0) == Some(v.mapFile) && Holder(v, 1) == Some(v.dirFile);
    assert forall k: nat :: Holder(v, k).Some? ==> k < 2;
    forall x: nat | x < |v.bits|
      ensures v.bits[x] <==> exists k: nat :: OwnedBy(v, k, x)
    {
      assert OwnedBy(v, 0, x) <==> Owns(v.mapFile, x);
      assert OwnedBy(v, 1, x) <==> Owns(v.dirFile, x);
    }
  }
}
