// Writing the header, the directory and the bitmap back to disk, byte for
// byte, amounts to the step on the volume that Create, Remove and format mean.

module FsMeta {
  import opened Basics
  import opened MachineWords
  import opened FsModel
  import opened FsCodec
  import opened FsVolume
  import opened FsRuns

  lemma WholeFile(d: Disk, d': Disk, e: Extent, bytes: Bytes)
    requires Sound(e) && |bytes| == e.length && Wrote(d, d', e, bytes, 0)
    ensures Contents(d', e) == bytes
  {
    ContentsLength(d, e);
    assert bytes[..Clamp(|bytes|, 0, e.length)] == bytes;
    assert Put(Contents(d, e), 0, bytes) == bytes;
  }

  // Two stored files that do not meet: the bitmap and the directory.
  ghost predicate Flushed(d: Disk, d': Disk, first: Extent, a: Bytes, second: Extent, b: Bytes) {
    && SameOutside(d, d', first.sectors + second.sectors)
    && Contents(d', first) == a && Contents(d', second) == b
  }

  lemma FlushBoth(d: Disk, mid: Disk, d': Disk, first: Extent, a: Bytes, second: Extent, b: Bytes)
    requires Sound(first) && Sound(second) && |a| == first.length && |b| == second.length
    requires forall x :: x in first.sectors ==> x !in second.sectors
    requires Wrote(d, mid, first, a, 0) && Wrote(mid, d', second, b, 0)
    ensures Flushed(d, d', first, a, second, b)
  {
    WholeFile(d, mid, first, a);
    WholeFile(mid, d', second, b);
    OthersKeep(mid, d', second.sectors, first);
    forall x: nat | x < NUM_SECTORS && x !in first.sectors + second.sectors
      ensures d'[x] == d[x]
    {
      assert x !in first.sectors && x !in second.sectors;
      assert mid[x] == d[x];
    }
  }

  predicate GoodTable(table: seq<Entry>) {
    |table| == NUM_ENTRIES && forall k :: 0 <= k < |table| ==> EntryOk(table[k])
  }

  predicate GoodWords(words: seq<nat>) {
    |words| == NUM_SECTORS / 32 && Words(words)
  }

  // What a disk says when its bitmap and directory files hold these.
  lemma ViewOf(d: Disk, mapFile: Extent, dirFile: Extent, words: seq<nat>, table: seq<Entry>)
    requires GoodTable(table) && GoodWords(words)
    requires HeaderAt(d, MAP_SECTOR) == mapFile && HeaderAt(d, DIR_SECTOR) == dirFile
    requires Contents(d, mapFile) == EncodeWords(words) && Contents(d, dirFile) == EncodeTable(table)
    ensures View(d) == Volume(BitsOf(words, NUM_SECTORS), mapFile, dirFile, SlotsOf(d, table))
  {
    BitmapReadBack(words);
    TableReadBack(table);
  }

  lemma OwnsItsSectors(v: Volume, k: nat, e: Extent, x: nat)
    requires Holder(v, k) == Some(e)
    ensures x in e.sectors ==> OwnedBy(v, k, x)
  {
  }

  lemma FixedSound(v: Volume)
    requires Layout(v)
    ensures Sound(v.mapFile) && Sound(v.dirFile)
    ensures forall x :: x in v.mapFile.sectors ==> x !in v.dirFile.sectors
    ensures MAP_SECTOR !in MetaSectors(v) && DIR_SECTOR !in MetaSectors(v)
    ensures v.bits[MAP_SECTOR] && v.bits[DIR_SECTOR]
  {
    assert Holder(v, 0) == Some(v.mapFile) && Holder(v, 1) == Some(v.dirFile);
    forall x | x in v.mapFile.sectors
      ensures x !in v.dirFile.sectors
    {
      assert OwnedBy(v, 0, x);
      Apart(v, 1, 0, x);
    }
    assert OwnedBy(v, 0, MAP_SECTOR) && OwnedBy(v, 1, DIR_SECTOR);
    OwnsItsSectors(v, 1, v.dirFile, MAP_SECTOR);
    OwnsItsSectors(v, 0, v.mapFile, DIR_SECTOR);
  }

  // The header sector of a file in the directory: not free, and not of the meta files.
  lemma HeaderApart(v: Volume, i: nat)
    requires Layout(v) && i < |v.slots| && v.slots[i].Some?
    ensures var at := v.slots[i].value.extent.at;
      at < NUM_SECTORS && at !in MetaSectors(v) && v.bits[at]
  {
    var e := v.slots[i].value.extent;
    assert Holder(v, i + 2) == Some(e) && Sound(e);
    assert OwnedBy(v, i + 2, e.at);
    assert Holder(v, 0) == Some(v.mapFile) && Holder(v, 1) == Some(v.dirFile);
    OwnsItsSectors(v, 0, v.mapFile, e.at);
    OwnsItsSectors(v, 1, v.dirFile, e.at);
  }

  // Every sector of a file is marked, so giving it back is never refused.
  ghost predicate AllMarked(bits: seq<bool>, e: Extent) {
    && |bits| == NUM_SECTORS && Sound(e)
    && (forall i :: 0 <= i < |e.sectors| ==> bits[e.sectors[i]])
  }

  lemma FileMarked(v: Volume, k: nat)
    requires Layout(v) && k < NUM_ENTRIES && v.slots[k].Some?
    ensures AllMarked(v.bits, v.slots[k].value.extent)
  {
    var e := v.slots[k].value.extent;
    assert Holder(v, k + 2) == Some(e) && Sound(e);
    forall i | 0 <= i < |e.sectors|
      ensures v.bits[e.sectors[i]]
    {
      assert OwnedBy(v, k + 2, e.sectors[i]);
    }
  }

  // Entries in use name sectors of the disk.
  lemma EntryInRange(v: Volume, d: Disk, table: seq<Entry>, i: nat)
    requires Layout(v) && |table| == NUM_ENTRIES && v.slots == SlotsOf(d, table) && i < NUM_ENTRIES
    ensures table[i].inUse ==> 0 <= table[i].sector < NUM_SECTORS && v.slots[i] == Some(File(NameIn(table[i].name), HeaderAt(d, table[i].sector)))
  {
    assert v.slots[i] == SlotOf(d, table[i]);
    if table[i].inUse {
      assert Sound(Holder(v, i + 2).value);
    }
  }

  // Slots whose entry and header sector are as before are as before.
  lemma SlotSame(v: Volume, d: Disk, d': Disk, changed: seq<nat>, i: nat, e: Entry)
    requires Layout(v) && MetaChange(v, d, d', changed) && i < |v.slots| && v.slots[i] == SlotOf(d, e)
    ensures SlotOf(d', e) == SlotOf(d, e)
  {
    if e.inUse {
      assert Sound(Holder(v, i + 2).value);
      HeaderApart(v, i);
    }
  }

  // ------------------------------------------------------------------- Create

  // The entry that names a new file whose header is in sector at.
  predicate NamesFile(e: Entry, name: Bytes, at: nat) {
    EntryOk(e) && e.inUse && e.sector == at && NameIn(e.name) == Short(name)
  }

  lemma SlotsAfterCreate(v: Volume, d: Disk, d': Disk, table: seq<Entry>, k: nat, entry: Entry, name: Bytes, e: Extent)
    requires Layout(v) && GoodTable(table) && v.slots == SlotsOf(d, table) && k < NUM_ENTRIES
    requires e.at < NUM_SECTORS && !v.bits[e.at] && MetaChange(v, d, d', MetaSectors(v) + [e.at])
    requires NamesFile(entry, name, e.at) && HeaderAt(d', e.at) == e
    ensures SlotsOf(d', table[k := entry]) == v.slots[k := Some(File(Short(name), e))]
  {
    var table', slots' := table[k := entry], v.slots[k := Some(File(Short(name), e))];
    forall i | 0 <= i < NUM_ENTRIES
      ensures SlotOf(d', table'[i]) == slots'[i]
    {
      if i != k {
        assert v.slots[i] == SlotOf(d, table[i]);
        SlotSame(v, d, d', MetaSectors(v) + [e.at], i, table[i]);
      }
    }
  }

  // A new file that Create has settled on: entry k will name the header e, and
  // the bitmap's words mark what was marked before and what e owns.
  ghost predicate Settled(v: Volume, name: Bytes, size: nat, k: nat, e: Extent, entry: Entry, words: seq<nat>) {
    && |v.slots| == NUM_ENTRIES && |v.bits| == NUM_SECTORS
    && k < NUM_ENTRIES && e.at == FirstClear(v.bits) < NUM_SECTORS
    && GoodWords(words) && NamesFile(entry, name, e.at)
    && Created(v, name, size) == Some(v.(
         bits := BitsOf(words, NUM_SECTORS), slots := v.slots[k := Some(File(Short(name), e))]))
  }

  // The choices of Create, one after another.
  lemma SettledBy(v: Volume, name: Bytes, size: nat, k: nat, e: Extent, entry: Entry, words: seq<nat>)
    requires |v.slots| == NUM_ENTRIES && |v.bits| == NUM_SECTORS && FindName(v.slots, name) == NUM_ENTRIES
    requires k == FreeSlot(v.slots) < NUM_ENTRIES && e.at == FirstClear(v.bits) < NUM_SECTORS && e.length == size
    requires GoodWords(words) && NamesFile(entry, name, e.at)
    requires Allocate(v.bits[e.at := true], size) == Some((BitsOf(words, NUM_SECTORS), e.sectors))
    ensures Settled(v, name, size, k, e, entry, words)
  {
  }

  // The new header is stored, then the directory, then the bitmap.
  lemma CreateOnDisk(v: Volume, d: Disk, withHeader: Disk, d': Disk, name: Bytes, size: nat, k: nat, e: Extent,
                     table: seq<Entry>, entry: Entry, words: seq<nat>)
    requires View(d) == v && Layout(v) && table == DecodeTable(Contents(d, v.dirFile), NUM_ENTRIES)
    requires Settled(v, name, size, k, e, entry, words)
    requires SameOutside(d, withHeader, [e.at]) && HeaderAt(withHeader, e.at) == e
    requires Flushed(withHeader, d', v.dirFile, EncodeTable(table[k := entry]), v.mapFile, EncodeWords(words))
    ensures Step(d, FsRuns.Create(name, size, true), d')
  {
    FixedSound(v);
    MetaOnly(v, d, withHeader, d', e.at);
    assert v.slots == SlotsOf(d, table);
    SlotsAfterCreate(v, d, d', table, k, entry, name, e);
    ViewOf(d', v.mapFile, v.dirFile, words, table[k := entry]);
  }

  lemma FreeIsNobodys(v: Volume, k: nat, x: nat)
    requires Layout(v) && x < NUM_SECTORS && !v.bits[x]
    ensures !OwnedBy(v, k, x)
  {
  }

  lemma MetaOnly(v: Volume, d: Disk, withHeader: Disk, d': Disk, at: nat)
    requires Layout(v) && at < NUM_SECTORS && !v.bits[at]
    requires SameOutside(d, withHeader, [at]) && SameOutside(withHeader, d', v.dirFile.sectors + v.mapFile.sectors)
    ensures MetaChange(v, d, d', MetaSectors(v) + [at])
    ensures d'[MAP_SECTOR] == d[MAP_SECTOR] && d'[DIR_SECTOR] == d[DIR_SECTOR] && d'[at] == withHeader[at]
  {
    FixedSound(v);
    forall x: nat | x < NUM_SECTORS && x !in MetaSectors(v) + [at]
      ensures d'[x] == d[x]
    {
      assert x !in v.dirFile.sectors + v.mapFile.sectors && x !in [at];
    }
    assert Holder(v, 0) == Some(v.mapFile) && Holder(v, 1) == Some(v.dirFile);
    FreeIsNobodys(v, 0, at);
    FreeIsNobodys(v, 1, at);
    assert at !in v.dirFile.sectors + v.mapFile.sectors;
  }

  // ------------------------------------------------------------------- Remove

  // What Remove has prepared: entry k out of use, and the words of a bitmap
  // without the file's sectors.
  ghost predicate Unlisted(v: Volume, name: Bytes, k: nat, table: seq<Entry>, table': seq<Entry>, words: seq<nat>) {
    && |v.slots| == |table| == NUM_ENTRIES && |v.bits| == NUM_SECTORS && GoodWords(words)
    && k == FindName(v.slots, name) < NUM_ENTRIES && table' == table[k := table[k].(inUse := false)]
    && Removed(v, name) == Some(v.(bits := BitsOf(words, NUM_SECTORS), slots := v.slots[k := None]))
  }

  lemma UnlistedBy(v: Volume, name: Bytes, k: nat, e: Extent, table: seq<Entry>, table': seq<Entry>, words: seq<nat>)
    requires |v.slots| == |table| == NUM_ENTRIES && |v.bits| == NUM_SECTORS && GoodWords(words)
    requires k == FindName(v.slots, name) < NUM_ENTRIES && table' == table[k := table[k].(inUse := false)]
    requires e == v.slots[k].value.extent && BitsOf(words, NUM_SECTORS) == Give(v.bits, e.sectors + [e.at])
    ensures Unlisted(v, name, k, table, table', words)
  {
  }

  // The bitmap is stored, then the directory with one entry out of use.
  lemma RemoveOnDisk(v: Volume, d: Disk, d': Disk, name: Bytes, k: nat, table: seq<Entry>, table': seq<Entry>, words: seq<nat>)
    requires View(d) == v && Layout(v) && table == DecodeTable(Contents(d, v.dirFile), NUM_ENTRIES)
    requires Unlisted(v, name, k, table, table', words)
    requires Flushed(d, d', v.mapFile, EncodeWords(words), v.dirFile, EncodeTable(table'))
    ensures Step(d, FsRuns.Remove(name, true), d')
  {
    FixedSound(v);
    assert v.slots == SlotsOf(d, table);
    SlotsAfterRemove(v, d, d', table, k);
    ViewOf(d', v.mapFile, v.dirFile, words, table');
  }

  lemma SlotsAfterRemove(v: Volume, d: Disk, d': Disk, table: seq<Entry>, k: nat)
    requires Layout(v) && GoodTable(table) && v.slots == SlotsOf(d, table) && k < NUM_ENTRIES
    requires MetaChange(v, d, d', MetaSectors(v))
    ensures SlotsOf(d', table[k := table[k].(inUse := false)]) == v.slots[k := None]
  {
    var table', slots' := table[k := table[k].(inUse := false)], v.slots[k := None];
    forall i | 0 <= i < NUM_ENTRIES
      ensures SlotOf(d', table'[i]) == slots'[i]
    {
      if i != k {
        assert v.slots[i] == SlotOf(d, table[i]);
        SlotSame(v, d, d', MetaSectors(v), i, table[i]);
      }
    }
  }

  // ------------------------------------------------------------------- format

  predicate BlankTable(table: seq<Entry>) {
    GoodTable(table) && forall k :: 0 <= k < |table| ==> !table[k].inUse
  }

  // Two headers, then the bitmap and an empty directory.
  lemma FormatOnDisk(d: Disk, d': Disk, mapFile: Extent, dirFile: Extent, words: seq<nat>, table: seq<Entry>)
    requires HeaderAt(d, MAP_SECTOR) == mapFile && HeaderAt(d, DIR_SECTOR) == dirFile
    requires GoodWords(words) && BlankTable(table)
    requires Allotted(BitsOf(words, NUM_SECTORS), mapFile, dirFile)
    requires Flushed(d, d', mapFile, EncodeWords(words), dirFile, EncodeTable(table))
    ensures Formatted(View(d'))
  {
    assert Owns(mapFile, MAP_SECTOR) && Owns(dirFile, DIR_SECTOR);
    assert MAP_SECTOR !in mapFile.sectors + dirFile.sectors;
    assert DIR_SECTOR !in mapFile.sectors + dirFile.sectors;
    ViewOf(d', mapFile, dirFile, words, table);
  }
}
