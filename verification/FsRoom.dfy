// How much the disk holds: the free sectors counted from the files alone, and
// with them when a Create of a run succeeds.

module FsRoom {
  import opened Basics
  import opened MachineWords
  import opened FsModel
  import opened FsVolume
  import opened FsRuns

  // The sectors of the two fixed files: two headers, one sector of bitmap and
  // two of directory.
  const FIXED: nat := 5

  // The sectors of files of these lengths: for each its header, and the least
  // number that holds its bytes.
  ghost function Cost(lengths: map<Bytes, nat>): nat
    decreases |lengths|
  {
    if lengths == map[] then 0
    else
      var name :| name in lengths;
      1 + SectorsFor(lengths[name]) + Cost(lengths - {name})
  }

  lemma {:induction false} CostWith(lengths: map<Bytes, nat>, name: Bytes)
    requires name in lengths
    ensures Cost(lengths) == 1 + SectorsFor(lengths[name]) + Cost(lengths - {name})
    decreases |lengths|
  {
    var first :| first in lengths && Cost(lengths) == 1 + SectorsFor(lengths[first]) + Cost(lengths - {first});
    if first != name {
      CostWith(lengths - {first}, name);
      CostWith(lengths - {name}, first);
      assert lengths - {first} - {name} == lengths - {name} - {first};
    }
  }

  ghost function Lengths(flat: Flat): map<Bytes, nat> {
    map name | name in flat :: |flat[name]|
  }

  // ---------------------------------------------------- counted over the slots

  function Used(slots: seq<Option<File>>): nat {
    if slots == [] then 0
    else
      var last := slots[|slots| - 1];
      Used(slots[..|slots| - 1]) + if last.Some? then 1 + |last.value.extent.sectors| else 0
  }

  function FilesOf(slots: seq<Option<File>>): map<Bytes, nat> {
    if slots == [] then map[]
    else
      var last, others := slots[|slots| - 1], FilesOf(slots[..|slots| - 1]);
      if last.Some? then others[last.value.name := last.value.extent.length] else others
  }

  ghost predicate Separate(slots: seq<Option<File>>) {
    && (forall k, l :: 0 <= k < l < |slots| && slots[k].Some? && slots[l].Some? ==> slots[k].value.name != slots[l].value.name)
    && (forall k :: 0 <= k < |slots| && slots[k].Some? ==>
          |slots[k].value.extent.sectors| == SectorsFor(slots[k].value.extent.length))
  }

  lemma {:induction false} FilesOfHas(slots: seq<Option<File>>, name: Bytes)
    requires Separate(slots)
    ensures name in FilesOf(slots) <==> exists k :: 0 <= k < |slots| && slots[k].Some? && slots[k].value.name == name
    ensures forall k :: 0 <= k < |slots| && slots[k].Some? && slots[k].value.name == name ==>
      FilesOf(slots)[name] == slots[k].value.extent.length
    decreases |slots|
  {
    if slots != [] {
      var n := |slots| - 1;
      FilesOfHas(slots[..n], name);
      assert forall k :: 0 <= k < n ==> slots[..n][k] == slots[k];
      if name in FilesOf(slots[..n]) {
        var k :| 0 <= k < n && slots[..n][k].Some? && slots[..n][k].value.name == name;
        assert slots[k].Some? && slots[k].value.name == name;
      }
    }
  }

  lemma OneMoreFile(others: map<Bytes, nat>, name: Bytes, length: nat)
    requires name !in others
    ensures Cost(others[name := length]) == Cost(others) + 1 + SectorsFor(length)
    ensures |others[name := length]| == |others| + 1
  {
    CostWith(others[name := length], name);
    assert others[name := length] - {name} == others;
    assert others[name := length].Keys == others.Keys + {name};
  }

  // A new name for each slot in use.
  lemma NewName(slots: seq<Option<File>>, n: nat)
    requires Separate(slots) && n < |slots| && slots[n].Some?
    ensures Separate(slots[..n]) && slots[n].value.name !in FilesOf(slots[..n])
  {
    assert forall k :: 0 <= k < n ==> slots[..n][k] == slots[k];
    FilesOfHas(slots[..n], slots[n].value.name);
  }

  lemma {:induction false} CountedByName(slots: seq<Option<File>>)
    requires Separate(slots)
    ensures Used(slots) == Cost(FilesOf(slots))
    decreases |slots|
  {
    if slots != [] {
      var n := |slots| - 1;
      CountedByName(slots[..n]);
      if slots[n].Some? {
        NewName(slots, n);
        OneMoreFile(FilesOf(slots[..n]), slots[n].value.name, slots[n].value.extent.length);
      }
    }
  }

  lemma {:induction false} FullOrNot(slots: seq<Option<File>>)
    requires Separate(slots)
    ensures |FilesOf(slots)| <= |slots|
    ensures |FilesOf(slots)| == |slots| <==> forall k :: 0 <= k < |slots| ==> slots[k].Some?
    decreases |slots|
  {
    if slots != [] {
      var n := |slots| - 1;
      FullOrNot(slots[..n]);
      assert forall k :: 0 <= k < n ==> slots[..n][k] == slots[k];
      if slots[n].Some? {
        NewName(slots, n);
        OneMoreFile(FilesOf(slots[..n]), slots[n].value.name, slots[n].value.extent.length);
      }
    }
  }

  // ----------------------------------------------------- counted over the disk

  ghost function SectorSet(sectors: seq<nat>): set<nat> {
    set x | x in sectors
  }

  lemma {:induction false} DistinctCount(sectors: seq<nat>)
    requires forall k, l :: 0 <= k < l < |sectors| ==> sectors[k] != sectors[l]
    ensures |SectorSet(sectors)| == |sectors|
    decreases |sectors|
  {
    if sectors != [] {
      var n := |sectors| - 1;
      DistinctCount(sectors[..n]);
      assert sectors == sectors[..n] + [sectors[n]];
      assert SectorSet(sectors) == SectorSet(sectors[..n]) + {sectors[n]};
    }
  }

  // The sectors of the first n holders.
  ghost function Owned(v: Volume, n: nat): set<nat>
    decreases n
  {
    if n == 0 then {}
    else Owned(v, n - 1) + if Holder(v, n - 1).Some? then Footprint(Holder(v, n - 1).value) else {}
  }

  ghost function Footprint(e: Extent): set<nat> {
    SectorSet(e.sectors) + {e.at}
  }

  lemma {:induction false} OwnedIs(v: Volume, n: nat, x: nat)
    ensures x in Owned(v, n) <==> exists k: nat :: k < n && OwnedBy(v, k, x)
    decreases n
  {
    if n > 0 {
      OwnedIs(v, n - 1, x);
      assert OwnedBy(v, n - 1, x) <==> Holder(v, n - 1).Some? && x in Footprint(Holder(v, n - 1).value);
    }
  }

  lemma {:induction false} OwnedCount(v: Volume, n: nat)
    requires Layout(v) && n <= NUM_ENTRIES
    ensures |Owned(v, n + 2)| == FIXED + Used(v.slots[..n])
    decreases n
  {
    if n == 0 {
      assert Holder(v, 0) == Some(v.mapFile) && Holder(v, 1) == Some(v.dirFile);
      OwnedMore(v, 0);
      OwnedMore(v, 1);
    } else {
      OwnedCount(v, n - 1);
      OwnedMore(v, n + 1);
      assert v.slots[..n][..n - 1] == v.slots[..n - 1];
      assert Holder(v, n + 1) == if v.slots[n - 1].Some? then Some(v.slots[n - 1].value.extent) else None;
    }
  }

  lemma OwnedMore(v: Volume, n: nat)
    requires Layout(v)
    ensures |Owned(v, n + 1)| == |Owned(v, n)| +
      if Holder(v, n).Some? then 1 + SectorsFor(Holder(v, n).value.length) else 0
    ensures Holder(v, n).Some? ==> |Holder(v, n).value.sectors| == SectorsFor(Holder(v, n).value.length)
  {
    if Holder(v, n).Some? {
      var e := Holder(v, n).value;
      assert Sound(e);
      DistinctCount(e.sectors);
      forall x | x in Footprint(e)
        ensures x !in Owned(v, n)
      {
        OwnedIs(v, n, x);
        assert OwnedBy(v, n, x);
      }
      assert Owned(v, n) !! Footprint(e);
    }
  }

  lemma AllFree(n: nat)
    ensures |Free(seq(n, _ => false))| == n
  {
    AllClear(n);
    CountsFree(seq(n, _ => false));
  }

  // MAIN: with the sectors of the fixed files and those of the files in the
  // directory the free ones make up the disk.
  lemma FreeIsTheRest(v: Volume)
    requires Layout(v)
    ensures |Free(v.bits)| + FIXED + Used(v.slots) == NUM_SECTORS
  {
    var owned := Owned(v, NUM_ENTRIES + 2);
    OwnedCount(v, NUM_ENTRIES);
    assert v.slots[..NUM_ENTRIES] == v.slots;
    forall x: nat
      ensures x in owned <==> x < NUM_SECTORS && v.bits[x]
    {
      OwnedIs(v, NUM_ENTRIES + 2, x);
      if k: nat :| OwnedBy(v, k, x) {
        assert Sound(Holder(v, k).value);
        assert k < NUM_ENTRIES + 2;
      }
    }
    AllFree(NUM_SECTORS);
    assert Free(seq(NUM_SECTORS, _ => false)) == owned + Free(v.bits);
  }

  // ------------------------------------------------------- told from the files

  // The map has the names and lengths of the directory.
  ghost predicate SameFiles(v: Volume, flat: Flat) {
    && ShortNames(v)
    && (forall name :: name in flat ==> |name| <= NAME_MAX)
    && (forall name: Bytes :: |name| <= NAME_MAX ==> SameLength(Lookup(v, name), flat, name))
  }

  predicate ShortNames(v: Volume) {
    forall k :: 0 <= k < |v.slots| && v.slots[k].Some? ==> |v.slots[k].value.name| <= NAME_MAX
  }

  predicate SameLength(e: Option<Extent>, flat: Flat, name: Bytes) {
    if e.None? then name !in flat else name in flat && |flat[name]| == e.value.length
  }

  lemma AgreedLength(v: Volume, d: Disk, flat: Flat, name: Bytes)
    requires Layout(v) && AgreesIn(v, d, flat, name)
    ensures SameLength(Lookup(v, name), flat, name)
  {
    if Lookup(v, name).Some? {
      LookupSound(v, name);
      ContentsLength(d, Lookup(v, name).value);
    }
  }

  lemma HoldsSame(v: Volume, d: Disk, flat: Flat)
    requires Layout(v) && ShortNames(v) && (forall name :: name in flat ==> |name| <= NAME_MAX)
    requires forall name: Bytes :: |name| <= NAME_MAX ==> AgreesIn(v, d, flat, name)
    ensures SameFiles(v, flat)
  {
    forall name: Bytes | |name| <= NAME_MAX
      ensures SameLength(Lookup(v, name), flat, name)
    {
      AgreedLength(v, d, flat, name);
    }
  }

  // A stored name cannot be longer.
  lemma NamesFit(d: Disk)
    ensures ShortNames(View(d))
  {
  }

  lemma AllSeparate(v: Volume)
    requires Layout(v)
    ensures Separate(v.slots)
  {
    forall k | 0 <= k < |v.slots| && v.slots[k].Some?
      ensures Sound(v.slots[k].value.extent)
    {
      assert Holder(v, k + 2) == Some(v.slots[k].value.extent);
    }
  }

  lemma OneFile(v: Volume, flat: Flat, name: Bytes)
    requires Separate(v.slots) && SameFiles(v, flat)
    ensures name in FilesOf(v.slots) <==> name in flat
    ensures name in flat ==> FilesOf(v.slots)[name] == |flat[name]|
  {
    FilesOfHas(v.slots, name);
    if |name| <= NAME_MAX {
      assert SameLength(Lookup(v, name), flat, name);
    }
  }

  lemma FilesAre(v: Volume, flat: Flat)
    requires Separate(v.slots) && SameFiles(v, flat)
    ensures FilesOf(v.slots) == Lengths(flat)
  {
    forall name: Bytes
      ensures name in FilesOf(v.slots) <==> name in flat
      ensures name in flat ==> FilesOf(v.slots)[name] == |flat[name]|
    {
      OneFile(v, flat, name);
    }
  }

  lemma RoomLeft(v: Volume, lengths: map<Bytes, nat>)
    requires Layout(v) && Separate(v.slots) && FilesOf(v.slots) == lengths
    ensures |Free(v.bits)| == NUM_SECTORS - FIXED - Cost(lengths)
    ensures |lengths| < NUM_ENTRIES <==> exists k :: 0 <= k < |v.slots| && v.slots[k].None?
  {
    CountedByName(v.slots);
    FullOrNot(v.slots);
    FreeIsTheRest(v);
  }

  lemma NameIsNew(v: Volume, files: Flat, name: Bytes)
    requires Layout(v) && SameFiles(v, files)
    ensures Short(name) !in files <==>
      forall k :: 0 <= k < |v.slots| && v.slots[k].Some? ==> v.slots[k].value.name != Short(name)
  {
    AllSeparate(v);
    FilesAre(v, files);
    FilesOfHas(v.slots, Short(name));
  }

  lemma CreateAnswer(v: Volume, files: Flat, name: Bytes, size: nat)
    requires Layout(v) && SameFiles(v, files)
    ensures Created(v, name, size).Some? <==>
      && Short(name) !in files
      && |files| < NUM_ENTRIES
      && size <= SECTOR_SIZE * (NUM_SECTORS - FIXED - Cost(Lengths(files)) - 1)
  {
    AllSeparate(v);
    FilesAre(v, files);
    RoomLeft(v, Lengths(files));
    assert Lengths(files).Keys == files.Keys;
    NameIsNew(v, files, name);
    CreateSucceedsIff(v, name, size);
  }

  // MAIN: in every run a Create succeeds exactly when the map has no file of
  // that name, has fewer files than the directory has entries, and its files
  // leave room for one more header and the new bytes.
  lemma RunCreates(disks: seq<Disk>, ops: seq<Op>, flat: Flat, i: nat)
    requires IsRun(disks, ops) && Holds(disks[0], flat) && i < |ops| && ops[i].Create?
    ensures var files := FlatRun(flat, ops[..i]);
      ops[i].ok <==>
        && Short(ops[i].name) !in files
        && |files| < NUM_ENTRIES
        && ops[i].size <= SECTOR_SIZE * (NUM_SECTORS - FIXED - Cost(Lengths(files)) - 1)
  {
    RunKeeps(disks, ops, flat, i);
    NamesFit(disks[i]);
    HoldsSame(View(disks[i]), disks[i], FlatRun(flat, ops[..i]));
    CreateAnswer(View(disks[i]), FlatRun(flat, ops[..i]), ops[i].name, ops[i].size);
    assert Called(disks[i], ops[i], disks[i + 1]);
  }
}
