// Who owns each sector: Create and Remove keep the marked sectors an exact
// disjoint union, and undo one another.

module FsVolume {
  import opened Basics
  import opened MachineWords
  import opened FsModel

  // The two fixed files, then the files of the directory.
  function Holder(v: Volume, k: nat): Option<Extent> {
    if k == 0 then Some(v.mapFile)
    else if k == 1 then Some(v.dirFile)
    else if k - 2 < |v.slots| && v.slots[k - 2].Some? then Some(v.slots[k - 2].value.extent)
    else None
  }

  // The header sector and the data sectors.
  predicate Owns(e: Extent, x: nat) {
    x == e.at || x in e.sectors
  }

  predicate OwnedBy(v: Volume, k: nat, x: nat) {
    Holder(v, k).Some? && Owns(Holder(v, k).value, x)
  }

  predicate Fixed(v: Volume) {
    && v.mapFile.at == MAP_SECTOR && v.mapFile.length == MAP_FILE_SIZE
    && v.dirFile.at == DIR_SECTOR && v.dirFile.length == DIR_FILE_SIZE
    && |v.slots| == NUM_ENTRIES && |v.bits| == NUM_SECTORS
  }

  ghost predicate AllSound(v: Volume) {
    forall k: nat :: Holder(v, k).Some? ==> Sound(Holder(v, k).value)
  }

  ghost predicate Disjoint(v: Volume) {
    forall k: nat, l: nat, x: nat :: OwnedBy(v, k, x) && OwnedBy(v, l, x) ==> k == l
  }

  ghost predicate Marked(v: Volume) {
    forall x: nat :: x < |v.bits| ==> (v.bits[x] <==> exists k: nat :: OwnedBy(v, k, x))
  }

  ghost predicate DistinctNames(v: Volume) {
    forall k, l :: 0 <= k < l < |v.slots| && v.slots[k].Some? && v.slots[l].Some? ==>
      v.slots[k].value.name != v.slots[l].value.name
  }

  // The file system's invariant.
  ghost predicate Layout(v: Volume) {
    Fixed(v) && AllSound(v) && Disjoint(v) && Marked(v) && DistinctNames(v)
  }

  // ----------------------------------------------------------- taking and giving

  lemma {:induction false} ClearOnes(bits: seq<bool>, s: nat)
    requires s < |bits| && !bits[s]
    ensures NumClear(bits) == NumClear(bits[s := true]) + 1
    decreases |bits|
  {
    var n := |bits| - 1;
    if s < n {
      ClearOnes(bits[..n], s);
      assert bits[s := true][..n] == bits[..n][s := true];
    } else {
      assert bits[s := true][..n] == bits[..n];
    }
  }

  lemma {:induction false} SomeClear(bits: seq<bool>)
    ensures NumClear(bits) > 0 <==> FirstClear(bits) < |bits|
    decreases |bits|
  {
    if bits != [] {
      var n := |bits| - 1;
      SomeClear(bits[..n]);
      assert forall i :: 0 <= i < n ==> bits[..n][i] == bits[i];
    }
  }

  ghost function Free(bits: seq<bool>): set<nat> {
    set x: nat | x < |bits| && !bits[x]
  }

  // The count is that of the free sectors.
  lemma {:induction false} CountsFree(bits: seq<bool>)
    ensures NumClear(bits) == |Free(bits)|
    decreases |bits|
  {
    if bits != [] {
      var n := |bits| - 1;
      CountsFree(bits[..n]);
      assert Free(bits) == Free(bits[..n]) + if bits[n] then {} else {n as nat};
    }
  }

  // n different clear sectors, and the bitmap with exactly those marked.
  predicate Taken(bits: seq<bool>, n: nat, bits': seq<bool>, sectors: seq<nat>) {
    && |bits'| == |bits| && |sectors| == n
    && (forall k :: 0 <= k < n ==> sectors[k] < |bits| && !bits[sectors[k]])
    && (forall k, l :: 0 <= k < l < n ==> sectors[k] != sectors[l])
    && (forall x :: 0 <= x < |bits| ==> (bits'[x] <==> bits[x] || x in sectors))
    && NumClear(bits') == NumClear(bits) - n
  }

  lemma TakenOneMore(bits: seq<bool>, s: nat, n: nat, bits': seq<bool>, rest: seq<nat>)
    requires s < |bits| && !bits[s] && Taken(bits[s := true], n, bits', rest)
    ensures Taken(bits, n + 1, bits', [s] + rest)
  {
    ClearOnes(bits, s);
    var sectors := [s] + rest;
    forall k | 0 <= k < n + 1
      ensures sectors[k] < |bits| && !bits[sectors[k]] && (k > 0 ==> sectors[k] != s)
    {
      if k > 0 {
        assert sectors[k] == rest[k - 1] && !bits[s := true][rest[k - 1]];
      }
    }
    forall x | 0 <= x < |bits|
      ensures bits'[x] <==> bits[x] || x in sectors
    {
      assert x in sectors <==> x == s || x in rest;
    }
  }

  lemma {:induction false} TakeExact(bits: seq<bool>, n: nat)
    requires n <= NumClear(bits)
    ensures Taken(bits, n, Take(bits, n).0, Take(bits, n).1)
    decreases n
  {
    if n > 0 {
      SomeClear(bits);
      var s := FirstClear(bits);
      ClearOnes(bits, s);
      TakeExact(bits[s := true], n - 1);
      var rest := Take(bits[s := true], n - 1);
      TakenOneMore(bits, s, n - 1, rest.0, rest.1);
    }
  }

  // The outcome of a request of which some sectors are already taken, and the
  // free sectors beyond the rest of the request.
  function Outcome(bits: seq<bool>, done: seq<nat>, left: nat): (seq<bool>, seq<nat>) {
    (Take(bits, left).0, done + Take(bits, left).1)
  }

  function Spare(bits: seq<bool>, left: nat): int {
    NumClear(bits) - left
  }

  lemma TakeNext(bits: seq<bool>, done: seq<nat>, left: nat) returns (bits': seq<bool>, done': seq<nat>)
    requires Spare(bits, left) >= 0 && left > 0
    ensures FirstClear(bits) < |bits| && bits' == bits[FirstClear(bits) := true] && done' == done + [FirstClear(bits)]
    ensures Outcome(bits', done', left - 1) == Outcome(bits, done, left) && Spare(bits', left - 1) >= 0
  {
    SomeClear(bits);
    var s := FirstClear(bits);
    bits', done' := bits[s := true], done + [s];
    ClearOnes(bits, s);
    assert done + ([s] + Take(bits[s := true], left - 1).1) == (done + [s]) + Take(bits[s := true], left - 1).1;
  }

  lemma TakeAll(bits: seq<bool>, n: nat)
    requires Spare(bits, n) >= 0
    ensures Outcome(bits, [], n) == Take(bits, n) && |Take(bits, n).1| == n
  {
    TakeExact(bits, n);
    assert [] + Take(bits, n).1 == Take(bits, n).1;
  }

  lemma AllocateCases(bits: seq<bool>, size: nat)
    ensures NumClear(bits) < SectorsFor(size) ==> FsModel.Allocate(bits, size) == None
    ensures NumClear(bits) >= SectorsFor(size) ==> FsModel.Allocate(bits, size) == Some(Take(bits, SectorsFor(size)))
    ensures NumClear(bits) >= SectorsFor(size) ==> |Take(bits, SectorsFor(size)).1| == SectorsFor(size)
  {
    if NumClear(bits) >= SectorsFor(size) {
      TakeAll(bits, SectorsFor(size));
    }
  }

  lemma TakeNone(bits: seq<bool>, done: seq<nat>)
    ensures Outcome(bits, done, 0) == (bits, done)
  {
    assert done + [] == done;
  }

  lemma {:induction false} GiveExact(bits: seq<bool>, sectors: seq<nat>)
    ensures forall x :: 0 <= x < |bits| ==> (Give(bits, sectors)[x] <==> bits[x] && x !in sectors)
    decreases |sectors|
  {
    if sectors != [] {
      GiveExact(if sectors[0] < |bits| then bits[sectors[0] := false] else bits, sectors[1..]);
      assert sectors == [sectors[0]] + sectors[1..];
    }
  }

  lemma {:induction false} GiveMore(bits: seq<bool>, sectors: seq<nat>, x: nat)
    requires x < |bits|
    ensures Give(bits, sectors + [x]) == Give(bits, sectors)[x := false]
    decreases |sectors|
  {
    if sectors == [] {
      assert Give(bits[x := false], []) == bits[x := false];
    } else {
      assert (sectors + [x])[1..] == sectors[1..] + [x];
      GiveMore(if sectors[0] < |bits| then bits[sectors[0] := false] else bits, sectors[1..], x);
    }
  }

  // -------------------------------------------------------------------- Create

  // What a successful Create has chosen.
  ghost predicate Chosen(v: Volume, name: Bytes, size: nat, k: nat, e: Extent) {
    && k < |v.slots| && v.slots[k].None?
    && e.length == size && |e.sectors| == SectorsFor(size) && e.at < |v.bits| && !v.bits[e.at]
    && (forall i :: 0 <= i < |e.sectors| ==> e.sectors[i] < |v.bits| && !v.bits[e.sectors[i]] && e.sectors[i] != e.at)
    && (forall i, j :: 0 <= i < j < |e.sectors| ==> e.sectors[i] != e.sectors[j])
    && (forall i :: 0 <= i < |v.slots| && v.slots[i].Some? ==> v.slots[i].value.name != Short(name))
  }

  lemma CreateChooses(v: Volume, name: Bytes, size: nat) returns (k: nat, e: Extent)
    requires Created(v, name, size).Some?
    ensures Chosen(v, name, size, k, e)
    ensures var v' := Created(v, name, size).value;
      && v' == v.(bits := v'.bits, slots := v.slots[k := Some(File(Short(name), e))])
      && |v'.bits| == |v.bits|
      && (forall x: nat :: x < |v.bits| ==> (v'.bits[x] <==> v.bits[x] || Owns(e, x)))
      && NumClear(v'.bits) == NumClear(v.bits) - 1 - SectorsFor(size)
  {
    var at := FirstClear(v.bits);
    k := FreeSlot(v.slots);
    ClearOnes(v.bits, at);
    TakeExact(v.bits[at := true], SectorsFor(size));
    e := Extent(at, size, Take(v.bits[at := true], SectorsFor(size)).1);
  }

  // MAIN: Create succeeds exactly when no file has the name as far as the
  // directory keeps it, a directory entry is free, and the free sectors without
  // one for the header hold that many bytes.
  lemma CreateSucceedsIff(v: Volume, name: Bytes, size: nat)
    ensures Created(v, name, size).Some? <==>
      && (forall k :: 0 <= k < |v.slots| && v.slots[k].Some? ==> v.slots[k].value.name != Short(name))
      && (exists k :: 0 <= k < |v.slots| && v.slots[k].None?)
      && SECTOR_SIZE * (|Free(v.bits)| - 1) >= size
  {
    CountsFree(v.bits);
    SomeClear(v.bits);
    if FirstClear(v.bits) < |v.bits| {
      ClearOnes(v.bits, FirstClear(v.bits));
    }
    if FindName(v.slots, name) < |v.slots| {
      assert v.slots[FindName(v.slots, name)].value.name == Short(name);
    }
    if FreeSlot(v.slots) < |v.slots| {
      assert v.slots[FreeSlot(v.slots)].None?;
    }
  }

  lemma PlacedHolder(v: Volume, v': Volume, k: nat, name: Bytes, e: Extent, l: nat)
    requires k < |v.slots| && v' == v.(bits := v'.bits, slots := v.slots[k := Some(File(name, e))])
    ensures Holder(v', l) == if l == k + 2 then Some(e) else Holder(v, l)
  {
  }

  // MAIN: Create keeps the partition.
  lemma CreateKeeps(v: Volume, name: Bytes, size: nat)
    requires Layout(v) && size <= MAX_FILE_SIZE && Created(v, name, size).Some?
    ensures Layout(Created(v, name, size).value)
  {
    var v' := Created(v, name, size).value;
    var k, e := CreateChooses(v, name, size);
    forall l: nat
      ensures Holder(v', l) == if l == k + 2 then Some(e) else Holder(v, l)
    {
      PlacedHolder(v, v', k, Short(name), e, l);
    }
    assert Holder(v, k + 2) == None;
    assert Sound(e);
    NewIsDisjoint(v, v', k, e);
    NewIsMarked(v, v', k, e);
  }

  ghost predicate Placed(v: Volume, v': Volume, k: nat, e: Extent) {
    && Holder(v, k + 2).None? && |v'.bits| == |v.bits|
    && (forall l: nat :: Holder(v', l) == if l == k + 2 then Some(e) else Holder(v, l))
    && (forall x: nat :: Owns(e, x) ==> x < |v.bits| && !v.bits[x])
    && (forall x: nat :: x < |v.bits| ==> (v'.bits[x] <==> v.bits[x] || Owns(e, x)))
  }

  lemma NewIsDisjoint(v: Volume, v': Volume, k: nat, e: Extent)
    requires Fixed(v) && AllSound(v) && Disjoint(v) && Marked(v) && Placed(v, v', k, e)
    ensures Disjoint(v')
  {
    forall l: nat, m: nat, x: nat | OwnedBy(v', l, x) && OwnedBy(v', m, x)
      ensures l == m
    {
      if l != k + 2 {
        assert OwnedBy(v, l, x);
        assert x < |v.bits| by {
          assert Sound(Holder(v, l).value);
        }
      }
      if m != k + 2 {
        assert OwnedBy(v, m, x);
        assert x < |v.bits| by {
          assert Sound(Holder(v, m).value);
        }
      }
    }
  }

  lemma NewIsMarked(v: Volume, v': Volume, k: nat, e: Extent)
    requires Marked(v) && Placed(v, v', k, e)
    ensures Marked(v')
  {
    forall x: nat | x < |v'.bits|
      ensures v'.bits[x] <==> exists l: nat :: OwnedBy(v', l, x)
    {
      if Owns(e, x) {
        assert OwnedBy(v', k + 2, x);
      } else if l: nat :| OwnedBy(v, l, x) {
        assert OwnedBy(v', l, x);
      } else if l: nat :| OwnedBy(v', l, x) {
        assert OwnedBy(v, l, x);
        assert false;
      }
    }
  }

  // -------------------------------------------------------------------- Remove

  lemma ClearedHolder(v: Volume, k: nat, bits: seq<bool>, l: nat)
    requires k < |v.slots|
    ensures Holder(v.(bits := bits, slots := v.slots[k := None]), l) == if l == k + 2 then None else Holder(v, l)
  {
  }

  // MAIN: Remove keeps the partition: exactly the file's sectors become free.
  lemma RemoveKeeps(v: Volume, name: Bytes)
    requires Layout(v) && Removed(v, name).Some?
    ensures Layout(Removed(v, name).value)
  {
    var v' := Removed(v, name).value;
    var k := FindName(v.slots, name);
    var e := v.slots[k].value.extent;
    forall l: nat
      ensures Holder(v', l) == if l == k + 2 then None else Holder(v, l)
    {
      ClearedHolder(v, k, v'.bits, l);
    }
    GiveExact(v.bits, e.sectors + [e.at]);
    assert forall l: nat, x: nat :: OwnedBy(v', l, x) <==> l != k + 2 && OwnedBy(v, l, x);
    assert Holder(v, k + 2) == Some(e);
    forall x: nat | x < |v'.bits|
      ensures v'.bits[x] <==> exists l: nat :: OwnedBy(v', l, x)
    {
      if Owns(e, x) {
        assert OwnedBy(v, k + 2, x);
      } else if l: nat :| OwnedBy(v, l, x) {
        assert OwnedBy(v', l, x);
      }
    }
  }

  lemma FindsOnly(slots: seq<Option<File>>, name: Bytes, k: nat)
    requires k < |slots| && slots[k].Some? && slots[k].value.name == Short(name)
    requires forall i :: 0 <= i < |slots| && i != k && slots[i].Some? ==> slots[i].value.name != Short(name)
    ensures FindName(slots, name) == k
  {
  }

  lemma GivenBack(bits: seq<bool>, bits': seq<bool>, e: Extent)
    requires |bits'| == |bits|
    requires forall x: nat :: x < |bits| ==> (bits'[x] <==> bits[x] || Owns(e, x))
    requires e.at < |bits| && !bits[e.at]
    requires forall i :: 0 <= i < |e.sectors| ==> e.sectors[i] < |bits| && !bits[e.sectors[i]]
    ensures Give(bits', e.sectors + [e.at]) == bits
  {
    GiveExact(bits', e.sectors + [e.at]);
    forall x | 0 <= x < |bits|
      ensures Give(bits', e.sectors + [e.at])[x] == bits[x]
    {
      assert x in e.sectors + [e.at] <==> Owns(e, x);
    }
  }

  // MAIN: removing the file just created puts everything back, bitmap and
  // directory included.
  lemma CreateThenRemove(v: Volume, name: Bytes, size: nat)
    requires Created(v, name, size).Some?
    ensures Removed(Created(v, name, size).value, name) == Some(v)
  {
    var v' := Created(v, name, size).value;
    var k, e := CreateChooses(v, name, size);
    FindsOnly(v'.slots, name, k);
    GivenBack(v.bits, v'.bits, e);
    assert v'.slots[k := None] == v.slots;
  }

  // MAIN: Create takes from the free sectors exactly those of the new file, one
  // for the header and the least number that holds its bytes.
  lemma SectorsConserved(v: Volume, name: Bytes, size: nat) returns (k: nat, e: Extent)
    requires Created(v, name, size).Some?
    ensures var v' := Created(v, name, size).value;
      && k < |v.slots| && v.slots[k].None? && v'.slots == v.slots[k := Some(File(Short(name), e))]
      && e.length == size <= SECTOR_SIZE * |e.sectors| < size + SECTOR_SIZE
      && (forall x: nat :: Owns(e, x) ==> x in Free(v.bits))
      && Free(v'.bits) == (set x: nat | x in Free(v.bits) && !Owns(e, x))
      && |Free(v'.bits)| == |Free(v.bits)| - 1 - |e.sectors|
  {
    k, e := CreateChooses(v, name, size);
    CountsFree(v.bits);
    CountsFree(Created(v, name, size).value.bits);
  }

  // --------------------------------------------------------------------- format

  lemma {:induction false} AllClear(n: nat)
    ensures NumClear(seq(n, _ => false)) == n
    decreases n
  {
    if n > 0 {
      AllClear(n - 1);
      assert seq(n, _ => false)[..n - 1] == seq(n - 1, _ => false);
    }
  }

  // Marking the two header sectors and allocating the two files, on a bitmap
  // that was clear: there is room, and each gets sectors of its own.
  ghost predicate Allotted(bits: seq<bool>, mapFile: Extent, dirFile: Extent) {
    && |bits| == NUM_SECTORS
    && Sound(mapFile) && mapFile.at == MAP_SECTOR && mapFile.length == MAP_FILE_SIZE
    && Sound(dirFile) && dirFile.at == DIR_SECTOR && dirFile.length == DIR_FILE_SIZE
    && (forall x: nat :: !(Owns(mapFile, x) && Owns(dirFile, x)))
    && (forall x: nat :: x < NUM_SECTORS ==> (bits[x] <==> Owns(mapFile, x) || Owns(dirFile, x)))
  }

  lemma FormatAllots(bits: seq<bool>)
    requires bits == seq(NUM_SECTORS, _ => false)[MAP_SECTOR := true][DIR_SECTOR := true]
    ensures var forMap := Allocate(bits, MAP_FILE_SIZE);
      && forMap.Some?
      && var forDir := Allocate(forMap.value.0, DIR_FILE_SIZE);
      && forDir.Some?
      && Allotted(forDir.value.0, Extent(MAP_SECTOR, MAP_FILE_SIZE, forMap.value.1),
                  Extent(DIR_SECTOR, DIR_FILE_SIZE, forDir.value.1))
  {
    AllClear(NUM_SECTORS);
    ClearOnes(seq(NUM_SECTORS, _ => false), MAP_SECTOR);
    ClearOnes(seq(NUM_SECTORS, _ => false)[MAP_SECTOR := true], DIR_SECTOR);
    TakeExact(bits, 1);
    var (bits', first) := Take(bits, 1);
    TakeExact(bits', 2);
  }
}
