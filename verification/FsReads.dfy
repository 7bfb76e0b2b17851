// What the reads of a run return, told from the calls before them: the bytes of
// the last write there, and as many as the file was created with.

module FsReads {
  import opened Basics
  import opened MachineWords
  import opened FsModel
  import opened FsVolume
  import opened FsRuns

  // The call writes byte q of the file of this name, if the file has one.
  predicate Covers(op: Op, key: Bytes, q: nat) {
    op.Write? && Short(op.name) == key && op.pos <= q < op.pos + |op.data|
  }

  // The call makes or removes the file of this name.
  predicate Remakes(op: Op, key: Bytes) {
    (op.Create? || op.Remove?) && op.ok && Short(op.name) == key
  }

  ghost predicate Kept(ops: seq<Op>, i: nat, j: nat, key: Bytes)
    requires i <= j <= |ops|
  {
    forall k :: i <= k < j ==> !Remakes(ops[k], key)
  }

  lemma FlatKept(flat: Flat, op: Op, key: Bytes)
    requires key in flat && !Remakes(op, key)
    ensures key in FlatStep(flat, op) && |FlatStep(flat, op)[key]| == |flat[key]|
    ensures forall q: nat :: q < |flat[key]| && !Covers(op, key, q) ==> FlatStep(flat, op)[key][q] == flat[key][q]
  {
  }

  lemma FlatWritten(flat: Flat, op: Op, key: Bytes, q: nat)
    requires key in flat && Covers(op, key, q) && q < |flat[key]|
    ensures key in FlatStep(flat, op) && |FlatStep(flat, op)[key]| == |flat[key]|
    ensures FlatStep(flat, op)[key][q] == Some(op.data[q - op.pos])
  {
  }

  // From state i to state j the file keeps its length and a byte that nobody
  // writes.
  lemma {:induction false} FlatStays(flat: Flat, ops: seq<Op>, i: nat, j: nat, key: Bytes, q: nat)
    requires i <= j <= |ops| && key in FlatRun(flat, ops[..i]) && Kept(ops, i, j, key)
    ensures key in FlatRun(flat, ops[..j]) && |FlatRun(flat, ops[..j])[key]| == |FlatRun(flat, ops[..i])[key]|
    ensures q < |FlatRun(flat, ops[..i])[key]| && (forall k :: i <= k < j ==> !Covers(ops[k], key, q)) ==>
      FlatRun(flat, ops[..j])[key][q] == FlatRun(flat, ops[..i])[key][q]
    decreases j
  {
    if i < j {
      FlatStays(flat, ops, i, j - 1, key, q);
      FlatRunStep(flat, ops, j - 1);
      FlatKept(FlatRun(flat, ops[..j - 1]), ops[j - 1], key);
    }
  }

  predicate Holding(flat: Flat, key: Bytes, q: nat, b: byte) {
    key in flat && q < |flat[key]| && flat[key][q] == Some(b)
  }

  // A write puts its byte there, and until the next one it stays.
  lemma WrittenStays(flat: Flat, ops: seq<Op>, i: nat, j: nat, key: Bytes, q: nat, b: byte)
    requires i < j <= |ops| && key in FlatRun(flat, ops[..i]) && q < |FlatRun(flat, ops[..i])[key]|
    requires Covers(ops[i], key, q) && b == ops[i].data[q - ops[i].pos] && Kept(ops, i, j, key)
    requires forall k :: i < k < j ==> !Covers(ops[k], key, q)
    ensures Holding(FlatRun(flat, ops[..j]), key, q, b)
  {
    var before := FlatRun(flat, ops[..i]);
    FlatWritten(before, ops[i], key, q);
    var after := FlatStep(before, ops[i]);
    assert after[key][q] == Some(b);
    FlatRunStep(flat, ops, i);
    FlatStays(flat, ops, i + 1, j, key, q);
  }

  // What op returned is what the map says, and it moved byte q.
  predicate Moved(flat: Flat, op: Op, q: nat) {
    Expected(flat, op) && op.Write? && op.count.Some? && op.pos <= q < op.pos + op.count.value
  }

  lemma MovedByte(flat: Flat, op: Op, q: nat)
    requires Moved(flat, op, q)
    ensures op.count.value <= |op.data| && Covers(op, Short(op.name), q)
    ensures Short(op.name) in flat && q < |flat[Short(op.name)]|
  {
  }

  lemma ReadExpected(flat: Flat, op: Op, key: Bytes, q: nat, b: byte)
    requires Expected(flat, op) && op.Read? && key == Short(op.name) && Holding(flat, key, q, b)
    ensures op.got.Some? && (op.pos <= q < op.pos + |op.got.value| ==> op.got.value[q - op.pos] == b)
  {
    if op.got.Some? && op.pos <= q < op.pos + |op.got.value| {
      assert flat[key][op.pos..op.pos + |op.got.value|][q - op.pos] == Some(b);
    }
  }

  lemma FlatReads(flat: Flat, ops: seq<Op>, i: nat, j: nat, key: Bytes, q: nat)
    requires i < j < |ops| && Moved(FlatRun(flat, ops[..i]), ops[i], q) && Expected(FlatRun(flat, ops[..j]), ops[j])
    requires ops[j].Read? && Short(ops[i].name) == key == Short(ops[j].name) && Kept(ops, i, j, key)
    requires forall k :: i < k < j ==> !Covers(ops[k], key, q)
    ensures ops[i].count.value <= |ops[i].data| && ops[j].got.Some?
    ensures ops[j].pos <= q < ops[j].pos + |ops[j].got.value| ==>
      ops[j].got.value[q - ops[j].pos] == ops[i].data[q - ops[i].pos]
  {
    MovedByte(FlatRun(flat, ops[..i]), ops[i], q);
    WrittenStays(flat, ops, i, j, key, q, ops[i].data[q - ops[i].pos]);
    ReadExpected(FlatRun(flat, ops[..j]), ops[j], key, q, ops[i].data[q - ops[i].pos]);
  }

  // MAIN: a read returns at each byte what the last write there put, whatever
  // calls for other files, or for other bytes, come between.
  lemma ReadReturnsLastWrite(disks: seq<Disk>, ops: seq<Op>, flat: Flat, i: nat, j: nat, q: nat)
    requires IsRun(disks, ops) && Holds(disks[0], flat) && i < j < |ops| && ops[i].Write? && ops[j].Read?
    requires Short(ops[j].name) == Short(ops[i].name) && Kept(ops, i, j, Short(ops[i].name))
    requires ops[i].count.Some? && ops[i].pos <= q < ops[i].pos + ops[i].count.value
    requires forall k :: i < k < j ==> !Covers(ops[k], Short(ops[i].name), q)
    ensures ops[i].count.value <= |ops[i].data| && ops[j].got.Some?
    ensures ops[j].pos <= q < ops[j].pos + |ops[j].got.value| ==>
      ops[j].got.value[q - ops[j].pos] == ops[i].data[q - ops[i].pos]
  {
    RunAnswers(disks, ops, flat, i);
    RunAnswers(disks, ops, flat, j);
    FlatReads(flat, ops, i, j, Short(ops[i].name), q);
  }

  // The number of bytes that a request gets from a file of this length.
  predicate AsManyAsAreThere(n: nat, len: int, pos: nat, length: nat) {
    if len <= 0 || pos >= length then n == 0 else n <= len && pos + n <= length && (n == len || pos + n == length)
  }

  // MAIN: until it is removed, a file has the length it was created with: reads
  // and writes are cut off there, and only there.
  lemma LengthAsCreated(disks: seq<Disk>, ops: seq<Op>, flat: Flat, i: nat, j: nat)
    requires IsRun(disks, ops) && Holds(disks[0], flat) && i < j < |ops| && ops[i].Create? && ops[i].ok
    requires Short(ops[j].name) == Short(ops[i].name) && Kept(ops, i + 1, j, Short(ops[i].name))
    ensures ops[j].Read? ==>
      ops[j].got.Some? && AsManyAsAreThere(|ops[j].got.value|, ops[j].len, ops[j].pos, ops[i].size)
    ensures ops[j].Write? ==>
      ops[j].count.Some? && AsManyAsAreThere(ops[j].count.value, |ops[j].data|, ops[j].pos, ops[i].size)
    ensures ops[j].Create? ==> !ops[j].ok
    ensures ops[j].Remove? ==> ops[j].ok
  {
    FlatRunStep(flat, ops, i);
    FlatStays(flat, ops, i + 1, j, Short(ops[i].name), 0);
    RunAnswers(disks, ops, flat, j);
  }

  lemma {:induction false} FlatGone(flat: Flat, ops: seq<Op>, i: nat, j: nat, key: Bytes)
    requires i <= j <= |ops| && key !in FlatRun(flat, ops[..i]) && Kept(ops, i, j, key)
    ensures key !in FlatRun(flat, ops[..j])
    decreases j
  {
    if i < j {
      FlatGone(flat, ops, i, j - 1, key);
      FlatRunStep(flat, ops, j - 1);
    }
  }

  // MAIN: once removed, a file is gone until it is created again.
  lemma GoneOnceRemoved(disks: seq<Disk>, ops: seq<Op>, flat: Flat, i: nat, j: nat)
    requires IsRun(disks, ops) && Holds(disks[0], flat) && i < j < |ops| && ops[i].Remove? && ops[i].ok
    requires Short(ops[j].name) == Short(ops[i].name) && Kept(ops, i + 1, j, Short(ops[i].name))
    ensures ops[j].Read? ==> ops[j].got == None
    ensures ops[j].Write? ==> ops[j].count == None
    ensures ops[j].Remove? ==> !ops[j].ok
  {
    FlatRunStep(flat, ops, i);
    FlatGone(flat, ops, i + 1, j, Short(ops[i].name));
    RunAnswers(disks, ops, flat, j);
  }
}
