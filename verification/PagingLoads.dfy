// What the loads of a run return, told from the stores before them: the bytes of
// words, and the accesses on which the machine stops.

module PagingLoads {
  import opened Basics
  import opened MachineWords
  import opened PagingModel
  import opened PagingProofs
  import opened PagingRuns
  import opened PagingTheorems

  // -------------------------------------------------------------------- one load

  function Signed8(b: int): int {
    if b < 0x80 then b else b - 0x100
  }

  // The number a load makes of the bytes it finds: a char is signed, a short is
  // not, a word is two's complement, and the lowest address holds the low byte.
  function Number(b: seq<int>): int
    requires |b| == 1 || |b| == 2 || |b| == 4
  {
    if |b| == 1 then Signed8(b[0])
    else if |b| == 2 then b[0] + 0x100 * b[1]
    else b[0] + 0x100 * b[1] + 0x1_0000 * b[2] + 0x100_0000 * Signed8(b[3])
  }

  lemma DecodeIs(b: seq<byte>)
    requires |b| == 1 || |b| == 2 || |b| == 4
    ensures Decode(b) == Number(b)
  {
    if |b| == 2 {
      Low2(b, b[0], b[1]);
    } else if |b| == 4 {
      Low4(b, b[0], b[1], b[2], b[3]);
    }
  }

  lemma OneByte(v: int, b0: int)
    requires b0 == v % 0x100
    ensures -0x80 <= Signed8(b0) < 0x80 && (Signed8(b0) - v) % 0x100 == 0
  {
    assert b0 - v == 0x100 * -(v / 0x100);
    assert b0 - 0x100 - v == 0x100 * (-(v / 0x100) - 1);
  }

  lemma TwoBytes(v: int, b0: int, b1: int)
    requires b0 == v % 0x100 && b1 == v / 0x100 % 0x100
    ensures b0 + 0x100 * b1 == v % 0x1_0000
  {
    assert v == 0x1_0000 * (v / 0x100 / 0x100) + (b0 + 0x100 * b1);
  }

  lemma FourBytes(v: int, b0: int, b1: int, b2: int, b3: int, v1: int, v2: int, v3: int)
    requires v1 == v / 0x100 && v2 == v1 / 0x100 && v3 == v2 / 0x100
    requires b0 == v % 0x100 && b1 == v1 % 0x100 && b2 == v2 % 0x100 && b3 == v3 % 0x100
    ensures var r := b0 + 0x100 * b1 + 0x1_0000 * b2 + 0x100_0000 * Signed8(b3);
      -0x8000_0000 <= r < 0x8000_0000 && (r - v) % W32 == 0
  {
    var v4 := v3 / 0x100;
    var r := b0 + 0x100 * b1 + 0x1_0000 * b2 + 0x100_0000 * b3;
    assert r - v == W32 * -v4;
    assert b3 >= 0x80 ==> r - W32 - v == W32 * (-v4 - 1);
  }

  lemma ByteAbove(v: int, k: nat)
    ensures Byte(v, 0) == v % 0x100 && Byte(v, k + 1) == Byte(v / 0x100, k)
  {
  }

  predicate SameValue(r: int, v: int, size: AccessSize) {
    if size == 4 then -0x8000_0000 <= r < 0x8000_0000 && (r - v) % W32 == 0
    else if size == 2 then r == v % 0x1_0000
    else -0x80 <= r < 0x80 && (r - v) % 0x100 == 0
  }

  // Storing a value and reading those bytes back gives the value, as far as the
  // size goes.
  lemma NumberOfBytes(v: int, size: AccessSize, b: seq<int>)
    requires |b| == size && forall k :: 0 <= k < size ==> b[k] == Byte(v, k)
    ensures SameValue(Number(b), v, size)
  {
    var v1 := v / 0x100;
    var v2 := v1 / 0x100;
    var v3 := v2 / 0x100;
    ByteAbove(v, 0);
    ByteAbove(v1, 0);
    if size == 1 {
      OneByte(v, b[0]);
    } else if size == 2 {
      TwoBytes(v, b[0], b[1]);
    } else {
      ByteAbove(v, 1);
      ByteAbove(v, 2);
      ByteAbove(v1, 1);
      ByteAbove(v2, 0);
      ByteAbove(v3, 0);
      FourBytes(v, b[0], b[1], b[2], b[3], v1, v2, v3);
    }
  }

  // -------------------------------------------------------------------- in a run

  // A run is a run of its first events and one of the others.
  lemma {:induction false} FlatSplit(flat: Flat, evs: seq<Event>, i: nat)
    requires FlatShape(flat) && i <= |evs| && FlatRun(flat, evs).Some?
    ensures var first := FlatRun(flat, evs[..i]);
      && first.Some? && FlatShape(first.value.0)
      && var rest := FlatRun(first.value.0, evs[i..]);
      && rest.Some? && FlatRun(flat, evs).value.1 == first.value.1 + rest.value.1 && |first.value.1| == i
    decreases i
  {
    if i == 0 {
      assert evs[..0] == [] && evs[0..] == evs;
      assert [] + FlatRun(flat, evs).value.1 == FlatRun(flat, evs).value.1;
    } else {
      assert evs[..i][0] == evs[0] && evs[..i][1..] == evs[1..][..i - 1] && evs[1..][i - 1..] == evs[i..];
      FlatSplit(FlatStep(flat, evs[0]).value.0, evs[1..], i - 1);
    }
  }

  lemma {:induction false} StaysAlive(flat: Flat, evs: seq<Event>, t: ThreadId)
    requires FlatShape(flat) && t in flat && Exit(t) !in evs && FlatRun(flat, evs).Some?
    ensures var flat' := FlatRun(flat, evs).value.0; t in flat' && |flat'[t]| == |flat[t]|
    decreases |evs|
  {
    if evs != [] {
      assert evs[0] in evs;
      StaysAlive(FlatStep(flat, evs[0]).value.0, evs[1..], t);
    }
  }

  // The bytes last stored at a and up, or those that were there.
  ghost predicate LastStored(evs: seq<Event>, t: ThreadId, a: nat, initial: seq<byte>, b: seq<byte>) {
    && a + |b| <= |initial|
    && forall k :: 0 <= k < |b| ==> LastWritten(evs, t, a + k, initial[a + k], b[k])
  }

  lemma FlatFinds(flat: Flat, evs: seq<Event>, t: ThreadId, a: nat, b: seq<byte>)
    requires FlatShape(flat) && t in flat && Exit(t) !in evs && FlatRun(flat, evs).Some?
    requires t in FlatRun(flat, evs).value.0 && a + |b| <= |flat[t]|
    requires var m := FlatRun(flat, evs).value.0[t]; a + |b| <= |m| && b == m[a..a + |b|]
    ensures LastStored(evs, t, a, flat[t], b)
  {
    forall k | 0 <= k < |b|
      ensures LastWritten(evs, t, a + k, flat[t][a + k], b[k])
    {
      FlatKeepsLastWritten(flat, evs, t, a + k);
    }
  }

  lemma FlatLoadStep(flat: Flat, t: ThreadId, a: nat, size: AccessSize)
    requires FlatShape(flat) && t in flat && FlatStep(flat, Load(t, a, size)).Some?
    ensures a + size <= |flat[t]| && FlatStep(flat, Load(t, a, size)).value.1 == Number(flat[t][a..a + size])
  {
    FlatAccessIs(flat[t], a, size, None);
    DecodeIs(flat[t][a..a + size]);
  }

  lemma FlatLoad(flat: Flat, evs: seq<Event>, j: nat, t: ThreadId, a: nat, size: AccessSize) returns (b: seq<byte>)
    requires FlatShape(flat) && FlatRun(flat, evs).Some? && j < |evs| && evs[j] == Load(t, a, size)
    requires t in flat && Exit(t) !in evs[..j]
    ensures |b| == size && LastStored(evs[..j], t, a, flat[t], b)
    ensures j < |FlatRun(flat, evs).value.1| && FlatRun(flat, evs).value.1[j] == Number(b)
  {
    FlatSplit(flat, evs, j);
    StaysAlive(flat, evs[..j], t);
    var now := FlatRun(flat, evs[..j]).value.0;
    assert evs[j..][0] == evs[j];
    FlatLoadStep(now, t, a, size);
    b := now[t][a..a + size];
    FlatFinds(flat, evs[..j], t, a, b);
  }

  // MAIN: a load of a run returns the number made of the bytes last stored at
  // its addresses, by stores of whatever sizes, or of those that were there.
  lemma LoadReturns(vm: Vm, evs: seq<Event>, j: nat, t: ThreadId, a: nat, size: AccessSize) returns (b: seq<byte>)
    requires Inv(vm) && Run(vm, evs).Some? && j < |evs| && evs[j] == Load(t, a, size)
    requires t in vm.spaces && Exit(t) !in evs[..j]
    ensures |b| == size && LastStored(evs[..j], t, a, FlatSpace(vm, t), b)
    ensures j < |Run(vm, evs).value.1| && Run(vm, evs).value.1[j] == Number(b)
  {
    PagingInvisible(vm, evs);
    b := FlatLoad(FlatOf(vm), evs, j, t, a, size);
  }

  // ------------------------------------------------------------- after one store

  lemma {:induction false} RunSplit(vm: Vm, evs: seq<Event>, i: nat)
    requires Shape(vm) && i <= |evs| && Run(vm, evs).Some?
    ensures var first := Run(vm, evs[..i]);
      && first.Some? && Shape(first.value.0)
      && var rest := Run(first.value.0, evs[i..]);
      && rest.Some? && Run(vm, evs).value.1 == first.value.1 + rest.value.1 && |first.value.1| == i
    decreases i
  {
    if i == 0 {
      assert evs[..0] == [] && evs[0..] == evs;
      assert [] + Run(vm, evs).value.1 == Run(vm, evs).value.1;
    } else {
      assert evs[..i][0] == evs[0] && evs[..i][1..] == evs[1..][..i - 1] && evs[1..][i - 1..] == evs[i..];
      RunSplit(Step(vm, evs[0]).value.0, evs[1..], i - 1);
    }
  }

  // Event i stores v at a and is the last up to event j to store there.
  ghost predicate LastStore(evs: seq<Event>, i: nat, j: nat, t: ThreadId, a: nat, size: AccessSize, v: int) {
    && i < j < |evs| && evs[i] == Store(t, a, size, v)
    && (forall k, x: nat :: i < k < j && a <= x < a + size ==> !Covers(evs[k], t, x))
  }

  // And t is there from that event on.
  predicate AliveBetween(vm: Vm, evs: seq<Event>, i: nat, j: nat, t: ThreadId)
    requires Shape(vm) && i <= j <= |evs|
  {
    && Run(vm, evs[..i]).Some? && t in Run(vm, evs[..i]).value.0.spaces
    && Exit(t) !in evs[i..j]
  }

  lemma BytesOfLast(evs: seq<Event>, t: ThreadId, a: nat, size: AccessSize, v: int, initial: seq<byte>, at: nat, b: seq<byte>)
    requires evs != [] && evs[0] == Store(t, a, size, v) && LastStored(evs, t, at, initial, b)
    requires a <= at && at + |b| <= a + size
    requires forall k, x: nat :: 0 < k < |evs| && a <= x < a + size ==> !Covers(evs[k], t, x)
    ensures forall k :: 0 <= k < |b| ==> b[k] == Byte(v, at - a + k)
  {
    forall k | 0 <= k < |b|
      ensures b[k] == Byte(v, at - a + k)
    {
      var x: nat := at + k;
      assert LastWritten(evs, t, x, initial[x], b[k]);
      assert Covers(evs[0], t, x);
      assert forall l :: 0 < l < |evs| ==> !Covers(evs[l], t, x);
    }
  }

  lemma LoadInsideFirst(vm: Vm, evs: seq<Event>, j: nat, t: ThreadId, a: nat, size: AccessSize, v: int,
                        at: nat, part: AccessSize) returns (b: seq<byte>)
    requires Inv(vm) && Run(vm, evs).Some? && t in vm.spaces && LastStore(evs, 0, j, t, a, size, v) && Exit(t) !in evs[..j]
    requires evs[j] == Load(t, at, part) && a <= at && at + part <= a + size
    ensures |b| == part && forall k :: 0 <= k < part ==> b[k] == Byte(v, at - a + k)
    ensures j < |Run(vm, evs).value.1| && Run(vm, evs).value.1[j] == Number(b)
  {
    b := LoadReturns(vm, evs, j, t, at, part);
    BytesOfLast(evs[..j], t, a, size, v, FlatSpace(vm, t), at, b);
  }

  lemma LastStoreFrom(evs: seq<Event>, i: nat, j: nat, t: ThreadId, a: nat, size: AccessSize, v: int)
    requires LastStore(evs, i, j, t, a, size, v)
    ensures LastStore(evs[i..], 0, j - i, t, a, size, v)
    ensures evs[i..][..j - i] == evs[i..j] && evs[i..][j - i] == evs[j]
  {
    forall k, x: nat | 0 < k < j - i && a <= x < a + size
      ensures !Covers(evs[i..][k], t, x)
    {
      assert evs[i..][k] == evs[i + k];
    }
  }

  // MAIN: a load inside what the last store there wrote, of the same program
  // and with any events between, sees the bytes of that value, the low byte
  // first.
  lemma LoadInsideStore(vm: Vm, evs: seq<Event>, i: nat, j: nat, t: ThreadId, a: nat, size: AccessSize, v: int,
                        at: nat, part: AccessSize) returns (b: seq<byte>)
    requires Inv(vm) && Run(vm, evs).Some? && LastStore(evs, i, j, t, a, size, v) && AliveBetween(vm, evs, i, j, t)
    requires evs[j] == Load(t, at, part) && a <= at && at + part <= a + size
    ensures |b| == part && forall k :: 0 <= k < part ==> b[k] == Byte(v, at - a + k)
    ensures j < |Run(vm, evs).value.1| && Run(vm, evs).value.1[j] == Number(b)
  {
    RunSplit(vm, evs, i);
    PagingInvisible(vm, evs[..i]);
    LastStoreFrom(evs, i, j, t, a, size, v);
    b := LoadInsideFirst(Run(vm, evs[..i]).value.0, evs[i..], j - i, t, a, size, v, at, part);
  }

  // MAIN: a load of what a store of the same size wrote at the same address
  // returns the value: a word exactly, as a signed 32-bit number, a half word
  // modulo 65536, and of a byte the signed low byte.
  lemma LoadAfterStore(vm: Vm, evs: seq<Event>, i: nat, j: nat, t: ThreadId, a: nat, size: AccessSize, v: int)
    requires Inv(vm) && Run(vm, evs).Some? && LastStore(evs, i, j, t, a, size, v) && AliveBetween(vm, evs, i, j, t)
    requires evs[j] == Load(t, a, size)
    ensures j < |Run(vm, evs).value.1|
    ensures var r := Run(vm, evs).value.1[j];
      && (size == 4 ==> -0x8000_0000 <= r < 0x8000_0000 && (r - v) % 0x1_0000_0000 == 0)
      && (size == 4 && -0x8000_0000 <= v < 0x8000_0000 ==> r == v)
      && (size == 2 ==> r == v % 0x1_0000)
      && (size == 1 ==> -0x80 <= r < 0x80 && (r - v) % 0x100 == 0)
  {
    var b := LoadInsideStore(vm, evs, i, j, t, a, size, v, a, size);
    NumberOfBytes(v, size, b);
  }

  // MAIN: and a load of one byte k of it, the signed byte k of the value, the
  // low byte at the lowest address.
  lemma LoadByteOfStore(vm: Vm, evs: seq<Event>, i: nat, j: nat, t: ThreadId, a: nat, size: AccessSize, v: int, k: nat)
    requires Inv(vm) && Run(vm, evs).Some? && LastStore(evs, i, j, t, a, size, v) && AliveBetween(vm, evs, i, j, t)
    requires k < size && evs[j] == Load(t, a + k, 1)
    ensures j < |Run(vm, evs).value.1|
    ensures var r := Run(vm, evs).value.1[j];
      && -0x80 <= r < 0x80
      && (r - v / (if k == 0 then 1 else if k == 1 then 0x100 else if k == 2 then 0x1_0000 else 0x100_0000)) % 0x100 == 0
  {
    var b := LoadInsideStore(vm, evs, i, j, t, a, size, v, a + k, 1);
    assert b[0] == Byte(v, k);
    ByteByDivision(v, k);
  }

  lemma ByteByDivision(v: int, k: nat)
    requires k < 4
    ensures Byte(v, k) ==
      v / (if k == 0 then 1 else if k == 1 then 0x100 else if k == 2 then 0x1_0000 else 0x100_0000) % 0x100
  {
    var v1 := v / 0x100;
    var v2 := v1 / 0x100;
    assert v2 == v / 0x1_0000 && v2 / 0x100 == v / 0x100_0000;
    if k > 0 {
      ByteAbove(v, k - 1);
    }
    if k > 1 {
      ByteAbove(v1, k - 2);
    }
    if k > 2 {
      ByteAbove(v2, k - 3);
    }
    ByteAbove(v2 / 0x100, 0);
    ByteAbove(v2, 0);
    ByteAbove(v1, 0);
    ByteAbove(v, 0);
  }

  // ------------------------------------------------------------ where it stops

  // An access of a live program stops the machine exactly when its address is
  // not a multiple of its size, or beyond the program's memory.
  lemma StopsIff(flat: Flat, ev: Event)
    requires FlatShape(flat)
    ensures FlatStep(flat, ev).None? <==>
      (ev.Load? || ev.Store?) && ev.t in flat && (ev.addr % ev.size != 0 || ev.addr >= |flat[ev.t]|)
  {
  }

  ghost predicate StopsAt(vm: Vm, evs: seq<Event>, i: nat)
    requires Shape(vm)
  {
    && i < |evs| && (evs[i].Load? || evs[i].Store?) && Run(vm, evs[..i]).Some?
    && var now := Run(vm, evs[..i]).value.0;
    && evs[i].t in now.spaces
    && (evs[i].addr % evs[i].size != 0 || evs[i].addr >= |now.spaces[evs[i].t].pageTable| * PageSize)
  }

  lemma StopsNow(vm: Vm, evs: seq<Event>)
    requires Inv(vm) && AllLoadable(vm) && evs != [] && (evs[0].Exec? ==> Loadable(evs[0].program))
    ensures Step(vm, evs[0]).None? <==> StopsAt(vm, evs, 0)
    ensures Step(vm, evs[0]).Some? ==> Inv(Step(vm, evs[0]).value.0) && AllLoadable(Step(vm, evs[0]).value.0)
  {
    StepLoadable(vm, evs[0]);
    StopsIff(FlatOf(vm), evs[0]);
    assert evs[..0] == [];
  }

  lemma StopsLater(vm: Vm, evs: seq<Event>, i: nat)
    requires Shape(vm) && evs != [] && Step(vm, evs[0]).Some?
    ensures StopsAt(vm, evs, i + 1) <==> StopsAt(Step(vm, evs[0]).value.0, evs[1..], i)
  {
    if i < |evs| - 1 {
      assert evs[..i + 1][0] == evs[0] && evs[..i + 1][1..] == evs[1..][..i];
    }
  }

  // MAIN: with executables that hold their segments, a run of the paged machine
  // stops exactly when it comes to an access at an address that is not a
  // multiple of the size or lies beyond the pages of the program.
  lemma {:induction false} RunStopsIff(vm: Vm, evs: seq<Event>)
    requires Inv(vm) && AllLoadable(vm) && ExecsLoadable(evs)
    ensures Run(vm, evs).None? <==> exists i: nat :: StopsAt(vm, evs, i)
    decreases |evs|
  {
    if evs != [] {
      StopsNow(vm, evs);
      if Step(vm, evs[0]).Some? {
        RunStopsIff(Step(vm, evs[0]).value.0, evs[1..]);
        if i: nat :| StopsAt(vm, evs, i) {
          StopsLater(vm, evs, i - 1);
        }
        if i: nat :| StopsAt(Step(vm, evs[0]).value.0, evs[1..], i) {
          StopsLater(vm, evs, i);
        }
      }
    }
  }
}
