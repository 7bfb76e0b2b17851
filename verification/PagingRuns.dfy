// Whole runs: any interleaving of user loads, user stores, exec and exit, by
// any number of programs, against a machine with unlimited private memories.

module PagingRuns {
  import opened Basics
  import opened MachineWords
  import opened PagingModel
  import opened PagingProofs

  // ----------------------------------------------------------------- flat view

  lemma PagesFit(n: nat)
    ensures n * PageSize % PageSize == 0
  {
  }

  function FlatSpace(vm: Vm, t: ThreadId): (r: seq<byte>)
    requires Inv(vm) && t in vm.spaces
    ensures |r| == |vm.spaces[t].pageTable| * PageSize
    ensures |r| % PageSize == 0
  {
    PagesFit(|vm.spaces[t].pageTable|);
    seq<byte>(|vm.spaces[t].pageTable| * PageSize,
        a requires 0 <= a < |vm.spaces[t].pageTable| * PageSize => FlatByte(vm, t, a))
  }

  function FlatByte(vm: Vm, t: ThreadId, a: nat): byte
    requires Inv(vm) && t in vm.spaces && a < |vm.spaces[t].pageTable| * PageSize
  {
    assert PageOk(vm, t, a / PageSize);
    PageView(vm, t, a / PageSize)[a % PageSize]
  }

  type Flat = map<ThreadId, seq<byte>>

  function FlatOf(vm: Vm): Flat
    requires Inv(vm)
  {
    map t | t in vm.spaces :: FlatSpace(vm, t)
  }

  lemma SameViewsSameFlat(vm: Vm, vm': Vm)
    requires Inv(vm) && Inv(vm') && SameViews(vm, vm')
    ensures FlatOf(vm') == FlatOf(vm)
  {
    forall t | t in vm.spaces
      ensures FlatSpace(vm', t) == FlatSpace(vm, t)
    {
      forall a: nat | a < |vm.spaces[t].pageTable| * PageSize
        ensures FlatByte(vm', t, a) == FlatByte(vm, t, a)
      {
        assert PageOk(vm, t, a / PageSize) && PageOk(vm', t, a / PageSize);
      }
    }
  }

  // ------------------------------------------------------------ a user's access

  // A user load (value None) or store, restarted after a page fault as the
  // machine restarts the instruction.  None: the machine stopped.
  function Try(vm: Vm, t: ThreadId, addr: nat, size: AccessSize, value: Option<int>): (r: Attempt)
    requires Shape(vm) && t in vm.spaces
    ensures r.Done? ==> Shape(r.vm)
  {
    if value.Some? then WriteMem(vm, t, addr, size, value.value) else ReadMem(vm, t, addr, size)
  }

  function Access(vm: Vm, t: ThreadId, addr: nat, size: AccessSize, value: Option<int>): (r: Option<(Vm, int)>)
    requires Shape(vm) && t in vm.spaces
    ensures r.Some? ==> Shape(r.value.0)
  {
    var first := Try(vm, t, addr, size, value);
    if first.Done? then Some((first.vm, first.value))
    else if first.exception != PageFaultException then None
    else
      var faulted := Fault(vm, t, addr / PageSize);
      if faulted.None? then None else
        var second := Try(faulted.value, t, addr, size, value);
        if second.Done? then Some((second.vm, second.value)) else None
  }

  predicate InRange(addr: nat, size: AccessSize, length: nat) {
    !Misaligned(addr, size) && addr < length
  }

  // An aligned access stays inside its page, hence inside the address space.
  lemma InsidePages(a: nat, size: AccessSize, length: nat)
    requires !Misaligned(a, size) && a < length && length % PageSize == 0
    ensures a % PageSize + size <= PageSize && a + size <= length
  {
    OffsetFits(a, size);
    assert length == PageSize * (length / PageSize);
    assert a / PageSize < length / PageSize;
  }

  function FlatAccess(m: seq<byte>, addr: nat, size: AccessSize, value: Option<int>): Option<(seq<byte>, int)>
    requires |m| % PageSize == 0
  {
    var a := addr;
    if !InRange(addr, size, |m|) then None
    else
      InsidePages(a, size, |m|);
      if value.Some? then Some((Splice(m, a, Encode(value.value, size)), 0))
      else Some((m, Decode(m[a..a + size])))
  }

  // Bytes stored inside one frame.
  function Poke(mem: seq<byte>, frame: nat, offset: nat, data: seq<byte>): (r: seq<byte>)
    requires |mem| == MemorySize && frame < NumPhysPages && offset + |data| <= PageSize
    ensures |r| == |mem|
    ensures Slot(r, frame) == Splice(Slot(mem, frame), offset, data)
    ensures forall g: nat :: g != frame && g < NumPhysPages ==> Slot(r, g) == Slot(mem, g)
  {
    var r := Splice(mem, frame * PageSize + offset, data);
    assert Slot(r, frame) == Splice(Slot(mem, frame), offset, data);
    assert forall g: nat :: g != frame && g < NumPhysPages ==> Slot(r, g) == Slot(mem, g);
    r
  }

  function Stored(size: AccessSize, value: Option<int>): (data: seq<byte>)
    ensures |data| <= size
  {
    if value.Some? then Encode(value.value, size) else []
  }

  // The state after a successful attempt on page p.
  function Touched(vm: Vm, t: ThreadId, p: nat, offset: nat, data: seq<byte>, writing: bool): Vm
    requires Inv(vm) && t in vm.spaces && p < |vm.spaces[t].pageTable|
    requires vm.spaces[t].pageTable[p].valid && offset + |data| <= PageSize
  {
    assert PageOk(vm, t, p);
    var sp := vm.spaces[t];
    var e := sp.pageTable[p];
    vm.(mem := Poke(vm.mem, e.physicalPage, offset, data),
        spaces := vm.spaces[t := sp.(pageTable := sp.pageTable[p := e.(use := true, dirty := e.dirty || writing)])])
  }

  // Translation of an address on a page that is in memory.
  lemma TranslatePresent(pageTable: seq<TranslationEntry>, addr: nat, size: AccessSize, writing: bool)
    requires !Misaligned(addr, size) && addr < |pageTable| * PageSize
    requires var e := pageTable[addr / PageSize]; e.valid && !e.readOnly && 0 <= e.physicalPage < NumPhysPages
    ensures addr % PageSize + size <= PageSize
    ensures var e := pageTable[addr / PageSize];
      Translate(pageTable, addr, size, writing) ==
        Physical(e.physicalPage * PageSize + addr % PageSize,
                 pageTable[addr / PageSize := e.(use := true, dirty := e.dirty || writing)])
  {
    OffsetFits(addr, size);
  }

  lemma SlotRange(mem: seq<byte>, f: nat, offset: nat, size: nat)
    requires |mem| == MemorySize && f < NumPhysPages && offset + size <= PageSize
    ensures mem[f * PageSize + offset..f * PageSize + offset + size] == Slot(mem, f)[offset..offset + size]
    ensures Poke(mem, f, offset, []) == mem
  {
    var at := f * PageSize + offset;
    var l, r := mem[at..at + size], Slot(mem, f)[offset..offset + size];
    assert |l| == |r| && forall k :: 0 <= k < size ==> l[k] == r[k];
  }

  lemma PokeNothing(mem: seq<byte>, frame: nat, offset: nat)
    requires |mem| == MemorySize && frame < NumPhysPages && offset <= PageSize
    ensures Poke(mem, frame, offset, []) == mem
  {
  }

  lemma ReadTouches(vm: Vm, t: ThreadId, addr: nat, size: AccessSize, p: nat, offset: nat)
    requires Inv(vm) && t in vm.spaces && p == addr / PageSize && offset == addr % PageSize
    requires InRange(addr, size, |vm.spaces[t].pageTable| * PageSize) && vm.spaces[t].pageTable[p].valid
    ensures PageOk(vm, t, p) && offset + size <= PageSize
    ensures ReadMem(vm, t, addr, size) ==
      Done(Touched(vm, t, p, offset, [], false), Decode(PageView(vm, t, p)[offset..offset + size]))
  {
    assert PageOk(vm, t, p);
    TranslatePresent(vm.spaces[t].pageTable, addr, size, false);
    SlotRange(vm.mem, vm.spaces[t].pageTable[p].physicalPage, offset, size);
    PokeNothing(vm.mem, vm.spaces[t].pageTable[p].physicalPage, offset);
  }

  lemma WriteTouches(vm: Vm, t: ThreadId, addr: nat, size: AccessSize, v: int, p: nat, offset: nat)
    requires Inv(vm) && t in vm.spaces && p == addr / PageSize && offset == addr % PageSize
    requires InRange(addr, size, |vm.spaces[t].pageTable| * PageSize) && vm.spaces[t].pageTable[p].valid
    ensures offset + size <= PageSize
    ensures WriteMem(vm, t, addr, size, v) == Done(Touched(vm, t, p, offset, Encode(v, size), true), 0)
  {
    assert PageOk(vm, t, p);
    TranslatePresent(vm.spaces[t].pageTable, addr, size, true);
  }

  lemma TryTouches(vm: Vm, t: ThreadId, addr: nat, size: AccessSize, value: Option<int>)
    requires Inv(vm) && t in vm.spaces
    requires InRange(addr, size, |vm.spaces[t].pageTable| * PageSize)
    requires vm.spaces[t].pageTable[addr / PageSize].valid
    ensures PageOk(vm, t, addr / PageSize) && addr % PageSize + size <= PageSize
    ensures Try(vm, t, addr, size, value) ==
      Done(Touched(vm, t, addr / PageSize, addr % PageSize, Stored(size, value), value.Some?),
           if value.Some? then 0
           else Decode(PageView(vm, t, addr / PageSize)[addr % PageSize..addr % PageSize + size]))
  {
    assert PageOk(vm, t, addr / PageSize);
    if value.None? {
      ReadTouches(vm, t, addr, size, addr / PageSize, addr % PageSize);
    } else {
      WriteTouches(vm, t, addr, size, value.value, addr / PageSize, addr % PageSize);
    }
  }

  // One page across an access to page p of space t.
  lemma TouchedPage(vm: Vm, t: ThreadId, p: nat, offset: nat, data: seq<byte>, writing: bool, u: ThreadId, q: nat)
    requires Inv(vm) && t in vm.spaces && p < |vm.spaces[t].pageTable|
    requires vm.spaces[t].pageTable[p].valid && offset + |data| <= PageSize && (data != [] ==> writing)
    requires u in vm.spaces && q < |vm.spaces[u].pageTable|
    ensures var vm' := Touched(vm, t, p, offset, data, writing);
      && PageOk(vm, u, q) && PageOk(vm', u, q)
      && PageView(vm', u, q) ==
           if u == t && q == p then Splice(PageView(vm, t, p), offset, data) else PageView(vm, u, q)
  {
    assert PageOk(vm, t, p) && PageOk(vm, u, q);
    var f := vm.spaces[t].pageTable[p].physicalPage;
    FrameOwnership(vm, f);
    assert Maps(vm.spaces[t].pageTable[p], f);
    assert Maps(vm.spaces[u].pageTable[q], f) ==> u == t && q == p;
    assert data == [] ==> Splice(Slot(vm.mem, f), offset, data) == Slot(vm.mem, f);
  }

  // vm' is vm with the bytes at one place of one page of one program replaced.
  predicate Stores(vm: Vm, vm': Vm, t: ThreadId, p: nat, offset: nat, data: seq<byte>) {
    && Inv(vm) && Inv(vm') && SameSpaces(vm, vm')
    && t in vm.spaces && p < |vm.spaces[t].pageTable| && offset + |data| <= PageSize
    && forall u, q: nat :: u in vm.spaces && q < |vm.spaces[u].pageTable| ==>
         && PageOk(vm, u, q) && PageOk(vm', u, q)
         && PageView(vm', u, q) ==
              if u == t && q == p then Splice(PageView(vm, u, q), offset, data) else PageView(vm, u, q)
  }

  lemma TouchedStores(vm: Vm, t: ThreadId, p: nat, offset: nat, data: seq<byte>, writing: bool)
    requires Inv(vm) && t in vm.spaces && p < |vm.spaces[t].pageTable|
    requires vm.spaces[t].pageTable[p].valid && offset + |data| <= PageSize && (data != [] ==> writing)
    ensures Stores(vm, Touched(vm, t, p, offset, data, writing), t, p, offset, data)
  {
    var vm' := Touched(vm, t, p, offset, data, writing);
    forall u, q: nat | u in vm'.spaces && q < |vm'.spaces[u].pageTable|
      ensures PageOk(vm, u, q) && PageOk(vm', u, q)
      ensures PageView(vm', u, q) ==
        if u == t && q == p then Splice(PageView(vm, u, q), offset, data) else PageView(vm, u, q)
    {
      TouchedPage(vm, t, p, offset, data, writing, u, q);
    }
    forall g | 0 <= g < NumPhysPages && vm'.used[g]
      ensures vm'.owner[g] in vm'.spaces && PageOf(vm'.spaces[vm'.owner[g]].pageTable, g) != -1
    {
      var q := PageOf(vm.spaces[vm.owner[g]].pageTable, g);
      assert Maps(vm'.spaces[vm.owner[g]].pageTable[q], g);
    }
  }

  lemma StoresFlat(vm: Vm, vm': Vm, t: ThreadId, p: nat, offset: nat, data: seq<byte>)
    requires Stores(vm, vm', t, p, offset, data)
    ensures FlatOf(vm') == FlatOf(vm)[t := Splice(FlatSpace(vm, t), p * PageSize + offset, data)]
  {
    forall u | u in vm.spaces
      ensures FlatSpace(vm', u) ==
        if u == t then Splice(FlatSpace(vm, t), p * PageSize + offset, data) else FlatSpace(vm, u)
    {
      StoresSpace(vm, vm', t, p, offset, data, u);
    }
    assert FlatOf(vm').Keys == FlatOf(vm).Keys;
  }

  lemma StoresSpace(vm: Vm, vm': Vm, t: ThreadId, p: nat, offset: nat, data: seq<byte>, u: ThreadId)
    requires Stores(vm, vm', t, p, offset, data) && u in vm.spaces
    ensures FlatSpace(vm', u) ==
      if u == t then Splice(FlatSpace(vm, t), p * PageSize + offset, data) else FlatSpace(vm, u)
  {
    var m, m' := FlatSpace(vm, u), FlatSpace(vm', u);
    forall b: nat | b < |m|
      ensures m'[b] == NewByte(m, u == t, p * PageSize + offset, data, b)
    {
      StoresSpaceByte(vm, vm', t, p, offset, data, u, b);
    }
    if u == t {
      SplicedIs(m, m', p * PageSize + offset, data);
    } else {
      assert m' == m;
    }
  }

  // Byte b of m, or of the data put at a place in it.
  function NewByte(m: seq<byte>, here: bool, at: nat, data: seq<byte>, b: nat): byte
    requires b < |m|
  {
    if here && at <= b < at + |data| then data[b - at] else m[b]
  }

  lemma StoresSpaceByte(vm: Vm, vm': Vm, t: ThreadId, p: nat, offset: nat, data: seq<byte>, u: ThreadId, b: nat)
    requires Stores(vm, vm', t, p, offset, data) && u in vm.spaces && b < |FlatSpace(vm, u)|
    ensures b < |FlatSpace(vm', u)| == |FlatSpace(vm, u)|
    ensures FlatSpace(vm', u)[b] == NewByte(FlatSpace(vm, u), u == t, p * PageSize + offset, data, b)
  {
    StoresByte(vm, vm', t, p, offset, data, u, b);
  }

  lemma SplicedIs(m: seq<byte>, m': seq<byte>, at: nat, data: seq<byte>)
    requires at + |data| <= |m| == |m'|
    requires forall b: nat :: b < |m| ==> m'[b] == NewByte(m, true, at, data, b)
    ensures m' == Splice(m, at, data)
  {
  }

  lemma StoresByte(vm: Vm, vm': Vm, t: ThreadId, p: nat, offset: nat, data: seq<byte>, u: ThreadId, b: nat)
    requires Stores(vm, vm', t, p, offset, data)
    requires u in vm.spaces && b < |vm.spaces[u].pageTable| * PageSize
    ensures FlatByte(vm', u, b) ==
      if u == t && p * PageSize + offset <= b < p * PageSize + offset + |data|
      then data[b - p * PageSize - offset] else FlatByte(vm, u, b)
  {
    assert PageOk(vm, u, b / PageSize);
    if b / PageSize == p {
      assert b % PageSize == b - p * PageSize;
    }
  }

  // The bytes a load sees are the bytes of the flat memory.
  lemma FlatRange(vm: Vm, t: ThreadId, p: nat, offset: nat, size: nat)
    requires Inv(vm) && t in vm.spaces && p < |vm.spaces[t].pageTable| && PageOk(vm, t, p)
    requires offset + size <= PageSize
    ensures FlatSpace(vm, t)[p * PageSize + offset..p * PageSize + offset + size] == PageView(vm, t, p)[offset..offset + size]
  {
    var at := p * PageSize + offset;
    forall b | at <= b < at + size
      ensures FlatSpace(vm, t)[b] == PageView(vm, t, p)[b - p * PageSize]
    {
      assert FlatSpace(vm, t)[b] == FlatByte(vm, t, b);
      assert b / PageSize == p && b % PageSize == b - p * PageSize;
    }
  }

  lemma FlatAccessIs(m: seq<byte>, addr: nat, size: AccessSize, value: Option<int>)
    requires |m| % PageSize == 0 && InRange(addr, size, |m|)
    ensures addr + size <= |m| && addr / PageSize * PageSize + addr % PageSize == addr
    ensures FlatAccess(m, addr, size, value) ==
      Some((Splice(m, addr, Stored(size, value)), if value.Some? then 0 else Decode(m[addr..addr + size])))
  {
    InsidePages(addr, size, |m|);
    assert Splice(m, addr, []) == m;
  }

  // vm' and out are what the flat machine gives for this access in vm.
  predicate Mirrors(vm: Vm, t: ThreadId, addr: nat, size: AccessSize, value: Option<int>, vm': Vm, out: int)
    requires Inv(vm) && t in vm.spaces
  {
    var flat := FlatAccess(FlatSpace(vm, t), addr, size, value);
    && flat.Some? && Inv(vm') && SameSpaces(vm, vm')
    && FlatOf(vm') == FlatOf(vm)[t := flat.value.0] && out == flat.value.1
  }

  lemma StoresMirrors(vm: Vm, vm': Vm, t: ThreadId, addr: nat, size: AccessSize, value: Option<int>)
    requires Stores(vm, vm', t, addr / PageSize, addr % PageSize, Stored(size, value))
    requires InRange(addr, size, |vm.spaces[t].pageTable| * PageSize)
    ensures PageOk(vm, t, addr / PageSize) && addr % PageSize + size <= PageSize
    ensures Mirrors(vm, t, addr, size, value, vm',
                    if value.Some? then 0 else Decode(PageView(vm, t, addr / PageSize)[addr % PageSize..addr % PageSize + size]))
  {
    OffsetFits(addr, size);
    StoresMirrorsAt(vm, vm', t, addr, size, value, addr / PageSize, addr % PageSize);
  }

  lemma StoresMirrorsAt(vm: Vm, vm': Vm, t: ThreadId, addr: nat, size: AccessSize, value: Option<int>, p: nat, offset: nat)
    requires Stores(vm, vm', t, p, offset, Stored(size, value)) && p * PageSize + offset == addr && offset + size <= PageSize
    requires InRange(addr, size, |vm.spaces[t].pageTable| * PageSize)
    ensures PageOk(vm, t, p)
    ensures Mirrors(vm, t, addr, size, value, vm',
                    if value.Some? then 0 else Decode(PageView(vm, t, p)[offset..offset + size]))
  {
    var m, data := FlatSpace(vm, t), Stored(size, value);
    FlatAccessIs(m, addr, size, value);
    FlatRange(vm, t, p, offset, size);
    assert m[addr..addr + size] == PageView(vm, t, p)[offset..offset + size];
    StoresFlat(vm, vm', t, p, offset, data);
    assert FlatOf(vm') == FlatOf(vm)[t := Splice(m, addr, data)];
  }

  // An access to a page in memory does exactly what the flat machine does.
  lemma TryPresent(vm: Vm, t: ThreadId, addr: nat, size: AccessSize, value: Option<int>)
    requires Inv(vm) && t in vm.spaces
    requires InRange(addr, size, |vm.spaces[t].pageTable| * PageSize)
    requires vm.spaces[t].pageTable[addr / PageSize].valid
    ensures var r := Try(vm, t, addr, size, value);
      r.Done? && Mirrors(vm, t, addr, size, value, r.vm, r.value)
  {
    TryTouches(vm, t, addr, size, value);
    TouchedStores(vm, t, addr / PageSize, addr % PageSize, Stored(size, value), value.Some?);
    StoresMirrors(vm, Try(vm, t, addr, size, value).vm, t, addr, size, value);
  }

  // A misaligned or out-of-range access stops the machine at once.
  lemma TryOutside(vm: Vm, t: ThreadId, addr: nat, size: AccessSize, value: Option<int>)
    requires Inv(vm) && t in vm.spaces
    ensures InRange(addr, size, |vm.spaces[t].pageTable| * PageSize) <==>
      Try(vm, t, addr, size, value) != Failed(AddressErrorException)
    ensures !InRange(addr, size, |vm.spaces[t].pageTable| * PageSize) ==>
      Access(vm, t, addr, size, value).None?
  {
  }

  // An access that had to fault first.
  lemma TryAfterFault(vm: Vm, t: ThreadId, addr: nat, size: AccessSize, value: Option<int>)
    requires Inv(vm) && t in vm.spaces
    requires InRange(addr, size, |vm.spaces[t].pageTable| * PageSize)
    requires Fault(vm, t, addr / PageSize).Some?
    ensures var r := Try(Fault(vm, t, addr / PageSize).value, t, addr, size, value);
      r.Done? && Mirrors(vm, t, addr, size, value, r.vm, r.value)
  {
    FaultOk(vm, t, addr / PageSize);
    var faulted := Fault(vm, t, addr / PageSize).value;
    SameViewsSameFlat(vm, faulted);
    assert FlatOf(faulted)[t] == FlatOf(vm)[t];
    TryPresent(faulted, t, addr, size, value);
  }

  // The restart after a fault, spelled out.
  lemma AccessCases(vm: Vm, t: ThreadId, addr: nat, size: AccessSize, value: Option<int>)
    requires Inv(vm) && t in vm.spaces
    requires InRange(addr, size, |vm.spaces[t].pageTable| * PageSize)
    requires PageOk(vm, t, addr / PageSize)
    ensures vm.spaces[t].pageTable[addr / PageSize].valid <==> Try(vm, t, addr, size, value).Done?
    ensures !vm.spaces[t].pageTable[addr / PageSize].valid ==>
      Try(vm, t, addr, size, value) == Failed(PageFaultException)
  {
    if vm.spaces[t].pageTable[addr / PageSize].valid {
      TryTouches(vm, t, addr, size, value);
    }
  }

  // Demand paging is invisible to one access, and the only access it fails
  // where the flat machine would not is one whose page cannot be loaded.
  lemma AccessOk(vm: Vm, t: ThreadId, addr: nat, size: AccessSize, value: Option<int>)
    requires Inv(vm) && t in vm.spaces
    ensures var r := Access(vm, t, addr, size, value);
      if InRange(addr, size, |vm.spaces[t].pageTable| * PageSize) then
        if r.Some? then Mirrors(vm, t, addr, size, value, r.value.0, r.value.1)
        else Fault(vm, t, addr / PageSize).None?
      else r.None?
  {
    if !InRange(addr, size, |vm.spaces[t].pageTable| * PageSize) {
      TryOutside(vm, t, addr, size, value);
    } else {
      assert PageOk(vm, t, addr / PageSize);
      AccessCases(vm, t, addr, size, value);
      if vm.spaces[t].pageTable[addr / PageSize].valid {
        TryPresent(vm, t, addr, size, value);
      } else if Fault(vm, t, addr / PageSize).Some? {
        TryAfterFault(vm, t, addr, size, value);
      }
    }
  }
}
