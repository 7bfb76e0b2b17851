// Demand paging with swap, as pure state transformers.  Every function here
// follows one routine of vm/mmu.cc, userprog/swap.cc, userprog/addrspace.* or
// machine/translate.cc; the classes in Paging.dfy are proved against them.
// None stands for a failed ASSERT, which stops the whole simulated machine.

module PagingModel {
  import opened Basics
  import opened MachineWords

  const PageSize := 128
  const NumPhysPages := 32
  const MemorySize := NumPhysPages * PageSize
  const UserStackSize := 1024

  type ThreadId = int

  datatype TranslationEntry = TranslationEntry(
    virtualPage: int, physicalPage: int, valid: bool, readOnly: bool, use: bool, dirty: bool)

  datatype Segment = Segment(virtualAddr: nat, inFileAddr: nat, size: nat)

  datatype NoffHeader = NoffHeader(code: Segment, initData: Segment, uninitData: Segment)

  // What exec hands to an address space: the executable file, its header, and
  // the room its arguments take.
  datatype Program = Program(file: seq<byte>, header: NoffHeader, argSize: nat)

  datatype Space = Space(
    program: Program, pageTable: seq<TranslationEntry>, swapMap: seq<bool>, swapFile: seq<byte>)

  datatype Vm = Vm(
    mem: seq<byte>, used: seq<bool>, owner: map<int, ThreadId>, lru: seq<int>, spaces: map<ThreadId, Space>)

  datatype Exception = AddressErrorException | PageFaultException | ReadOnlyException | BusErrorException

  // ---------------------------------------------------------------- sequences

  // The PageSize bytes of page or frame p in a flat array.
  function Slot(s: seq<byte>, p: nat): (r: seq<byte>)
    requires (p + 1) * PageSize <= |s|
    ensures |r| == PageSize
  {
    s[p * PageSize..(p + 1) * PageSize]
  }

  function PutSlot(s: seq<byte>, p: nat, data: seq<byte>): (r: seq<byte>)
    requires (p + 1) * PageSize <= |s| && |data| == PageSize
    ensures |r| == |s|
    ensures Slot(r, p) == data
    ensures forall q: nat :: q != p && (q + 1) * PageSize <= |s| ==> Slot(r, q) == Slot(s, q)
  {
    var r := Splice(s, p * PageSize, data);
    assert Slot(r, p) == data;
    assert forall q: nat :: q != p && (q + 1) * PageSize <= |s| ==> Slot(r, q) == Slot(s, q);
    r
  }

  // std::list::remove: drop every occurrence.
  function Without(s: seq<int>, x: int): (r: seq<int>)
    ensures forall y :: y in r <==> y in s && y != x
    ensures |r| <= |s|
  {
    if s == [] then [] else if s[0] == x then Without(s[1..], x) else [s[0]] + Without(s[1..], x)
  }

  // ----------------------------------------------------- executable and image

  function InSegment(seg: Segment, a: int): bool {
    seg.virtualAddr <= a < seg.virtualAddr + seg.size
  }

  // The initial contents of a virtual address: initialised data over code over zero.
  function ImageByte(prog: Program, a: nat): byte {
    if InSegment(prog.header.initData, a) then FileByte(prog.file, prog.header.initData, a)
    else if InSegment(prog.header.code, a) then FileByte(prog.file, prog.header.code, a)
    else 0
  }

  function FileByte(file: seq<byte>, seg: Segment, a: nat): byte
    requires InSegment(seg, a)
  {
    var k := seg.inFileAddr + a - seg.virtualAddr;
    if k < |file| then file[k] else 0
  }

  function ImagePage(prog: Program, page: nat): (r: seq<byte>)
    ensures |r| == PageSize
  {
    seq<byte>(PageSize, i requires 0 <= i < PageSize => ImageByte(prog, page * PageSize + i))
  }

  // The bytes OpenFile::ReadAt delivers: fewer than asked for at end of file.
  function ReadBytes(file: seq<byte>, count: nat, position: nat): (r: seq<byte>)
    ensures |r| <= count
    ensures |r| < count ==> position + |r| >= |file|
    ensures forall k :: 0 <= k < |r| ==> position + k < |file| && r[k] == file[position + k]
  {
    if position >= |file| then [] else if position + count <= |file| then file[position..position + count] else file[position..]
  }

  datatype Chunk = Chunk(pageStart: nat, segmentStart: nat, copySize: nat)

  predicate Overlaps(seg: Segment, page: nat) {
    seg.virtualAddr < (page + 1) * PageSize && seg.virtualAddr + seg.size > page * PageSize
  }

  // The offsets loadPageOnDemand computes for one segment of one page.
  function ChunkOf(seg: Segment, page: nat): (c: Chunk)
    requires Overlaps(seg, page)
    ensures c.pageStart + c.copySize <= PageSize
  {
    var pageStart := if seg.virtualAddr <= page * PageSize then 0 else seg.virtualAddr - page * PageSize;
    var segmentStart := if seg.virtualAddr <= page * PageSize then page * PageSize - seg.virtualAddr else 0;
    var whole := PageSize - pageStart;
    var copySize :=
      if seg.virtualAddr + seg.size < (page + 1) * PageSize
      then whole - ((page + 1) * PageSize - (seg.virtualAddr + seg.size)) else whole;
    Chunk(pageStart, segmentStart, copySize)
  }

  // One segment of loadPageOnDemand: copy its part of the page over buf, or
  // fail on a short read.
  function OverlaySegment(buf: seq<byte>, file: seq<byte>, seg: Segment, page: nat): (r: Option<seq<byte>>)
    requires |buf| == PageSize
    ensures r.Some? ==> |r.value| == PageSize
  {
    if !Overlaps(seg, page) then Some(buf) else
      var c := ChunkOf(seg, page);
      var got := ReadBytes(file, c.copySize, seg.inFileAddr + c.segmentStart);
      if |got| != c.copySize then None else Some(Splice(buf, c.pageStart, got))
  }

  function LoadPage(prog: Program, page: nat): (r: Option<seq<byte>>)
    ensures r.Some? ==> |r.value| == PageSize
  {
    var zeros: seq<byte> := seq(PageSize, _ => 0);
    var withCode := OverlaySegment(zeros, prog.file, prog.header.code, page);
    if withCode.None? then None
    else OverlaySegment(withCode.value, prog.file, prog.header.initData, page)
  }

  // The file holds every byte of the segment that the page needs.
  predicate SegmentInFile(file: seq<byte>, seg: Segment, page: nat) {
    forall a: nat :: page * PageSize <= a < (page + 1) * PageSize && InSegment(seg, a)
      ==> seg.inFileAddr + a - seg.virtualAddr < |file|
  }

  // ------------------------------------------------------------- swap, frames

  // AddrSpace::getPageNumber: the first valid page mapped to the frame, or -1.
  function PageOf(pageTable: seq<TranslationEntry>, frame: int): (p: int)
    ensures -1 <= p < |pageTable|
    ensures p >= 0 ==> pageTable[p].valid && pageTable[p].physicalPage == frame
    ensures p >= 0 ==> forall q :: 0 <= q < p ==> !(pageTable[q].valid && pageTable[q].physicalPage == frame)
    ensures p == -1 ==> forall q :: 0 <= q < |pageTable| ==> !(pageTable[q].valid && pageTable[q].physicalPage == frame)
  {
    if exists q :: 0 <= q < |pageTable| && pageTable[q].valid && pageTable[q].physicalPage == frame
    then PageOfFrom(pageTable, frame, 0) else -1
  }

  function PageOfFrom(pageTable: seq<TranslationEntry>, frame: int, from: nat): (p: nat)
    requires exists q :: from <= q < |pageTable| && pageTable[q].valid && pageTable[q].physicalPage == frame
    ensures from <= p < |pageTable| && pageTable[p].valid && pageTable[p].physicalPage == frame
    ensures forall q :: from <= q < p ==> !(pageTable[q].valid && pageTable[q].physicalPage == frame)
    decreases |pageTable| - from
  {
    if from < |pageTable| && pageTable[from].valid && pageTable[from].physicalPage == frame then from
    else PageOfFrom(pageTable, frame, from + 1)
  }

  predicate SpaceShape(sp: Space) {
    && |sp.swapMap| == |sp.pageTable|
    && |sp.swapFile| == |sp.pageTable| * PageSize
  }

  // Swap::swapOut on the owning space.
  function SwapOutSpace(sp: Space, page: nat, contents: seq<byte>): (r: Space)
    requires SpaceShape(sp) && page < |sp.pageTable| && |contents| == PageSize
    requires sp.pageTable[page].virtualPage == page
    ensures SpaceShape(r) && r.program == sp.program && |r.pageTable| == |sp.pageTable|
  {
    var entry := sp.pageTable[page];
    var swapFile := if entry.dirty || !sp.swapMap[page] then PutSlot(sp.swapFile, page, contents) else sp.swapFile;
    sp.(swapFile := swapFile,
        swapMap := sp.swapMap[page := true],
        pageTable := sp.pageTable[entry.virtualPage := entry.(valid := false, dirty := false, physicalPage := -1)])
  }

  predicate Shape(vm: Vm) {
    && |vm.mem| == MemorySize
    && |vm.used| == NumPhysPages
    && (forall t :: t in vm.spaces ==> SpaceShape(vm.spaces[t]))
    && (forall t, p :: t in vm.spaces && 0 <= p < |vm.spaces[t].pageTable| ==> vm.spaces[t].pageTable[p].virtualPage == p)
  }

  // Same address spaces with page tables of the same size, before and after.
  predicate SameSpaces(vm: Vm, vm': Vm) {
    && vm'.spaces.Keys == vm.spaces.Keys
    && forall t :: t in vm.spaces ==>
         && |vm'.spaces[t].pageTable| == |vm.spaces[t].pageTable|
         && vm'.spaces[t].program == vm.spaces[t].program
  }

  function SwapOut(vm: Vm, t: ThreadId, frame: nat): (r: Option<Vm>)
    requires Shape(vm) && t in vm.spaces && frame < NumPhysPages
    ensures r.Some? ==> Shape(r.value) && SameSpaces(vm, r.value)
  {
    var sp := vm.spaces[t];
    var page := PageOf(sp.pageTable, frame);
    if page == -1 then None
    else Some(vm.(used := vm.used[frame := true],
                  spaces := vm.spaces[t := SwapOutSpace(sp, page, Slot(vm.mem, frame))]))
  }

  // CoreMap::setUsed: move the frame to the back of the list.
  function Touch(lru: seq<int>, frame: int): seq<int> {
    Without(lru, frame) + [frame]
  }

  // The first frame from index `from` on that is not marked used, or |used|.
  function FirstFree(used: seq<bool>, from: nat): (j: nat)
    requires from <= |used|
    ensures from <= j <= |used|
    ensures forall k :: from <= k < j ==> used[k]
    ensures j < |used| ==> !used[j]
    decreases |used| - from
  {
    if from == |used| || !used[from] then from else FirstFree(used, from + 1)
  }

  // frameFreeIndex: a frame the faulting page may take, evicting if necessary.
  function FreeFrame(vm: Vm): (r: Option<(Vm, nat)>)
    requires Shape(vm)
    ensures r.Some? ==> r.value.1 < NumPhysPages && Shape(r.value.0) && SameSpaces(vm, r.value.0)
  {
    var j := FirstFree(vm.used, 0);
    if j < |vm.used| then Some((vm.(lru := Touch(vm.lru, j)), j))
    else if vm.lru == [] || !(0 <= vm.lru[0] < NumPhysPages) || vm.lru[0] !in vm.owner || vm.owner[vm.lru[0]] !in vm.spaces then None
    else
      var victim := vm.lru[0];
      var out := SwapOut(vm.(lru := Touch(vm.lru, victim)), vm.owner[victim], victim);
      if out.None? then None else Some((out.value, victim))
  }

  // PageFaultHandler for page `page` of thread t.
  function Fault(vm: Vm, t: ThreadId, page: nat): (r: Option<Vm>)
    requires Shape(vm) && t in vm.spaces && page < |vm.spaces[t].pageTable|
    ensures r.Some? ==> Shape(r.value) && SameSpaces(vm, r.value)
  {
    var entry := vm.spaces[t].pageTable[page];
    if entry.valid then Some(vm) else
      var free := FreeFrame(vm);
      if free.None? then None else
        var (vm1, frame) := free.value;
        var sp := vm1.spaces[t];
        var swapped := sp.swapMap[page];
        var contents := if swapped then Some(Slot(sp.swapFile, page)) else LoadPage(sp.program, page);
        if contents.None? then None else
          var entry' := entry.(valid := true, physicalPage := frame, dirty := if swapped then entry.dirty else true);
          Some(vm1.(mem := PutSlot(vm1.mem, frame, contents.value),
                    used := vm1.used[frame := true],
                    owner := vm1.owner[frame := t],
                    spaces := vm1.spaces[t := sp.(pageTable := sp.pageTable[page := entry'])]))
  }

  // -------------------------------------------------------------- translation

  type AccessSize = n: int | n == 1 || n == 2 || n == 4 witness 1

  datatype Translation = Physical(address: nat, pageTable: seq<TranslationEntry>) | Trap(exception: Exception)

  // The alignment test on the low bits of the address.
  predicate Misaligned(addr: nat, size: AccessSize) {
    (size == 4 && addr % 4 != 0) || (size == 2 && addr % 2 != 0)
  }

  lemma OffsetFits(addr: nat, size: AccessSize)
    requires !Misaligned(addr, size)
    ensures addr % PageSize + size <= PageSize
  {
    var k := addr / PageSize;
    assert addr % PageSize == addr - 128 * k;
    if size == 4 {
      assert addr == 4 * (addr / 4);
      assert addr % PageSize == 4 * (addr / 4 - 32 * k);
    } else if size == 2 {
      assert addr == 2 * (addr / 2);
      assert addr % PageSize == 2 * (addr / 2 - 64 * k);
    }
  }

  // Machine::Translate with a linear page table (no TLB).  The address is the
  // unsigned reading of virtAddr, as in the source.
  function Translate(pageTable: seq<TranslationEntry>, addr: nat, size: AccessSize, writing: bool): (r: Translation)
    ensures r.Physical? ==> r.address + size <= MemorySize
    ensures r.Physical? ==>
      && |r.pageTable| == |pageTable|
      && forall p :: 0 <= p < |pageTable| ==> r.pageTable[p].virtualPage == pageTable[p].virtualPage
  {
    var vpn := addr / PageSize;
    var offset := addr % PageSize;
    if Misaligned(addr, size) then Trap(AddressErrorException)
    else if vpn >= |pageTable| then Trap(AddressErrorException)
    else if !pageTable[vpn].valid then Trap(PageFaultException)
    else
      var entry := pageTable[vpn];
      if entry.readOnly && writing then Trap(ReadOnlyException)
      else if !(0 <= entry.physicalPage < NumPhysPages) then Trap(BusErrorException)
      else
        OffsetFits(addr, size);
        Physical(entry.physicalPage * PageSize + offset,
                 pageTable[vpn := entry.(use := true, dirty := entry.dirty || writing)])
  }

  // The value ReadMem returns for the bytes at an address: char is signed,
  // short is read unsigned, int is two's complement.
  function Decode(bytes: seq<byte>): int
    requires |bytes| == 1 || |bytes| == 2 || |bytes| == 4
  {
    if |bytes| == 1 then (if bytes[0] >= 128 then bytes[0] - 256 else bytes[0])
    else if |bytes| == 2 then FromLe(bytes)
    else S32(FromLe(bytes))
  }

  // The bytes WriteMem stores for a value.
  function Encode(value: int, size: AccessSize): (bytes: seq<byte>)
    ensures |bytes| == size
  {
    ToLe(value % Pow256(size), size)
  }

  // ReadMem / WriteMem: one attempt at an access.
  datatype Attempt = Done(vm: Vm, value: int) | Failed(exception: Exception)

  function ReadMem(vm: Vm, t: ThreadId, addr: nat, size: AccessSize): (r: Attempt)
    requires Shape(vm) && t in vm.spaces
    ensures r.Done? ==> Shape(r.vm) && SameSpaces(vm, r.vm)
  {
    var tr := Translate(vm.spaces[t].pageTable, addr, size, false);
    if tr.Trap? then Failed(tr.exception)
    else Done(vm.(spaces := vm.spaces[t := vm.spaces[t].(pageTable := tr.pageTable)]),
              Decode(vm.mem[tr.address..tr.address + size]))
  }

  function WriteMem(vm: Vm, t: ThreadId, addr: nat, size: AccessSize, value: int): (r: Attempt)
    requires Shape(vm) && t in vm.spaces
    ensures r.Done? ==> Shape(r.vm) && SameSpaces(vm, r.vm)
  {
    var tr := Translate(vm.spaces[t].pageTable, addr, size, true);
    if tr.Trap? then Failed(tr.exception)
    else Done(vm.(spaces := vm.spaces[t := vm.spaces[t].(pageTable := tr.pageTable)],
                  mem := Splice(vm.mem, tr.address, Encode(value, size))), 0)
  }

  // ------------------------------------------------------------- life of a space

  // The least number of pages that hold the segments, the stack and the
  // arguments with their count.
  function NumPages(prog: Program): (n: nat)
    ensures var room := prog.header.code.size + prog.header.initData.size + prog.header.uninitData.size
        + UserStackSize + prog.argSize + 4;
      room <= PageSize * n < room + PageSize
  {
    var size := prog.header.code.size + prog.header.initData.size + prog.header.uninitData.size
      + UserStackSize + prog.argSize + 4;
    size / PageSize + if size % PageSize > 0 then 1 else 0
  }

  // AddrSpace::Initialize and the swap file made for it.
  function NewSpace(prog: Program): (sp: Space)
    ensures SpaceShape(sp)
    ensures forall p :: 0 <= p < |sp.pageTable| ==> sp.pageTable[p].virtualPage == p
  {
    var n := NumPages(prog);
    Space(prog, seq(n, i => TranslationEntry(i, -1, false, false, false, false)),
          seq(n, _ => false), seq(n * PageSize, _ => 0))
  }

  // AddrSpace::~AddrSpace, pages i and up.
  function ReleaseFrames(pageTable: seq<TranslationEntry>, i: nat, used: seq<bool>, lru: seq<int>): (r: (seq<bool>, seq<int>))
    requires i <= |pageTable|
    ensures |r.0| == |used|
    decreases |pageTable| - i
  {
    if i == |pageTable| then (used, lru)
    else
      var f := pageTable[i].physicalPage;
      if pageTable[i].valid && 0 <= f < |used| then ReleaseFrames(pageTable, i + 1, used[f := false], Without(lru, f))
      else ReleaseFrames(pageTable, i + 1, used, lru)
  }

  function Release(vm: Vm, t: ThreadId): (r: Vm)
    requires t in vm.spaces
    ensures Shape(vm) ==> Shape(r)
  {
    var freed := ReleaseFrames(vm.spaces[t].pageTable, 0, vm.used, vm.lru);
    vm.(used := freed.0, lru := freed.1, spaces := vm.spaces - {t})
  }

  const Boot: Vm := Vm(seq(MemorySize, _ => 0), seq(NumPhysPages, _ => false),
                       map f | 0 <= f < NumPhysPages :: -1, [], map[])
}
