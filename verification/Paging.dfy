// The objects of demand paging and their methods, in the source's own form.
// Each method is proved against the state transformer of the same name in
// PagingModel.dfy; the theorems about runs are in PagingTheorems.dfy.

module Paging {
  import opened Basics
  import opened MachineWords
  import opened PagingModel
  import opened PagingProofs
  import opened PagingRuns
  import opened PagingTheorems

  function Max(x: nat, y: nat): nat {
    if x < y then y else x
  }

  function Min(x: nat, y: nat): nat {
    if x < y then x else y
  }

  // userprog/coremap.h
  class CoreMap {
    var usedFrames: seq<bool>
    var owner: map<int, ThreadId>
    var lru: seq<int>

    constructor ()
      ensures usedFrames == Boot.used && owner == Boot.owner && lru == []
    {
      usedFrames := seq(NumPhysPages, _ => false);
      lru := [];
      owner := map[];
      new;
      for i := 0 to NumPhysPages
        invariant usedFrames == Boot.used && lru == []
        invariant forall f :: f in owner <==> 0 <= f < i
        invariant forall f :: f in owner ==> owner[f] == -1
      {
        owner := owner[i := -1];
      }
    }

    // The frame is last, once, and the others keep their order.
    method SetUsed(frame: int)
      modifies this`lru
      ensures lru == Touch(old(lru), frame)
      ensures Distinct(old(lru)) ==>
        && Distinct(lru) && |lru| > 0 && lru[|lru| - 1] == frame
        && TakenOut(old(lru), frame, lru[..|lru| - 1])
    {
      if Distinct(lru) {
        WithoutTakesOut(lru, frame);
      }
      lru := Without(lru, frame);
      lru := lru + [frame];
    }

    // The frame is gone, and the others keep their order.
    method SetUnused(frame: int)
      modifies this`lru
      ensures lru == Without(old(lru), frame)
      ensures Distinct(old(lru)) ==> Distinct(lru) && TakenOut(old(lru), frame, lru)
    {
      if Distinct(lru) {
        WithoutTakesOut(lru, frame);
      }
      lru := Without(lru, frame);
    }
  }

  // userprog/swap.h: the map of pages that have been written out, and the
  // bytes of the swap file.
  class Swap {
    var swapMap: seq<bool>
    var swapFile: seq<byte>

    constructor (pageNum: nat)
      ensures swapMap == seq(pageNum, _ => false) && swapFile == seq(pageNum * PageSize, _ => 0)
    {
      swapMap := seq(pageNum, _ => false);
      swapFile := seq(pageNum * PageSize, _ => 0);
    }
  }

  // userprog/addrspace.h
  class AddrSpace {
    const program: Program
    const pageTable: array<TranslationEntry>
    const swap: Swap

    ghost function Model(): Space
      reads this, pageTable, swap
    {
      Space(program, pageTable[..], swap.swapMap, swap.swapFile)
    }

    // AddrSpace::Initialize
    constructor (prog: Program)
      ensures fresh(pageTable) && fresh(swap)
      ensures Model() == NewSpace(prog)
    {
      var n := NumPages(prog);
      var blank := TranslationEntry(0, -1, false, false, false, false);
      var table := new TranslationEntry[n](_ => blank);
      for i := 0 to n
        invariant forall k :: 0 <= k < i ==> table[k] == blank.(virtualPage := k)
      {
        table[i] := TranslationEntry(i, -1, false, false, false, false);
      }
      var file := new Swap(n);
      program := prog;
      pageTable := table;
      swap := file;
      new;
      assert pageTable[..] == NewSpace(prog).pageTable;
    }

    method SavePageTableEntry(entry: TranslationEntry, vpage: nat)
      requires vpage < pageTable.Length
      modifies pageTable
      ensures pageTable[..] == old(pageTable[..])[vpage := entry]
    {
      pageTable[vpage] := entry;
    }

    method SetValidity(vpage: nat, valid: bool)
      requires vpage < pageTable.Length
      modifies pageTable
      ensures pageTable[..] == old(pageTable[..])[vpage := old(pageTable[vpage]).(valid := valid)]
    {
      pageTable[vpage] := pageTable[vpage].(valid := valid);
    }

    method SetDirty(vpage: nat, dirty: bool)
      requires vpage < pageTable.Length
      modifies pageTable
      ensures pageTable[..] == old(pageTable[..])[vpage := old(pageTable[vpage]).(dirty := dirty)]
    {
      pageTable[vpage] := pageTable[vpage].(dirty := dirty);
    }

    method GetPageNumber(frame: int) returns (page: int)
      ensures page == PageOf(pageTable[..], frame)
    {
      for i := 0 to pageTable.Length
        invariant forall q :: 0 <= q < i ==> !(pageTable[q].valid && pageTable[q].physicalPage == frame)
      {
        if pageTable[i].physicalPage == frame && pageTable[i].valid {
          return i;
        }
      }
      return -1;
    }
  }

  // Bytes spliced into one frame of memory.
  lemma SpliceInSlot(mem: seq<byte>, frame: nat, offset: nat, data: seq<byte>)
    requires |mem| == MemorySize && frame < NumPhysPages && offset + |data| <= PageSize
    ensures Splice(mem, frame * PageSize + offset, data) == PutSlot(mem, frame, Splice(Slot(mem, frame), offset, data))
    ensures data == [] ==> Splice(mem, frame * PageSize + offset, data) == mem
    ensures data == [] ==> Splice(Slot(mem, frame), offset, data) == Slot(mem, frame)
  {
    var slot := Slot(mem, frame);
    var inner := Splice(slot, offset, data);
    var l := Splice(mem, frame * PageSize + offset, data);
    var r := Splice(mem, frame * PageSize, inner);
    forall k | 0 <= k < MemorySize
      ensures l[k] == r[k]
    {
      if frame * PageSize <= k < frame * PageSize + PageSize {
        assert r[k] == inner[k - frame * PageSize];
        assert slot[k - frame * PageSize] == mem[k];
      }
    }
    assert l == r == PutSlot(mem, frame, inner);
  }

  lemma PutSame(mem: seq<byte>, frame: nat)
    requires |mem| == MemorySize && frame < NumPhysPages
    ensures PutSlot(mem, frame, Slot(mem, frame)) == mem
  {
  }

  lemma OverlayIs(buf: seq<byte>, file: seq<byte>, seg: Segment, page: nat, c: Chunk, got: seq<byte>)
    requires |buf| == PageSize && Overlaps(seg, page) && c == ChunkOf(seg, page)
    requires got == ReadBytes(file, c.copySize, seg.inFileAddr + c.segmentStart)
    ensures c.pageStart + |got| <= PageSize
    ensures OverlaySegment(buf, file, seg, page) == if |got| == c.copySize then Some(Splice(buf, c.pageStart, got)) else None
  {
  }

  // frameFreeIndex followed by filling the frame is the whole fault.
  lemma FilledIsFault(vm: Vm, t: ThreadId, page: nat)
    requires Inv(vm) && t in vm.spaces && page < |vm.spaces[t].pageTable| && !vm.spaces[t].pageTable[page].valid
    ensures FreeFrame(vm).Some?
    ensures var (vm1, frame) := FreeFrame(vm).value;
      && vm1.spaces[t].pageTable[page] == vm.spaces[t].pageTable[page]
      && (Fault(vm, t, page).Some? <==> vm1.spaces[t].swapMap[page] || LoadPage(vm1.spaces[t].program, page).Some?)
      && (Fault(vm, t, page).Some? ==> forall vm' :: Filled(vm1, t, page, frame, vm') ==> vm' == Fault(vm, t, page).value)
  {
    FreeFrameOk(vm);
  }

  // The frame now holds a page of thread t.
  ghost function Claimed(vm: Vm, t: ThreadId, page: nat, frame: nat, contents: seq<byte>): Vm
    requires Shape(vm) && t in vm.spaces && page < |vm.spaces[t].pageTable| && frame < NumPhysPages && |contents| == PageSize
  {
    var sp := vm.spaces[t];
    vm.(mem := PutSlot(vm.mem, frame, contents),
        used := vm.used[frame := true],
        owner := vm.owner[frame := t],
        spaces := vm.spaces[t := sp.(pageTable := sp.pageTable[page := sp.pageTable[page].(valid := true, dirty := false)])])
  }

  lemma ClaimedSaved(vm: Vm, t: ThreadId, page: nat, frame: nat, contents: seq<byte>, entry: TranslationEntry)
    requires Shape(vm) && t in vm.spaces && page < |vm.spaces[t].pageTable| && frame < NumPhysPages && |contents| == PageSize
    ensures var vm2 := Claimed(vm, t, page, frame, contents);
      vm2.(spaces := vm2.spaces[t := vm2.spaces[t].(pageTable := vm2.spaces[t].pageTable[page := entry])]) ==
      vm.(mem := PutSlot(vm.mem, frame, contents), used := vm.used[frame := true], owner := vm.owner[frame := t],
          spaces := vm.spaces[t := vm.spaces[t].(pageTable := vm.spaces[t].pageTable[page := entry])])
  {
    var table := vm.spaces[t].pageTable;
    assert table[page := table[page].(valid := true, dirty := false)][page := entry] == table[page := entry];
  }

  lemma FaultInRange(vm: Vm, t: ThreadId, addr: nat, size: AccessSize, value: Option<int>)
    requires Inv(vm) && t in vm.spaces && Try(vm, t, addr, size, value) == Failed(PageFaultException)
    ensures InRange(addr, size, |vm.spaces[t].pageTable| * PageSize) && addr / PageSize < |vm.spaces[t].pageTable|
  {
  }

  // Where the restart loop stands: before the first attempt, or after a fault.
  ghost predicate AtAttempt(vm: Vm, now: Vm, t: ThreadId, addr: nat, size: AccessSize, value: Option<int>, restarted: bool)
    requires Inv(vm) && t in vm.spaces
  {
    if restarted then
      && Try(vm, t, addr, size, value) == Failed(PageFaultException)
      && addr / PageSize < |vm.spaces[t].pageTable|
      && Fault(vm, t, addr / PageSize) == Some(now)
      && Try(now, t, addr, size, value).Done?
    else now == vm
  }

  lemma AttemptIs(vm: Vm, now: Vm, t: ThreadId, addr: nat, size: AccessSize, value: Option<int>, restarted: bool)
    requires Inv(vm) && t in vm.spaces && AtAttempt(vm, now, t, addr, size, value, restarted)
    ensures Shape(now) && t in now.spaces
    ensures var r := Try(now, t, addr, size, value);
      match r
      case Done(vm', result) => Access(vm, t, addr, size, value) == Some((vm', result))
      case Failed(e) =>
        && !restarted
        && (e != PageFaultException ==> Access(vm, t, addr, size, value).None?)
        && (e == PageFaultException ==>
              && addr / PageSize < |vm.spaces[t].pageTable|
              && (Fault(vm, t, addr / PageSize).None? ==> Access(vm, t, addr, size, value).None?))
  {
    if Try(vm, t, addr, size, value) == Failed(PageFaultException) {
      FaultInRange(vm, t, addr, size, value);
    }
  }

  // The machine's memory and the kernel data that go with it.
  class Kernel {
    const mainMemory: array<byte>
    const coremap: CoreMap
    var spaces: map<ThreadId, AddrSpace>

    // Different threads have different objects.
    ghost predicate Separate()
      reads this, spaces.Values
    {
      forall t, u :: t in spaces && u in spaces && t != u ==>
        spaces[t] != spaces[u] && spaces[t].pageTable != spaces[u].pageTable && spaces[t].swap != spaces[u].swap
    }

    ghost function Tables(): set<object>
      reads this, spaces.Values
    {
      set s | s in spaces.Values :: s.pageTable
    }

    ghost function Swaps(): set<object>
      reads this, spaces.Values
    {
      set s | s in spaces.Values :: s.swap
    }

    ghost function Model(): Vm
      reads this, mainMemory, coremap, spaces.Values, Tables(), Swaps()
    {
      Vm(mainMemory[..], coremap.usedFrames, coremap.owner, coremap.lru, map t | t in spaces :: spaces[t].Model())
    }

    ghost predicate Valid()
      reads this, mainMemory, coremap, spaces.Values, Tables(), Swaps()
    {
      Separate() && Inv(Model())
    }

    constructor ()
      ensures Separate() && Model() == Boot
      ensures fresh(mainMemory) && fresh(coremap) && spaces == map[]
    {
      mainMemory := new byte[MemorySize](_ => 0);
      coremap := new CoreMap();
      spaces := map[];
      new;
      assert mainMemory[..] == Boot.mem;
    }

    // Work on one space leaves the others' model alone.
    twostate lemma OnlySpace(t: ThreadId)
      requires old(Separate()) && spaces == old(spaces) && t in spaces
      requires forall u :: u in spaces && u != t ==> unchanged(spaces[u].pageTable) && unchanged(spaces[u].swap)
      ensures Separate()
      ensures Model().spaces == old(Model()).spaces[t := spaces[t].Model()]
    {
      forall u | u in spaces && u != t
        ensures spaces[u].Model() == old(spaces[u].Model())
      {
        assert spaces[u].pageTable[..] == old(spaces[u].pageTable[..]);
      }
    }

    // Work on the coremap leaves every space's model alone.
    twostate lemma NoSpace()
      requires spaces == old(spaces)
      requires forall u :: u in spaces ==> unchanged(spaces[u].pageTable) && unchanged(spaces[u].swap)
      ensures Model().spaces == old(Model()).spaces
    {
      forall u | u in spaces
        ensures spaces[u].Model() == old(spaces[u].Model())
      {
        assert spaces[u].pageTable[..] == old(spaces[u].pageTable[..]);
      }
    }

    // Swap::swapOut, called on the swap of the frame's owner.
    method SwapOut(t: ThreadId, frame: nat) returns (ok: bool)
      requires Separate() && Shape(Model()) && t in spaces && frame < NumPhysPages
      modifies coremap, spaces[t].pageTable, spaces[t].swap
      ensures ok <==> PagingModel.SwapOut(old(Model()), t, frame).Some?
      ensures Separate()
      ensures ok ==> Model() == PagingModel.SwapOut(old(Model()), t, frame).value
    {
      var space := spaces[t];
      ghost var vm := Model();
      assert vm.spaces[t] == space.Model();
      var page := space.GetPageNumber(frame);
      if page == -1 {
        return false;
      }
      var entry := space.pageTable[page];
      if entry.dirty || !space.swap.swapMap[page] {
        var source := mainMemory[frame * PageSize..(frame + 1) * PageSize];
        assert source == Slot(vm.mem, frame);
        space.swap.swapFile := PutSlot(space.swap.swapFile, page, source);
      }
      entry := entry.(valid := false, dirty := false, physicalPage := -1);
      space.swap.swapMap := space.swap.swapMap[page := true];
      coremap.usedFrames := coremap.usedFrames[frame := true];
      space.SavePageTableEntry(entry, entry.virtualPage);
      OnlySpace(t);
      return true;
    }

    // OpenFile::ReadAt into main memory.
    method ReadAt(file: seq<byte>, at: nat, count: nat, position: nat) returns (n: nat)
      requires mainMemory.Length == MemorySize && at + count <= MemorySize
      modifies mainMemory
      ensures n == |ReadBytes(file, count, position)|
      ensures mainMemory[..] == Splice(old(mainMemory[..]), at, ReadBytes(file, count, position))
    {
      n := if position >= |file| then 0 else if position + count <= |file| then count else |file| - position;
      for i := 0 to n
        invariant forall k :: 0 <= k < MemorySize ==>
          mainMemory[k] == if at <= k < at + i then file[position + k - at] else old(mainMemory[k])
      {
        mainMemory[at + i] := file[position + i];
      }
    }

    // Reads bytes of the file into a frame; false when the file is too short.
    method LoadChunk(file: seq<byte>, c: Chunk, position: nat, frame: nat, ghost got: seq<byte>) returns (ok: bool)
      requires mainMemory.Length == MemorySize && frame < NumPhysPages && c.pageStart + c.copySize <= PageSize
      requires got == ReadBytes(file, c.copySize, position)
      modifies mainMemory
      ensures |got| <= c.copySize && ok == (|got| == c.copySize)
      ensures mainMemory[..] == PutSlot(old(mainMemory[..]), frame, Splice(Slot(old(mainMemory[..]), frame), c.pageStart, got))
    {
      var at := frame * PageSize + c.pageStart;
      ghost var after := PutSlot(mainMemory[..], frame, Splice(Slot(mainMemory[..], frame), c.pageStart, got));
      SpliceInSlot(mainMemory[..], frame, c.pageStart, got);
      var charsRead := ReadAt(file, at, c.copySize, position);
      assert mainMemory[..] == after;
      ok := charsRead == c.copySize;
    }

    // One segment's part of AddrSpace::loadPageOnDemand.
    method LoadSegment(file: seq<byte>, seg: Segment, page: nat, frame: nat) returns (ok: bool)
      requires mainMemory.Length == MemorySize && frame < NumPhysPages
      modifies mainMemory
      ensures var r := OverlaySegment(Slot(old(mainMemory[..]), frame), file, seg, page);
        && (ok <==> r.Some?)
        && (ok ==> mainMemory[..] == PutSlot(old(mainMemory[..]), frame, r.value))
    {
      if seg.virtualAddr < (page + 1) * PageSize && seg.virtualAddr + seg.size > page * PageSize {
        var c := SegmentChunk(seg, page);
        ghost var got := ReadBytes(file, c.copySize, seg.inFileAddr + c.segmentStart);
        OverlayIs(Slot(mainMemory[..], frame), file, seg, page, c, got);
        ok := LoadChunk(file, c, seg.inFileAddr + c.segmentStart, frame, got);
      } else {
        ok := true;
        PutSame(mainMemory[..], frame);
      }
    }

    // The offsets of a segment on a page, as loadPageOnDemand works them out: from
    // the later of the two beginnings to the earlier of the two ends.
    static method SegmentChunk(seg: Segment, page: nat) returns (c: Chunk)
      requires Overlaps(seg, page)
      ensures c == ChunkOf(seg, page)
      ensures Max(page * PageSize, seg.virtualAddr) == page * PageSize + c.pageStart == seg.virtualAddr + c.segmentStart
      ensures page * PageSize + c.pageStart + c.copySize == Min((page + 1) * PageSize, seg.virtualAddr + seg.size)
    {
      var pageSP, segmentSP;
      if seg.virtualAddr <= page * PageSize {
        pageSP, segmentSP := 0, page * PageSize - seg.virtualAddr;
      } else {
        pageSP, segmentSP := seg.virtualAddr - page * PageSize, 0;
      }
      var copySize := PageSize - pageSP;
      if seg.virtualAddr + seg.size < (page + 1) * PageSize {
        copySize := copySize - ((page + 1) * PageSize - (seg.virtualAddr + seg.size));
      }
      c := Chunk(pageSP, segmentSP, copySize);
    }

    // The memory part of AddrSpace::loadPageOnDemand: clear the frame, then copy
    // the code and data that fall on the page.
    method LoadBytes(prog: Program, page: nat, frame: nat) returns (ok: bool)
      requires mainMemory.Length == MemorySize && frame < NumPhysPages
      modifies mainMemory
      ensures ok <==> LoadPage(prog, page).Some?
      ensures ok ==> mainMemory[..] == PutSlot(old(mainMemory[..]), frame, LoadPage(prog, page).value)
    {
      ghost var was := mainMemory[..];
      ghost var zeros: seq<byte> := seq(PageSize, _ => 0);
      for i := 0 to PageSize
        invariant mainMemory[..] == Splice(was, frame * PageSize, zeros[..i])
      {
        mainMemory[PageSize * frame + i] := 0;
      }
      assert zeros[..PageSize] == zeros;
      assert mainMemory[..] == PutSlot(was, frame, zeros);
      ok := LoadSegment(prog.file, prog.header.code, page, frame);
      if ok {
        ghost var withCode := Slot(mainMemory[..], frame);
        assert mainMemory[..] == PutSlot(was, frame, withCode);
        ok := LoadSegment(prog.file, prog.header.initData, page, frame);
        assert ok ==> mainMemory[..] == PutSlot(was, frame, Slot(mainMemory[..], frame));
      }
    }

    // The bookkeeping both loadPageOnDemand and swapIn end with.
    method Claim(t: ThreadId, page: nat, frame: nat)
      requires Separate() && Shape(Model()) && t in spaces && page < spaces[t].pageTable.Length && frame < NumPhysPages
      modifies coremap, spaces[t].pageTable
      ensures Separate() && coremap.lru == old(coremap.lru)
      ensures coremap.usedFrames == old(coremap.usedFrames)[frame := true]
      ensures coremap.owner == old(coremap.owner)[frame := t]
      ensures Model().spaces == old(Model()).spaces[t := old(spaces[t].Model()).(pageTable :=
        old(spaces[t].pageTable[..])[page := old(spaces[t].pageTable[page]).(valid := true, dirty := false)])]
    {
      assert coremap.usedFrames == Model().used;
      coremap.usedFrames := coremap.usedFrames[frame := true];
      coremap.owner := coremap.owner[frame := t];
      spaces[t].SetValidity(page, true);
      spaces[t].SetDirty(page, false);
      assert spaces[t].pageTable[..] ==
        old(spaces[t].pageTable[..])[page := old(spaces[t].pageTable[page]).(valid := true, dirty := false)];
      OnlySpace(t);
    }

    // AddrSpace::loadPageOnDemand, run by thread t on its own space.
    method LoadPageOnDemand(t: ThreadId, page: nat, frame: nat) returns (ok: bool)
      requires Separate() && Shape(Model()) && t in spaces && page < spaces[t].pageTable.Length && frame < NumPhysPages
      modifies mainMemory, coremap, spaces[t].pageTable
      ensures ok <==> LoadPage(spaces[t].program, page).Some?
      ensures ok ==> Separate() && Model() == Claimed(old(Model()), t, page, frame, LoadPage(spaces[t].program, page).value)
    {
      ghost var vm := Model();
      assert vm.spaces[t] == spaces[t].Model();
      ok := LoadBytes(spaces[t].program, page, frame);
      if ok {
        ghost var mem := mainMemory[..];
        assert Model() == vm.(mem := mem);
        Claim(t, page, frame);
      }
    }

    // Swap::swapIn, called on the swap of thread t.
    method SwapIn(t: ThreadId, page: nat, frame: nat)
      requires Separate() && Shape(Model()) && t in spaces && page < spaces[t].pageTable.Length && frame < NumPhysPages
      modifies mainMemory, coremap, spaces[t].pageTable
      ensures Separate()
      ensures Model() == Claimed(old(Model()), t, page, frame, Slot(old(Model()).spaces[t].swapFile, page))
    {
      ghost var vm := Model();
      assert vm.spaces[t] == spaces[t].Model();
      var charsRead := ReadAt(spaces[t].swap.swapFile, frame * PageSize, PageSize, page * PageSize);
      assert mainMemory[..] == PutSlot(vm.mem, frame, Slot(vm.spaces[t].swapFile, page));
      ghost var mem := mainMemory[..];
      assert Model() == vm.(mem := mem);
      Claim(t, page, frame);
    }

    // Marks a frame as the one chosen last.
    method TouchFrame(j: nat)
      requires Separate()
      modifies coremap`lru
      ensures Separate() && Model() == old(Model()).(lru := Touch(old(Model()).lru, j))
    {
      ghost var vm := Model();
      coremap.SetUsed(j);
      NoSpace();
      assert Model() == vm.(lru := Touch(vm.lru, j));
    }

    // frameFreeIndex
    method FrameFreeIndex() returns (j: nat)
      requires Valid()
      modifies coremap, Tables(), Swaps()
      ensures FreeFrame(old(Model())).Some?
      ensures Separate() && (Model(), j) == FreeFrame(old(Model())).value
    {
      ghost var vm := Model();
      FreeFrameOk(vm);
      j := 0;
      while j < |coremap.usedFrames|
        invariant j <= |vm.used|
        invariant Model() == vm && Separate()
        invariant FirstFree(vm.used, 0) == FirstFree(vm.used, j)
      {
        if !coremap.usedFrames[j] {
          TouchFrame(j);
          return;
        }
        j := j + 1;
      }
      j := coremap.lru[0];
      TouchFrame(j);
      var frameOwner := coremap.owner[j];
      var swapped := SwapOut(frameOwner, j);
    }

    // The second half of PageFaultHandler: bring the page into the frame and
    // save its entry.  A false result is a failed ASSERT.
    method BringIn(t: ThreadId, page: nat, frame: nat, was: TranslationEntry) returns (ok: bool)
      requires Separate() && Shape(Model()) && t in spaces && page < spaces[t].pageTable.Length && frame < NumPhysPages
      requires was == spaces[t].pageTable[page]
      modifies mainMemory, coremap, spaces[t].pageTable
      ensures ok <==> old(Model()).spaces[t].swapMap[page] || LoadPage(spaces[t].program, page).Some?
      ensures ok ==> Separate() && Filled(old(Model()), t, page, frame, Model())
    {
      var space := spaces[t];
      var entry := was;
      ghost var vm := Model();
      assert vm.spaces[t] == space.Model();
      ghost var contents := if space.swap.swapMap[page] then Slot(space.swap.swapFile, page)
        else LoadPage(space.program, page).GetOr(Slot(vm.mem, frame));
      ok := true;
      if !space.swap.swapMap[page] {
        ok := LoadPageOnDemand(t, page, frame);
        entry := entry.(dirty := true);
        if !ok {
          return;
        }
      } else {
        SwapIn(t, page, frame);
      }
      entry := entry.(valid := true, physicalPage := frame);
      ghost var vm2 := Model();
      assert vm2.spaces[t] == space.Model();
      label saving:
      space.SavePageTableEntry(entry, page);
      OnlySpace@saving(t);
      ClaimedSaved(vm, t, page, frame, contents, entry);
    }

    // PageFaultHandler.  A false result is a failed ASSERT.
    method PageFaultHandler(t: ThreadId, page: nat) returns (ok: bool)
      requires Valid() && t in spaces && page < spaces[t].pageTable.Length
      modifies mainMemory, coremap, Tables(), Swaps()
      ensures ok <==> Fault(old(Model()), t, page).Some?
      ensures ok ==> Valid() && Model() == Fault(old(Model()), t, page).value
    {
      ghost var vm := Model();
      assert vm.spaces[t] == spaces[t].Model();
      var entry := spaces[t].pageTable[page];
      ok := true;
      if !entry.valid {
        FreeFrameOk(vm);
        var frame := FrameFreeIndex();
        ghost var vm1 := Model();
        assert vm1.spaces[t] == spaces[t].Model();
        ok := BringIn(t, page, frame, entry);
        FilledIsFault(vm, t, page);
        if ok {
          FaultOk(vm, t, page);
        }
      }
    }

    // Machine::Translate on the page table of thread t; None is NoException.
    method Translate(t: ThreadId, addr: nat, size: AccessSize, writing: bool) returns (exception: Option<Exception>, physAddr: nat)
      requires t in spaces
      modifies spaces[t].pageTable
      ensures var r := PagingModel.Translate(old(spaces[t].pageTable[..]), addr, size, writing);
        match exception
        case Some(e) => r == Trap(e) && spaces[t].pageTable[..] == old(spaces[t].pageTable[..])
        case None => r == Physical(physAddr, spaces[t].pageTable[..])
    {
      physAddr := 0;
      if (size == 4 && addr % 4 != 0) || (size == 2 && addr % 2 != 0) {
        return Some(AddressErrorException), 0;
      }
      var pageTable := spaces[t].pageTable;
      var vpn, offset := addr / PageSize, addr % PageSize;
      if vpn >= pageTable.Length {
        return Some(AddressErrorException), 0;
      } else if !pageTable[vpn].valid {
        return Some(PageFaultException), 0;
      }
      var entry := pageTable[vpn];
      if entry.readOnly && writing {
        return Some(ReadOnlyException), 0;
      }
      var pageFrame := entry.physicalPage;
      if !(0 <= pageFrame < NumPhysPages) {
        return Some(BusErrorException), 0;
      }
      pageTable[vpn] := pageTable[vpn].(use := true);
      if writing {
        pageTable[vpn] := pageTable[vpn].(dirty := true);
      }
      physAddr := pageFrame * PageSize + offset;
      exception := None;
      ghost var was := old(pageTable[..]);
      assert pageTable[..] == was[vpn := was[vpn].(use := true, dirty := was[vpn].dirty || writing)];
    }

    // Machine::ReadMem: a failed attempt raises its exception and changes nothing.
    method ReadMem(t: ThreadId, addr: nat, size: AccessSize) returns (exception: Option<Exception>, value: int)
      requires Separate() && Shape(Model()) && t in spaces
      modifies spaces[t].pageTable
      ensures Separate()
      ensures var r := PagingModel.ReadMem(old(Model()), t, addr, size);
        match exception
        case Some(e) => r == Failed(e) && Model() == old(Model())
        case None => r == Done(Model(), value)
    {
      assert Model().spaces[t] == spaces[t].Model();
      var physicalAddress;
      exception, physicalAddress := Translate(t, addr, size, false);
      OnlySpace(t);
      value := 0;
      if exception.None? {
        value := Decode(mainMemory[physicalAddress..physicalAddress + size]);
        assert mainMemory[physicalAddress..physicalAddress + size] == mainMemory[..][physicalAddress..physicalAddress + size];
      } else {
        assert spaces[t].Model() == old(spaces[t].Model());
        assert Model().spaces == old(Model()).spaces;
      }
    }

    // One store of a byte, a half word or a word.
    method StoreBytes(at: nat, bytes: seq<byte>)
      requires at + |bytes| <= mainMemory.Length
      modifies mainMemory
      ensures mainMemory[..] == Splice(old(mainMemory[..]), at, bytes)
    {
      forall i | 0 <= i < |bytes| {
        mainMemory[at + i] := bytes[i];
      }
    }

    // Machine::WriteMem
    method WriteMem(t: ThreadId, addr: nat, size: AccessSize, value: int) returns (exception: Option<Exception>)
      requires Separate() && Shape(Model()) && t in spaces
      modifies mainMemory, spaces[t].pageTable
      ensures Separate()
      ensures var r := PagingModel.WriteMem(old(Model()), t, addr, size, value);
        match exception
        case Some(e) => r == Failed(e) && Model() == old(Model())
        case None => r == Done(Model(), 0)
    {
      ghost var was := mainMemory[..];
      assert Model().spaces[t] == spaces[t].Model();
      var physicalAddress;
      exception, physicalAddress := Translate(t, addr, size, true);
      OnlySpace(t);
      if exception.None? {
        var bytes := Encode(value, size);
        StoreBytes(physicalAddress, bytes);
        OnlySpace(t);
      } else {
        assert spaces[t].Model() == old(spaces[t].Model());
        assert Model().spaces == old(Model()).spaces;
      }
    }

    method Attempt(t: ThreadId, addr: nat, size: AccessSize, value: Option<int>) returns (exception: Option<Exception>, result: int)
      requires Separate() && Shape(Model()) && t in spaces
      modifies mainMemory, spaces[t].pageTable
      ensures Separate()
      ensures var r := Try(old(Model()), t, addr, size, value);
        match exception
        case Some(e) => r == Failed(e) && Model() == old(Model())
        case None => r == Done(Model(), result)
    {
      if value.Some? {
        exception := WriteMem(t, addr, size, value.value);
        result := 0;
      } else {
        exception, result := ReadMem(t, addr, size);
      }
    }

    // ExceptionHandler for a page fault raised by an access.
    method HandleFault(t: ThreadId, addr: nat, size: AccessSize, ghost value: Option<int>) returns (ok: bool)
      requires Valid() && t in spaces && Try(Model(), t, addr, size, value) == Failed(PageFaultException)
      modifies mainMemory, coremap, Tables(), Swaps()
      ensures addr / PageSize < |old(Model()).spaces[t].pageTable|
      ensures ok <==> Fault(old(Model()), t, addr / PageSize).Some?
      ensures ok ==> Valid() && Fault(old(Model()), t, addr / PageSize) == Some(Model())
      ensures ok ==> Try(Model(), t, addr, size, value).Done?
    {
      ghost var vm := Model();
      assert vm.spaces[t] == spaces[t].Model();
      FaultInRange(vm, t, addr, size, value);
      ok := PageFaultHandler(t, addr / PageSize);
      if ok {
        TryAfterFault(vm, t, addr, size, value);
      }
    }

    // Machine::Run re-executes an instruction whose access faulted; every other
    // exception ends in ASSERT(FALSE), a false result here.
    method UserAccess(t: ThreadId, addr: nat, size: AccessSize, value: Option<int>) returns (ok: bool, result: int)
      requires Valid() && t in spaces
      modifies mainMemory, coremap, Tables(), Swaps()
      ensures ok <==> Access(old(Model()), t, addr, size, value).Some?
      ensures ok ==> Separate() && (Model(), result) == Access(old(Model()), t, addr, size, value).value
    {
      ghost var vm := Model();
      var restarted := false;
      while true
        invariant Valid() && t in spaces && spaces == old(spaces)
        invariant AtAttempt(vm, Model(), t, addr, size, value, restarted)
        decreases !restarted
      {
        ghost var now := Model();
        assert now.spaces[t] == spaces[t].Model();
        AttemptIs(vm, now, t, addr, size, value, restarted);
        var exception;
        exception, result := Attempt(t, addr, size, value);
        if exception.None? {
          return true, result;
        } else if exception.value != PageFaultException {
          return false, 0;
        }
        ok := HandleFault(t, addr, size, value);
        if !ok {
          return false, 0;
        }
        restarted := true;
      }
    }

    // exec: a fresh address space for thread t.
    method Exec(t: ThreadId, prog: Program)
      requires Separate() && t !in spaces
      modifies this`spaces
      ensures Separate()
      ensures Model() == old(Model()).(spaces := old(Model()).spaces[t := NewSpace(prog)])
    {
      var space := new AddrSpace(prog);
      label made:
      spaces := spaces[t := space];
      OneMore@made(t);
    }

    // The map gains an entry for t with objects nobody else has.
    twostate lemma OneMore(t: ThreadId)
      requires old(Separate()) && t in spaces && t !in old(spaces)
      requires spaces == old(spaces)[t := spaces[t]]
      requires forall u :: u in old(spaces) ==>
        spaces[u] != spaces[t] && spaces[u].pageTable != spaces[t].pageTable && spaces[u].swap != spaces[t].swap
      requires forall u :: u in old(spaces) ==> unchanged(spaces[u].pageTable) && unchanged(spaces[u].swap)
      ensures Separate()
      ensures Model().spaces == old(Model()).spaces[t := spaces[t].Model()]
    {
      forall u | u in old(spaces)
        ensures spaces[u].Model() == old(spaces[u].Model())
      {
        assert spaces[u].pageTable[..] == old(spaces[u].pageTable[..]);
      }
    }

    // The loop of AddrSpace::~AddrSpace.
    method FreeFrames(t: ThreadId)
      requires Separate() && Inv(Model()) && t in spaces
      modifies coremap
      ensures coremap.owner == old(coremap.owner)
      ensures (coremap.usedFrames, coremap.lru) ==
        ReleaseFrames(spaces[t].pageTable[..], 0, old(coremap.usedFrames), old(coremap.lru))
    {
      ghost var vm := Model();
      var pageTable := spaces[t].pageTable;
      assert vm.spaces[t] == spaces[t].Model();
      forall p: nat | p < pageTable.Length && pageTable[p].valid
        ensures 0 <= pageTable[p].physicalPage < NumPhysPages
      {
        assert PageOk(vm, t, p);
      }
      ghost var used, lru := coremap.usedFrames, coremap.lru;
      assert used == vm.used;
      for i := 0 to pageTable.Length
        invariant coremap.owner == old(coremap.owner) && |coremap.usedFrames| == NumPhysPages
        invariant ReleaseFrames(pageTable[..], 0, used, lru) == ReleaseFrames(pageTable[..], i, coremap.usedFrames, coremap.lru)
      {
        if pageTable[i].valid {
          coremap.usedFrames := coremap.usedFrames[pageTable[i].physicalPage := false];
          coremap.SetUnused(pageTable[i].physicalPage);
        }
      }
    }

    // AddrSpace::~AddrSpace and the removal of its thread.
    method Exit(t: ThreadId)
      requires Valid() && t in spaces
      modifies this`spaces, coremap
      ensures Valid()
      ensures Model() == Release(old(Model()), t)
    {
      ghost var vm := Model();
      ReleaseOk(vm, t);
      assert vm.spaces[t] == spaces[t].Model();
      FreeFrames(t);
      NoSpace();
      Forget(t);
    }

    method Forget(t: ThreadId)
      requires Separate()
      modifies this`spaces
      ensures Separate()
      ensures Model() == old(Model()).(spaces := old(Model()).spaces - {t})
    {
      ghost var vm := Model();
      spaces := spaces - {t};
      assert Model().spaces == vm.spaces - {t};
    }
  }
}
