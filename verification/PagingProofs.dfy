// What demand paging promises: frames have one owner, no assertion of the swap
// path can fail, and every program sees its own flat memory.

module PagingProofs {
  import opened Basics
  import opened MachineWords
  import opened PagingModel

  // ---------------------------------------------------------------- invariant

  predicate Maps(e: TranslationEntry, frame: int) {
    e.valid && e.physicalPage == frame
  }

  predicate Distinct(s: seq<int>) {
    forall i, j :: 0 <= i < j < |s| ==> s[i] != s[j]
  }

  // Bookkeeping of frames: the coremap and the eviction list.
  predicate FramesTracked(vm: Vm)
    requires Shape(vm)
  {
    && Distinct(vm.lru)
    && (forall f :: f in vm.lru ==> 0 <= f < NumPhysPages)
    && (forall f :: 0 <= f < NumPhysPages ==> (vm.used[f] <==> f in vm.lru))
    && (forall f :: 0 <= f < NumPhysPages ==> f in vm.owner)
    && (forall f :: 0 <= f < NumPhysPages && vm.used[f] ==>
          vm.owner[f] in vm.spaces && PageOf(vm.spaces[vm.owner[f]].pageTable, f) != -1)
  }

  // One page of one space.
  predicate PageOk(vm: Vm, t: ThreadId, p: nat)
    requires Shape(vm) && t in vm.spaces && p < |vm.spaces[t].pageTable|
  {
    var sp := vm.spaces[t];
    var e := sp.pageTable[p];
    && !e.readOnly
    && (!e.valid ==> !e.dirty)
    && (e.valid ==>
          && 0 <= e.physicalPage < NumPhysPages
          && vm.used[e.physicalPage]
          && e.physicalPage in vm.owner && vm.owner[e.physicalPage] == t
          && (!e.dirty && sp.swapMap[p] ==> Slot(sp.swapFile, p) == Slot(vm.mem, e.physicalPage)))
  }

  predicate Injective(pageTable: seq<TranslationEntry>) {
    forall p, q :: 0 <= p < q < |pageTable| && pageTable[p].valid && pageTable[q].valid
      ==> pageTable[p].physicalPage != pageTable[q].physicalPage
  }

  predicate PagesOk(vm: Vm)
    requires Shape(vm)
  {
    && (forall t, p: nat :: t in vm.spaces && p < |vm.spaces[t].pageTable| ==> PageOk(vm, t, p))
    && (forall t :: t in vm.spaces ==> Injective(vm.spaces[t].pageTable))
  }

  predicate Inv(vm: Vm) {
    Shape(vm) && FramesTracked(vm) && PagesOk(vm)
  }

  // The contents of a page, wherever they are: in a frame, in the swap file,
  // or still in the executable.
  function PageView(vm: Vm, t: ThreadId, p: nat): (r: seq<byte>)
    requires Shape(vm) && t in vm.spaces && p < |vm.spaces[t].pageTable| && PageOk(vm, t, p)
    ensures |r| == PageSize
  {
    var sp := vm.spaces[t];
    if sp.pageTable[p].valid then Slot(vm.mem, sp.pageTable[p].physicalPage)
    else if sp.swapMap[p] then Slot(sp.swapFile, p)
    else ImagePage(sp.program, p)
  }

  // Both states give every program the same memory.
  predicate SameViews(vm: Vm, vm': Vm)
    requires Shape(vm) && PagesOk(vm) && Shape(vm') && PagesOk(vm')
  {
    && SameSpaces(vm, vm')
    && forall t, p: nat :: t in vm.spaces && p < |vm.spaces[t].pageTable| ==> PageView(vm', t, p) == PageView(vm, t, p)
  }

  // ------------------------------------------------------------- list lemmas

  // r is s without x, which occurs at most once, and the others in their order.
  predicate TakenOut(s: seq<int>, x: int, r: seq<int>) {
    && x !in r && (x !in s ==> r == s)
    && forall k :: 0 <= k < |s| && s[k] == x ==> r == s[..k] + s[k + 1..]
  }

  lemma {:induction false} WithoutAbsent(s: seq<int>, x: int)
    requires x !in s
    ensures Without(s, x) == s
    decreases |s|
  {
    if s != [] {
      WithoutAbsent(s[1..], x);
    }
  }

  lemma {:induction false} WithoutAt(s: seq<int>, k: nat)
    requires Distinct(s) && k < |s|
    ensures Without(s, s[k]) == s[..k] + s[k + 1..]
    decreases k
  {
    if k == 0 {
      WithoutAbsent(s[1..], s[0]);
    } else {
      assert s[0] != s[k];
      WithoutAt(s[1..], k - 1);
      assert s[..k] + s[k + 1..] == [s[0]] + (s[1..][..k - 1] + s[1..][k..]);
    }
  }

  // Taking a frame off the eviction list leaves the others in their order.
  lemma WithoutTakesOut(s: seq<int>, x: int)
    requires Distinct(s)
    ensures Distinct(Without(s, x)) && TakenOut(s, x, Without(s, x))
  {
    WithoutDistinct(s, x);
    if x !in s {
      WithoutAbsent(s, x);
    }
    forall k | 0 <= k < |s| && s[k] == x
      ensures Without(s, x) == s[..k] + s[k + 1..]
    {
      WithoutAt(s, k);
    }
  }

  lemma {:induction false} WithoutDistinct(s: seq<int>, x: int)
    requires Distinct(s)
    ensures Distinct(Without(s, x))
    decreases |s|
  {
    if s != [] {
      var r := Without(s[1..], x);
      WithoutDistinct(s[1..], x);
      if s[0] != x {
        assert forall j :: 0 <= j < |r| ==> r[j] in r;
        assert Without(s, x) == [s[0]] + r;
      }
    }
  }

  lemma TouchDistinct(lru: seq<int>, f: int)
    requires Distinct(lru)
    ensures Distinct(Touch(lru, f))
    ensures forall g :: g in Touch(lru, f) <==> g in lru || g == f
  {
    WithoutDistinct(lru, f);
    var r := Without(lru, f);
    assert forall j :: 0 <= j < |r| ==> r[j] in r;
  }

  // ------------------------------------------------------------ on-demand load

  lemma OverlayExact(buf: seq<byte>, file: seq<byte>, seg: Segment, page: nat)
    requires |buf| == PageSize
    ensures OverlaySegment(buf, file, seg, page).Some? <==> SegmentInFile(file, seg, page)
    ensures OverlaySegment(buf, file, seg, page).Some? ==>
      forall i :: 0 <= i < PageSize ==>
        OverlaySegment(buf, file, seg, page).value[i] ==
          if InSegment(seg, page * PageSize + i) then FileByte(file, seg, page * PageSize + i) else buf[i]
  {
    if Overlaps(seg, page) {
      var c := ChunkOf(seg, page);
      var from := seg.inFileAddr + c.segmentStart;
      if |ReadBytes(file, c.copySize, from)| != c.copySize {
        assert c.copySize > 0;
        var last := page * PageSize + c.pageStart + c.copySize - 1;
        assert InSegment(seg, last) && seg.inFileAddr + last - seg.virtualAddr == from + c.copySize - 1;
        assert !SegmentInFile(file, seg, page);
      } else {
        forall a: nat | page * PageSize <= a < (page + 1) * PageSize && InSegment(seg, a)
          ensures seg.inFileAddr + a - seg.virtualAddr < |file|
        {
          assert a - page * PageSize < c.pageStart + c.copySize;
        }
      }
    }
  }

  // A page that loads is exactly its slice of the flat image, and it loads iff
  // the executable holds every byte the page needs.
  lemma LoadPageExact(prog: Program, page: nat)
    ensures LoadPage(prog, page).Some? <==>
      SegmentInFile(prog.file, prog.header.code, page) && SegmentInFile(prog.file, prog.header.initData, page)
    ensures LoadPage(prog, page).Some? ==> LoadPage(prog, page).value == ImagePage(prog, page)
  {
    var zeros: seq<byte> := seq(PageSize, _ => 0);
    OverlayExact(zeros, prog.file, prog.header.code, page);
    var withCode := OverlaySegment(zeros, prog.file, prog.header.code, page);
    if withCode.Some? {
      OverlayExact(withCode.value, prog.file, prog.header.initData, page);
      var r := OverlaySegment(withCode.value, prog.file, prog.header.initData, page);
      if r.Some? {
        var image := ImagePage(prog, page);
        forall i | 0 <= i < PageSize
          ensures r.value[i] == image[i]
        {
          assert image[i] == ImageByte(prog, page * PageSize + i);
        }
        assert r.value == image;
      }
    }
  }

  // ---------------------------------------------------------------- ownership

  // A frame is marked used iff exactly one valid page-table entry of all live
  // spaces maps it; that entry belongs to the frame's owner.
  lemma FrameOwnership(vm: Vm, f: nat)
    requires Inv(vm) && f < NumPhysPages
    ensures vm.used[f] <==>
      exists t, p: nat :: t in vm.spaces && p < |vm.spaces[t].pageTable| && Maps(vm.spaces[t].pageTable[p], f)
    ensures forall t, p: nat, u, q: nat ::
      t in vm.spaces && p < |vm.spaces[t].pageTable| && Maps(vm.spaces[t].pageTable[p], f) &&
      u in vm.spaces && q < |vm.spaces[u].pageTable| && Maps(vm.spaces[u].pageTable[q], f)
      ==> t == u == vm.owner[f] && p == q
  {
    if vm.used[f] {
      var t := vm.owner[f];
      var p := PageOf(vm.spaces[t].pageTable, f);
      assert Maps(vm.spaces[t].pageTable[p], f);
    }
    forall t, p: nat, u, q: nat |
      t in vm.spaces && p < |vm.spaces[t].pageTable| && Maps(vm.spaces[t].pageTable[p], f) &&
      u in vm.spaces && q < |vm.spaces[u].pageTable| && Maps(vm.spaces[u].pageTable[q], f)
      ensures t == u == vm.owner[f] && p == q
    {
      assert PageOk(vm, t, p) && PageOk(vm, u, q);
    }
    forall t, p: nat | t in vm.spaces && p < |vm.spaces[t].pageTable| && Maps(vm.spaces[t].pageTable[p], f)
      ensures vm.used[f]
    {
      assert PageOk(vm, t, p);
    }
  }

  // A state in which one frame has been taken from everyone and belongs to
  // nobody yet: what frameFreeIndex hands to the rest of the fault handler.
  predicate Taken(vm: Vm, frame: nat)
    requires Shape(vm) && frame < NumPhysPages
  {
    && Distinct(vm.lru)
    && (forall f :: f in vm.lru ==> 0 <= f < NumPhysPages)
    && frame in vm.lru
    && (forall f :: 0 <= f < NumPhysPages ==> f in vm.owner)
    && (forall f :: 0 <= f < NumPhysPages && f != frame ==> (vm.used[f] <==> f in vm.lru))
    && (forall f :: 0 <= f < NumPhysPages && f != frame && vm.used[f] ==>
          vm.owner[f] in vm.spaces && PageOf(vm.spaces[vm.owner[f]].pageTable, f) != -1)
    && PagesOk(vm)
    && (forall t, p: nat :: t in vm.spaces && p < |vm.spaces[t].pageTable| ==> !Maps(vm.spaces[t].pageTable[p], frame))
  }

  // One page across swapOut of a frame.
  lemma SwapOutPage(vm: Vm, frame: nat, u: ThreadId, p: nat)
    requires Inv(vm) && frame < NumPhysPages && vm.used[frame]
    requires u in vm.spaces && p < |vm.spaces[u].pageTable|
    ensures SwapOut(vm, vm.owner[frame], frame).Some?
    ensures var vm' := SwapOut(vm, vm.owner[frame], frame).value;
      && PageOk(vm', u, p)
      && PageView(vm', u, p) == PageView(vm, u, p)
      && !Maps(vm'.spaces[u].pageTable[p], frame)
      && (!Maps(vm.spaces[u].pageTable[p], frame) ==>
            vm'.spaces[u].pageTable[p] == vm.spaces[u].pageTable[p] && vm'.spaces[u].swapMap[p] == vm.spaces[u].swapMap[p])
      && (vm'.spaces[u].pageTable[p].valid ==> vm'.spaces[u].pageTable[p] == vm.spaces[u].pageTable[p])
  {
    var t := vm.owner[frame];
    var sp := vm.spaces[t];
    var page := PageOf(sp.pageTable, frame);
    var sp' := SwapOutSpace(sp, page, Slot(vm.mem, frame));
    assert PageOk(vm, t, page) && PageOk(vm, u, p);
    FrameOwnership(vm, frame);
    assert Maps(sp.pageTable[page], frame);
    if u == t && p != page {
      assert Slot(sp'.swapFile, p) == Slot(sp.swapFile, p);
    } else if u == t {
      assert Slot(sp'.swapFile, page) == Slot(vm.mem, frame);
    }
  }

  // swapOut on the owner of a used frame always succeeds, leaves the frame with
  // no owner, and moves no byte out of sight.
  lemma SwapOutOk(vm: Vm, frame: nat)
    requires Inv(vm) && frame < NumPhysPages && vm.used[frame]
    ensures SwapOut(vm, vm.owner[frame], frame).Some?
    ensures var vm' := SwapOut(vm, vm.owner[frame], frame).value;
      Taken(vm', frame) && SameViews(vm, vm') && vm'.lru == vm.lru && UnmappedKept(vm, vm')
  {
    var vm' := SwapOut(vm, vm.owner[frame], frame).value;
    forall u, p: nat | u in vm'.spaces && p < |vm'.spaces[u].pageTable|
      ensures PageOk(vm', u, p) && !Maps(vm'.spaces[u].pageTable[p], frame)
      ensures PageView(vm', u, p) == PageView(vm, u, p)
      ensures vm'.spaces[u].pageTable[p].valid ==> vm'.spaces[u].pageTable[p] == vm.spaces[u].pageTable[p]
    {
      SwapOutPage(vm, frame, u, p);
    }
    forall f | 0 <= f < NumPhysPages && f != frame && vm'.used[f]
      ensures vm'.owner[f] in vm'.spaces && PageOf(vm'.spaces[vm'.owner[f]].pageTable, f) != -1
    {
      var q := PageOf(vm.spaces[vm.owner[f]].pageTable, f);
      SwapOutPage(vm, frame, vm.owner[f], q);
      assert Maps(vm'.spaces[vm.owner[f]].pageTable[q], f);
    }
    forall u, p: nat | u in vm.spaces && p < |vm.spaces[u].pageTable| && !vm.spaces[u].pageTable[p].valid
      ensures vm'.spaces[u].pageTable[p] == vm.spaces[u].pageTable[p] && vm'.spaces[u].swapMap[p] == vm.spaces[u].swapMap[p]
    {
      SwapOutPage(vm, frame, u, p);
    }
  }

  // Pages that were not in memory are left exactly as they were.
  predicate UnmappedKept(vm: Vm, vm': Vm)
    requires Shape(vm) && Shape(vm') && SameSpaces(vm, vm')
  {
    forall t, p: nat :: t in vm.spaces && p < |vm.spaces[t].pageTable| && !vm.spaces[t].pageTable[p].valid ==>
      vm'.spaces[t].pageTable[p] == vm.spaces[t].pageTable[p] && vm'.spaces[t].swapMap[p] == vm.spaces[t].swapMap[p]
  }

  // Reordering the eviction list is not visible.
  lemma TouchOk(vm: Vm, f: int)
    requires Inv(vm) && f in vm.lru
    ensures var vm' := vm.(lru := Touch(vm.lru, f));
      Inv(vm') && SameViews(vm, vm') && UnmappedKept(vm, vm')
  {
    TouchDistinct(vm.lru, f);
    var vm' := vm.(lru := Touch(vm.lru, f));
    forall u, p: nat | u in vm'.spaces && p < |vm'.spaces[u].pageTable|
      ensures PageOk(vm', u, p)
    {
      assert PageOk(vm, u, p);
    }
  }

  lemma TakeUnused(vm: Vm, j: nat)
    requires Inv(vm) && j < NumPhysPages && !vm.used[j]
    ensures var vm' := vm.(lru := Touch(vm.lru, j));
      Taken(vm', j) && SameViews(vm, vm') && UnmappedKept(vm, vm')
  {
    TouchDistinct(vm.lru, j);
    var vm' := vm.(lru := Touch(vm.lru, j));
    forall u, p: nat | u in vm'.spaces && p < |vm'.spaces[u].pageTable|
      ensures PageOk(vm', u, p) && !Maps(vm'.spaces[u].pageTable[p], j)
    {
      assert PageOk(vm, u, p);
    }
  }

  // frameFreeIndex always finds a frame.
  // While a frame is not in use none is taken from its owner.
  lemma NoEvictionWhileFree(vm: Vm, f: nat)
    requires Shape(vm) && f < NumPhysPages && !vm.used[f]
    ensures FreeFrame(vm).Some?
    ensures var (vm', frame) := FreeFrame(vm).value;
      !vm.used[frame] && vm' == vm.(lru := vm'.lru)
  {
    assert FirstFree(vm.used, 0) <= f;
  }

  lemma FreeFrameOk(vm: Vm)
    requires Inv(vm)
    ensures FreeFrame(vm).Some?
    ensures var (vm', frame) := FreeFrame(vm).value;
      Taken(vm', frame) && SameViews(vm, vm') && UnmappedKept(vm, vm') && vm'.lru == Touch(vm.lru, frame)
  {
    var j := FirstFree(vm.used, 0);
    if j < |vm.used| {
      TakeUnused(vm, j);
    } else {
      assert vm.used[0];
      var victim := vm.lru[0];
      assert victim in vm.lru;
      TouchOk(vm, victim);
      SwapOutOk(vm.(lru := Touch(vm.lru, victim)), victim);
    }
  }

  // One page across the loading half of a fault, from the state with a taken frame.
  lemma FillPage(vm: Vm, t: ThreadId, page: nat, frame: nat, vm': Vm, u: ThreadId, p: nat)
    requires Shape(vm) && frame < NumPhysPages && Taken(vm, frame)
    requires t in vm.spaces && page < |vm.spaces[t].pageTable| && !vm.spaces[t].pageTable[page].valid
    requires Filled(vm, t, page, frame, vm')
    requires u in vm.spaces && p < |vm.spaces[u].pageTable|
    ensures PageOk(vm', u, p)
    ensures PageOk(vm, u, p) && PageView(vm', u, p) == PageView(vm, u, p)
    ensures u != t || p != page ==>
      (vm'.spaces[u].pageTable[p] == vm.spaces[u].pageTable[p] && !Maps(vm'.spaces[u].pageTable[p], frame))
  {
    assert PageOk(vm, u, p) && PageOk(vm, t, page);
    assert !Maps(vm.spaces[u].pageTable[p], frame);
    if u == t && p == page {
      if !vm.spaces[t].swapMap[page] {
        LoadPageExact(vm.spaces[t].program, page);
      }
      assert Slot(vm'.mem, frame) == PageView(vm, t, page);
    }
  }

  // What PageFaultHandler does once it has a frame.
  predicate Filled(vm: Vm, t: ThreadId, page: nat, frame: nat, vm': Vm)
    requires Shape(vm) && frame < NumPhysPages
    requires t in vm.spaces && page < |vm.spaces[t].pageTable|
  {
    var sp := vm.spaces[t];
    var swapped := sp.swapMap[page];
    var entry := sp.pageTable[page];
    var contents := if swapped then Some(Slot(sp.swapFile, page)) else LoadPage(sp.program, page);
    && contents.Some?
    && vm' == vm.(mem := PutSlot(vm.mem, frame, contents.value),
                  used := vm.used[frame := true],
                  owner := vm.owner[frame := t],
                  spaces := vm.spaces[t := sp.(pageTable := sp.pageTable[page :=
                    entry.(valid := true, physicalPage := frame, dirty := if swapped then entry.dirty else true)])])
  }

  lemma FillOk(vm: Vm, t: ThreadId, page: nat, frame: nat, vm': Vm)
    requires Shape(vm) && frame < NumPhysPages && Taken(vm, frame)
    requires t in vm.spaces && page < |vm.spaces[t].pageTable| && !vm.spaces[t].pageTable[page].valid
    requires Filled(vm, t, page, frame, vm')
    ensures Inv(vm') && SameViews(vm, vm')
  {
    forall u, p: nat | u in vm'.spaces && p < |vm'.spaces[u].pageTable|
      ensures PageOk(vm', u, p) && PageView(vm', u, p) == PageView(vm, u, p)
      ensures u != t || p != page ==>
        (vm'.spaces[u].pageTable[p] == vm.spaces[u].pageTable[p] && !Maps(vm'.spaces[u].pageTable[p], frame))
    {
      FillPage(vm, t, page, frame, vm', u, p);
    }
    forall f | 0 <= f < NumPhysPages && vm'.used[f]
      ensures vm'.owner[f] in vm'.spaces && PageOf(vm'.spaces[vm'.owner[f]].pageTable, f) != -1
    {
      FillOwner(vm, t, page, frame, vm', f);
    }
    StillInjective(vm.spaces[t].pageTable, page, vm'.spaces[t].pageTable, frame);
  }

  // Each frame in use is still that of a page of its owner.
  lemma FillOwner(vm: Vm, t: ThreadId, page: nat, frame: nat, vm': Vm, f: nat)
    requires Shape(vm) && frame < NumPhysPages && Taken(vm, frame)
    requires t in vm.spaces && page < |vm.spaces[t].pageTable| && !vm.spaces[t].pageTable[page].valid
    requires Filled(vm, t, page, frame, vm') && f < NumPhysPages && vm'.used[f]
    ensures vm'.owner[f] in vm'.spaces && PageOf(vm'.spaces[vm'.owner[f]].pageTable, f) != -1
  {
    if f == frame {
      assert Maps(vm'.spaces[t].pageTable[page], f);
    } else {
      var q := PageOf(vm.spaces[vm.owner[f]].pageTable, f);
      FillPage(vm, t, page, frame, vm', vm.owner[f], q);
      assert Maps(vm'.spaces[vm.owner[f]].pageTable[q], f);
    }
  }

  lemma StillInjective(pageTable: seq<TranslationEntry>, page: nat, pageTable': seq<TranslationEntry>, frame: nat)
    requires Injective(pageTable) && page < |pageTable| == |pageTable'| && pageTable'[page].physicalPage == frame
    requires forall p :: 0 <= p < |pageTable| && p != page ==> pageTable'[p] == pageTable[p] && !Maps(pageTable'[p], frame)
    ensures Injective(pageTable')
  {
  }

  // A page fault keeps the invariant, makes the page present and changes
  // nobody's view of memory.
  lemma FaultOk(vm: Vm, t: ThreadId, page: nat)
    requires Inv(vm) && t in vm.spaces && page < |vm.spaces[t].pageTable|
    requires Fault(vm, t, page).Some?
    ensures var vm' := Fault(vm, t, page).value;
      && Inv(vm') && SameViews(vm, vm') && vm'.spaces[t].pageTable[page].valid
  {
    if !vm.spaces[t].pageTable[page].valid {
      FreeFrameOk(vm);
      var (vm1, frame) := FreeFrame(vm).value;
      var vm' := Fault(vm, t, page).value;
      FillOk(vm1, t, page, frame, vm');
    }
  }

  // The only way a fault can stop the machine is a page that was never swapped
  // out and whose bytes the executable does not hold.
  lemma FaultFailsIff(vm: Vm, t: ThreadId, page: nat)
    requires Inv(vm) && t in vm.spaces && page < |vm.spaces[t].pageTable|
    ensures Fault(vm, t, page).None? <==>
      && !vm.spaces[t].pageTable[page].valid && !vm.spaces[t].swapMap[page]
      && !(SegmentInFile(vm.spaces[t].program.file, vm.spaces[t].program.header.code, page)
           && SegmentInFile(vm.spaces[t].program.file, vm.spaces[t].program.header.initData, page))
  {
    if !vm.spaces[t].pageTable[page].valid {
      FreeFrameOk(vm);
      LoadPageExact(vm.spaces[t].program, page);
    }
  }
}
