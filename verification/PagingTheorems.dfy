// The main results on demand paging: whole runs against the flat machine, and
// the order in which frames are evicted.

module PagingTheorems {
  import opened Basics
  import opened MachineWords
  import opened PagingModel
  import opened PagingProofs
  import opened PagingRuns

  datatype Event =
    | Load(t: ThreadId, addr: nat, size: AccessSize)
    | Store(t: ThreadId, addr: nat, size: AccessSize, value: int)
    | Exec(t: ThreadId, program: Program)
    | Exit(t: ThreadId)

  // ------------------------------------------------------------------- one step

  // One event of the paged machine, and what a load returned.  None: the
  // machine stopped.  Events of threads that do not exist change nothing.
  function Step(vm: Vm, ev: Event): (r: Option<(Vm, int)>)
    requires Shape(vm)
    ensures r.Some? ==> Shape(r.value.0)
  {
    match ev
    case Load(t, addr, size) => if t in vm.spaces then Access(vm, t, addr, size, None) else Some((vm, 0))
    case Store(t, addr, size, v) => if t in vm.spaces then Access(vm, t, addr, size, Some(v)) else Some((vm, 0))
    case Exec(t, prog) => Some((if t in vm.spaces then vm else vm.(spaces := vm.spaces[t := NewSpace(prog)]), 0))
    case Exit(t) => Some((if t in vm.spaces then Release(vm, t) else vm, 0))
  }

  // The same event on the flat machine.
  function FlatStep(flat: Flat, ev: Event): (r: Option<(Flat, int)>)
    requires FlatShape(flat)
    ensures r.Some? ==> FlatShape(r.value.0)
  {
    match ev
    case Load(t, addr, size) => if t in flat then FlatAccessIn(flat, t, addr, size, None) else Some((flat, 0))
    case Store(t, addr, size, v) => if t in flat then FlatAccessIn(flat, t, addr, size, Some(v)) else Some((flat, 0))
    case Exec(t, prog) => Some((if t in flat then flat else flat[t := InitialMemory(prog)], 0))
    case Exit(t) => Some((flat - {t}, 0))
  }

  function FlatAccessIn(flat: Flat, t: ThreadId, addr: nat, size: AccessSize, value: Option<int>): Option<(Flat, int)>
    requires FlatShape(flat) && t in flat
  {
    var r := FlatAccess(flat[t], addr, size, value);
    if r.None? then None else Some((flat[t := r.value.0], r.value.1))
  }

  predicate FlatShape(flat: Flat) {
    forall t :: t in flat ==> |flat[t]| % PageSize == 0
  }

  function InitialMemory(prog: Program): (m: seq<byte>)
    ensures |m| == NumPages(prog) * PageSize
  {
    seq<byte>(NumPages(prog) * PageSize, a requires 0 <= a < NumPages(prog) * PageSize => ImageByte(prog, a))
  }

  // ----------------------------------------------------------- exec and exit

  lemma ExecInv(vm: Vm, t: ThreadId, prog: Program)
    requires Inv(vm) && t !in vm.spaces
    ensures Inv(vm.(spaces := vm.spaces[t := NewSpace(prog)]))
  {
    var vm' := vm.(spaces := vm.spaces[t := NewSpace(prog)]);
    forall u, p: nat | u in vm'.spaces && p < |vm'.spaces[u].pageTable|
      ensures PageOk(vm', u, p)
    {
      assert u != t ==> PageOk(vm, u, p);
    }
  }

  lemma ExecOk(vm: Vm, t: ThreadId, prog: Program)
    requires Inv(vm) && t !in vm.spaces
    ensures var vm' := vm.(spaces := vm.spaces[t := NewSpace(prog)]);
      Inv(vm') && FlatOf(vm') == FlatOf(vm)[t := InitialMemory(prog)]
  {
    var vm' := vm.(spaces := vm.spaces[t := NewSpace(prog)]);
    ExecInv(vm, t, prog);
    forall u | u in vm'.spaces
      ensures FlatSpace(vm', u) == if u == t then InitialMemory(prog) else FlatSpace(vm, u)
    {
      ExecView(vm, t, prog, u);
    }
  }

  lemma ExecView(vm: Vm, t: ThreadId, prog: Program, u: ThreadId)
    requires Inv(vm) && t !in vm.spaces
    requires var vm' := vm.(spaces := vm.spaces[t := NewSpace(prog)]);
      Inv(vm') && u in vm'.spaces
    ensures var vm' := vm.(spaces := vm.spaces[t := NewSpace(prog)]);
      FlatSpace(vm', u) == if u == t then InitialMemory(prog) else FlatSpace(vm, u)
  {
    var vm' := vm.(spaces := vm.spaces[t := NewSpace(prog)]);
    forall a: nat | a < |vm'.spaces[u].pageTable| * PageSize
      ensures FlatByte(vm', u, a) == if u == t then InitialMemory(prog)[a] else FlatByte(vm, u, a)
    {
      assert PageOk(vm', u, a / PageSize);
    }
    assert u == t ==> FlatSpace(vm', u) == InitialMemory(prog);
    assert u != t ==> FlatSpace(vm', u) == FlatSpace(vm, u);
  }

  // The destructor frees exactly the frames of the dying space.
  lemma {:induction false} ReleaseFramesExact(pageTable: seq<TranslationEntry>, i: nat, used: seq<bool>, lru: seq<int>)
    requires i <= |pageTable| && Distinct(lru)
    requires forall p :: i <= p < |pageTable| && pageTable[p].valid ==> 0 <= pageTable[p].physicalPage < |used|
    ensures var (used', lru') := ReleaseFrames(pageTable, i, used, lru);
      && Distinct(lru')
      && (forall f :: 0 <= f < |used| ==>
            (used'[f] <==> used[f] && !exists p :: i <= p < |pageTable| && Maps(pageTable[p], f)))
      && (forall f :: f in lru' <==> f in lru && !exists p :: i <= p < |pageTable| && Maps(pageTable[p], f))
    decreases |pageTable| - i
  {
    if i < |pageTable| {
      var f := pageTable[i].physicalPage;
      assert forall g :: Maps(pageTable[i], g) <==> pageTable[i].valid && g == f;
      if pageTable[i].valid {
        WithoutDistinct(lru, f);
        ReleaseFramesExact(pageTable, i + 1, used[f := false], Without(lru, f));
      } else {
        ReleaseFramesExact(pageTable, i + 1, used, lru);
      }
    }
  }

  lemma ReleaseOk(vm: Vm, t: ThreadId)
    requires Inv(vm) && t in vm.spaces
    ensures Inv(Release(vm, t)) && FlatOf(Release(vm, t)) == FlatOf(vm) - {t}
  {
    var vm' := Release(vm, t);
    var pageTable := vm.spaces[t].pageTable;
    forall p | 0 <= p < |pageTable| && pageTable[p].valid
      ensures 0 <= pageTable[p].physicalPage < |vm.used|
    {
      assert PageOk(vm, t, p);
    }
    ReleaseFramesExact(pageTable, 0, vm.used, vm.lru);
    forall f | 0 <= f < NumPhysPages && vm'.used[f]
      ensures vm'.owner[f] in vm'.spaces && vm'.spaces[vm'.owner[f]] == vm.spaces[vm.owner[f]]
    {
      if vm.owner[f] == t {
        assert Maps(pageTable[PageOf(pageTable, f)], f);
      }
    }
    forall u, p: nat | u in vm'.spaces && p < |vm'.spaces[u].pageTable|
      ensures PageOk(vm', u, p)
    {
      assert PageOk(vm, u, p);
      if vm.spaces[u].pageTable[p].valid {
        var f := vm.spaces[u].pageTable[p].physicalPage;
        FrameOwnership(vm, f);
        assert Maps(vm.spaces[u].pageTable[p], f);
      }
    }
    assert Inv(vm');
    forall u | u in vm'.spaces
      ensures FlatSpace(vm', u) == FlatSpace(vm, u)
    {
      forall a: nat | a < |vm'.spaces[u].pageTable| * PageSize
        ensures FlatByte(vm', u, a) == FlatByte(vm, u, a)
      {
      }
    }
  }

  // ------------------------------------------------------------------ whole runs

  // The states along a run and the values its events returned.
  function Run(vm: Vm, evs: seq<Event>): (r: Option<(Vm, seq<int>)>)
    requires Shape(vm)
    ensures r.Some? ==> Shape(r.value.0)
    decreases |evs|
  {
    if evs == [] then Some((vm, []))
    else
      var first := Step(vm, evs[0]);
      if first.None? then None
      else
        var rest := Run(first.value.0, evs[1..]);
        if rest.None? then None else Some((rest.value.0, [first.value.1] + rest.value.1))
  }

  function FlatRun(flat: Flat, evs: seq<Event>): (r: Option<(Flat, seq<int>)>)
    requires FlatShape(flat)
    decreases |evs|
  {
    if evs == [] then Some((flat, []))
    else
      var first := FlatStep(flat, evs[0]);
      if first.None? then None
      else
        var rest := FlatRun(first.value.0, evs[1..]);
        if rest.None? then None else Some((rest.value.0, [first.value.1] + rest.value.1))
  }

  lemma StepOk(vm: Vm, ev: Event)
    requires Inv(vm)
    ensures FlatShape(FlatOf(vm))
    ensures var r := Step(vm, ev);
      var flat := FlatStep(FlatOf(vm), ev);
      && (r.Some? ==> flat.Some? && Inv(r.value.0) && flat.value == (FlatOf(r.value.0), r.value.1))
      && (r.None? && flat.Some? ==> MissingBytes(vm, ev))
  {
    match ev
    case Load(t, addr, size) => if t in vm.spaces { AccessOk(vm, t, addr, size, None); }
    case Store(t, addr, size, v) => if t in vm.spaces { AccessOk(vm, t, addr, size, Some(v)); }
    case Exec(t, prog) => if t !in vm.spaces { ExecOk(vm, t, prog); }
    case Exit(t) => if t in vm.spaces { ReleaseOk(vm, t); } else { assert FlatOf(vm) - {t} == FlatOf(vm); }
  }

  // The event touches a page whose bytes its executable does not hold.
  predicate MissingBytes(vm: Vm, ev: Event)
    requires Shape(vm)
  {
    && (ev.Load? || ev.Store?) && ev.t in vm.spaces
    && ev.addr / PageSize < |vm.spaces[ev.t].pageTable|
    && Fault(vm, ev.t, ev.addr / PageSize).None?
  }

  // MAIN: paging is invisible.  Whatever programs run in whatever interleaving,
  // as long as the machine has not stopped every load returned what the flat
  // machine returns, and the flat memories agree at the end.
  lemma {:induction false} PagingInvisible(vm: Vm, evs: seq<Event>)
    requires Inv(vm)
    ensures FlatShape(FlatOf(vm))
    ensures var r := Run(vm, evs);
      r.Some? ==>
        && FlatRun(FlatOf(vm), evs).Some?
        && Inv(r.value.0)
        && FlatRun(FlatOf(vm), evs).value == (FlatOf(r.value.0), r.value.1)
    decreases |evs|
  {
    if evs != [] {
      StepOk(vm, evs[0]);
      if Step(vm, evs[0]).Some? {
        PagingInvisible(Step(vm, evs[0]).value.0, evs[1..]);
      }
    }
  }

  // ------------------------------------------------------- the machine never stops

  predicate Loadable(prog: Program) {
    forall p: nat :: p < NumPages(prog) ==>
      SegmentInFile(prog.file, prog.header.code, p) && SegmentInFile(prog.file, prog.header.initData, p)
  }

  predicate AllLoadable(vm: Vm)
    requires Shape(vm)
  {
    forall t :: t in vm.spaces ==> |vm.spaces[t].pageTable| == NumPages(vm.spaces[t].program) && Loadable(vm.spaces[t].program)
  }

  lemma StepLoadable(vm: Vm, ev: Event)
    requires Inv(vm) && AllLoadable(vm) && (ev.Exec? ==> Loadable(ev.program))
    ensures FlatShape(FlatOf(vm))
    ensures Step(vm, ev).Some? <==> FlatStep(FlatOf(vm), ev).Some?
    ensures Step(vm, ev).Some? ==>
      && Inv(Step(vm, ev).value.0) && AllLoadable(Step(vm, ev).value.0)
      && FlatStep(FlatOf(vm), ev).value.0 == FlatOf(Step(vm, ev).value.0)
  {
    StepOk(vm, ev);
    if MissingBytes(vm, ev) {
      FaultFailsIff(vm, ev.t, ev.addr / PageSize);
    }
    if Step(vm, ev).Some? && (ev.Load? || ev.Store?) && ev.t in vm.spaces {
      AccessOk(vm, ev.t, ev.addr, ev.size, if ev.Store? then Some(ev.value) else None);
    }
  }

  lemma RunGoesOn(vm: Vm, evs: seq<Event>)
    requires Shape(vm) && evs != []
    ensures Run(vm, evs).Some? <==> Step(vm, evs[0]).Some? && Run(Step(vm, evs[0]).value.0, evs[1..]).Some?
  {
  }

  lemma FlatRunGoesOn(flat: Flat, evs: seq<Event>)
    requires FlatShape(flat) && evs != []
    ensures FlatRun(flat, evs).Some? <==>
      FlatStep(flat, evs[0]).Some? && FlatRun(FlatStep(flat, evs[0]).value.0, evs[1..]).Some?
  {
  }

  predicate ExecsLoadable(evs: seq<Event>) {
    forall k :: 0 <= k < |evs| && evs[k].Exec? ==> Loadable(evs[k].program)
  }

  // MAIN: if every executable holds its segments, the paged machine stops only
  // where the flat one does, on a misaligned or out-of-range address.
  lemma {:induction false} PagingNeverStops(vm: Vm, flat: Flat, evs: seq<Event>)
    requires Inv(vm) && AllLoadable(vm) && ExecsLoadable(evs)
    requires flat == FlatOf(vm) && FlatShape(flat)
    ensures Run(vm, evs).Some? <==> FlatRun(flat, evs).Some?
    decreases |evs|
  {
    if evs != [] {
      StepLoadable(vm, evs[0]);
      RunGoesOn(vm, evs);
      FlatRunGoesOn(flat, evs);
      if Step(vm, evs[0]).Some? {
        PagingNeverStops(Step(vm, evs[0]).value.0, FlatStep(flat, evs[0]).value.0, evs[1..]);
      }
    }
  }

  // ------------------------------------------------------- the last byte written

  // The event is a store by t that covers address a.
  predicate Covers(ev: Event, t: ThreadId, a: nat) {
    ev.Store? && ev.t == t && ev.addr <= a < ev.addr + ev.size
  }

  // Byte k of a number in two's complement, 0 the low one.
  function Byte(v: int, k: nat): byte
    decreases k, v
  {
    if k == 0 then v % 0x100 else Byte(v / 0x100, k - 1)
  }

  lemma Times(p: int, d: int, q: int)
    requires p > 0
    ensures d > q ==> p * d >= p * q + p
  {
    if d > q {
      assert p * (d - q - 1) >= 0;
      assert p * (d - q - 1) == p * d - p * q - p;
    }
  }

  lemma RemainderUnique(p: int, d: int, q: int, m: int, w: int)
    requires 0 <= m < p && 0 <= w < p && p * d + m == p * q + w
    ensures m == w
  {
    Times(p, d, q);
    Times(p, q, d);
  }

  lemma RemainderIs(x: int, p: nat, q: int, w: nat)
    requires w < p && x == p * q + w
    ensures x % p == w
  {
    RemainderUnique(p, x / p, q, x % p, w);
  }

  lemma OneByteLess(v: int, p: nat)
    requires p > 0
    ensures v % (0x100 * p) == 0x100 * (v / 0x100 % p) + v % 0x100
  {
    var a, w := v / 0x100 / p, v / 0x100 % p;
    assert v / 0x100 == p * a + w;
    assert v == 0x100 * (p * a) + (0x100 * w + v % 0x100);
    assert 0x100 * (p * a) == 0x100 * p * a;
    RemainderIs(v, 0x100 * p, a, 0x100 * w + v % 0x100);
  }

  lemma {:induction false} LowBytes(v: int, n: nat, k: nat)
    requires k < n
    ensures ToLe(v % Pow256(n), n)[k] == Byte(v, k)
    decreases n
  {
    OneByteLess(v, Pow256(n - 1));
    if k > 0 {
      LowBytes(v / 0x100, n - 1, k - 1);
    }
  }

  function StoredByte(ev: Event, t: ThreadId, a: nat): byte
    requires Covers(ev, t, a)
  {
    Byte(ev.value, a - ev.addr)
  }

  // b is what the last store of t over a left there, or the initial byte.
  predicate LastWritten(evs: seq<Event>, t: ThreadId, a: nat, initial: byte, b: byte) {
    || ((forall k :: 0 <= k < |evs| ==> !Covers(evs[k], t, a)) && b == initial)
    || (exists k :: 0 <= k < |evs| && Covers(evs[k], t, a) && b == StoredByte(evs[k], t, a)
          && forall l :: k < l < |evs| ==> !Covers(evs[l], t, a))
  }

  lemma LastWrittenTail(evs: seq<Event>, t: ThreadId, a: nat, initial: byte, b: byte)
    requires evs != []
    requires LastWritten(evs[1..], t, a, if Covers(evs[0], t, a) then StoredByte(evs[0], t, a) else initial, b)
    ensures LastWritten(evs, t, a, initial, b)
  {
    var tail := evs[1..];
    if k :| 0 <= k < |tail| && Covers(tail[k], t, a) && b == StoredByte(tail[k], t, a)
          && forall l :: k < l < |tail| ==> !Covers(tail[l], t, a) {
      assert Covers(evs[k + 1], t, a) && b == StoredByte(evs[k + 1], t, a);
      assert forall l :: k + 1 < l < |evs| ==> evs[l] == tail[l - 1];
    } else {
      assert forall l :: 1 <= l < |evs| ==> evs[l] == tail[l - 1];
      if Covers(evs[0], t, a) {
        assert b == StoredByte(evs[0], t, a);
      }
    }
  }

  lemma {:induction false} FlatKeepsLastWritten(flat: Flat, evs: seq<Event>, t: ThreadId, a: nat)
    requires FlatShape(flat) && t in flat && a < |flat[t]|
    requires Exit(t) !in evs && FlatRun(flat, evs).Some?
    ensures var flat' := FlatRun(flat, evs).value.0;
      t in flat' && |flat'[t]| == |flat[t]| && LastWritten(evs, t, a, flat[t][a], flat'[t][a])
    decreases |evs|
  {
    if evs != [] {
      var flat1 := FlatStep(flat, evs[0]).value.0;
      assert evs[0] in evs;
      if Covers(evs[0], t, a) {
        LowBytes(evs[0].value, evs[0].size, a - evs[0].addr);
      }
      assert flat1[t][a] == if Covers(evs[0], t, a) then StoredByte(evs[0], t, a) else flat[t][a];
      FlatKeepsLastWritten(flat1, evs[1..], t, a);
      LastWrittenTail(evs, t, a, flat[t][a], FlatRun(flat, evs).value.0[t][a]);
    }
  }

  // MAIN: in the paged machine, after any run the memory of a live program
  // holds at each address the last byte that program stored there, or else the
  // byte it had at the start.
  lemma MemoryHoldsLastStore(vm: Vm, evs: seq<Event>, t: ThreadId, a: nat)
    requires Inv(vm) && t in vm.spaces && a < |vm.spaces[t].pageTable| * PageSize
    requires Exit(t) !in evs && Run(vm, evs).Some?
    ensures var vm' := Run(vm, evs).value.0;
      && Inv(vm') && t in vm'.spaces && |vm'.spaces[t].pageTable| == |vm.spaces[t].pageTable|
      && LastWritten(evs, t, a, FlatSpace(vm, t)[a], FlatSpace(vm', t)[a])
  {
    PagingInvisible(vm, evs);
    FlatKeepsLastWritten(FlatOf(vm), evs, t, a);
    assert FlatOf(Run(vm, evs).value.0)[t] == FlatSpace(Run(vm, evs).value.0, t);
  }

  // ------------------------------------------------------------- eviction order

  // Position of the last load into frame f, or -1.
  function LastLoad(loads: seq<int>, f: int): int {
    if loads == [] then -1
    else if loads[|loads| - 1] == f then |loads| - 1
    else LastLoad(loads[..|loads| - 1], f)
  }

  // The list is ordered by time of loading, oldest first.
  predicate LoadOrder(lru: seq<int>, loads: seq<int>) {
    && (forall i :: 0 <= i < |lru| ==> LastLoad(loads, lru[i]) >= 0)
    && (forall i, j :: 0 <= i < j < |lru| ==> LastLoad(loads, lru[i]) < LastLoad(loads, lru[j]))
  }

  // The frame an event loads a page into, if any.
  function LoadsOf(vm: Vm, ev: Event): seq<int>
    requires Shape(vm)
  {
    if (ev.Load? || ev.Store?) && ev.t in vm.spaces && !Misaligned(ev.addr, ev.size)
       && ev.addr / PageSize < |vm.spaces[ev.t].pageTable| && !vm.spaces[ev.t].pageTable[ev.addr / PageSize].valid
       && FreeFrame(vm).Some?
    then [FreeFrame(vm).value.1] else []
  }

  function Loads(vm: Vm, evs: seq<Event>): seq<int>
    requires Shape(vm)
    decreases |evs|
  {
    if evs == [] || Step(vm, evs[0]).None? then []
    else LoadsOf(vm, evs[0]) + Loads(Step(vm, evs[0]).value.0, evs[1..])
  }

  lemma {:induction false} LastLoadIsLast(loads: seq<int>, f: int)
    ensures var k := LastLoad(loads, f);
      && -1 <= k < |loads| && (k >= 0 ==> loads[k] == f)
      && forall l :: k < l < |loads| ==> loads[l] != f
  {
    if loads != [] && loads[|loads| - 1] != f {
      LastLoadIsLast(loads[..|loads| - 1], f);
    }
  }

  lemma LastLoadAppend(loads: seq<int>, x: int, f: int)
    ensures LastLoad(loads + [x], f) == if x == f then |loads| else LastLoad(loads, f)
  {
    assert (loads + [x])[..|loads|] == loads;
  }

  lemma {:induction false} WithoutOrder(lru: seq<int>, x: int, loads: seq<int>)
    requires LoadOrder(lru, loads)
    ensures LoadOrder(Without(lru, x), loads)
    decreases |lru|
  {
    if lru != [] {
      var first, tail := lru[0], lru[1..];
      assert LoadOrder(tail, loads);
      var rest := Without(tail, x);
      WithoutOrder(tail, x, loads);
      if first != x {
        forall j | 0 <= j < |rest|
          ensures LastLoad(loads, first) < LastLoad(loads, rest[j])
        {
          assert rest[j] in tail;
          var k :| 0 <= k < |tail| && tail[k] == rest[j];
          assert lru[k + 1] == rest[j];
        }
        var all := [first] + rest;
        forall i, j | 0 <= i < j < |all|
          ensures LastLoad(loads, all[i]) < LastLoad(loads, all[j])
        {
          if i > 0 {
            assert all[i] == rest[i - 1] && all[j] == rest[j - 1];
          }
        }
        assert Without(lru, x) == all;
      }
    }
  }

  lemma TouchOrder(lru: seq<int>, f: int, loads: seq<int>)
    requires LoadOrder(lru, loads)
    ensures LoadOrder(Touch(lru, f), loads + [f])
  {
    WithoutOrder(lru, f, loads);
    var r := Without(lru, f);
    forall i | 0 <= i < |r|
      ensures LastLoad(loads + [f], r[i]) == LastLoad(loads, r[i]) < |loads|
    {
      assert r[i] in r;
      LastLoadAppend(loads, f, r[i]);
      LastLoadIsLast(loads, r[i]);
    }
    LastLoadAppend(loads, f, f);
  }

  lemma {:induction false} ReleaseFramesOrder(pageTable: seq<TranslationEntry>, i: nat, used: seq<bool>, lru: seq<int>, loads: seq<int>)
    requires i <= |pageTable| && LoadOrder(lru, loads)
    ensures LoadOrder(ReleaseFrames(pageTable, i, used, lru).1, loads)
    decreases |pageTable| - i
  {
    if i < |pageTable| {
      var f := pageTable[i].physicalPage;
      if pageTable[i].valid && 0 <= f < |used| {
        WithoutOrder(lru, f, loads);
        ReleaseFramesOrder(pageTable, i + 1, used[f := false], Without(lru, f), loads);
      } else {
        ReleaseFramesOrder(pageTable, i + 1, used, lru, loads);
      }
    }
  }

  // Only a fault moves frames in the list, and it moves the frame it loads.
  lemma FaultTouches(vm: Vm, t: ThreadId, page: nat)
    requires Inv(vm) && t in vm.spaces && page < |vm.spaces[t].pageTable| && !vm.spaces[t].pageTable[page].valid
    ensures FreeFrame(vm).Some?
    ensures Fault(vm, t, page).Some? ==> Fault(vm, t, page).value.lru == Touch(vm.lru, FreeFrame(vm).value.1)
  {
    FreeFrameOk(vm);
  }

  lemma AccessTouches(vm: Vm, t: ThreadId, addr: nat, size: AccessSize, value: Option<int>)
    requires Inv(vm) && t in vm.spaces && Access(vm, t, addr, size, value).Some?
    requires InRange(addr, size, |vm.spaces[t].pageTable| * PageSize)
    ensures Access(vm, t, addr, size, value).value.0.lru ==
      if vm.spaces[t].pageTable[addr / PageSize].valid then vm.lru
      else Fault(vm, t, addr / PageSize).value.lru
  {
    assert PageOk(vm, t, addr / PageSize);
    AccessCases(vm, t, addr, size, value);
  }

  lemma AccessOrder(vm: Vm, t: ThreadId, addr: nat, size: AccessSize, value: Option<int>, loads: seq<int>)
    requires Inv(vm) && t in vm.spaces && LoadOrder(vm.lru, loads) && Access(vm, t, addr, size, value).Some?
    ensures InRange(addr, size, |vm.spaces[t].pageTable| * PageSize)
    ensures var loaded := if vm.spaces[t].pageTable[addr / PageSize].valid || FreeFrame(vm).None? then [] else [FreeFrame(vm).value.1];
      LoadOrder(Access(vm, t, addr, size, value).value.0.lru, loads + loaded)
  {
    assert loads + [] == loads;
    TryOutside(vm, t, addr, size, value);
    AccessTouches(vm, t, addr, size, value);
    if !vm.spaces[t].pageTable[addr / PageSize].valid {
      FaultTouches(vm, t, addr / PageSize);
      TouchOrder(vm.lru, FreeFrame(vm).value.1, loads);
    }
  }

  lemma StepOrder(vm: Vm, ev: Event, loads: seq<int>)
    requires Inv(vm) && LoadOrder(vm.lru, loads) && Step(vm, ev).Some?
    ensures LoadOrder(Step(vm, ev).value.0.lru, loads + LoadsOf(vm, ev))
  {
    assert loads + [] == loads;
    if ev.Exit? && ev.t in vm.spaces {
      ReleaseFramesOrder(vm.spaces[ev.t].pageTable, 0, vm.used, vm.lru, loads);
    } else if (ev.Load? || ev.Store?) && ev.t in vm.spaces {
      AccessOrder(vm, ev.t, ev.addr, ev.size, if ev.Store? then Some(ev.value) else None, loads);
    }
  }

  lemma {:induction false} RunOrder(vm: Vm, evs: seq<Event>, loads: seq<int>)
    requires Inv(vm) && LoadOrder(vm.lru, loads) && Run(vm, evs).Some?
    ensures Inv(Run(vm, evs).value.0) && LoadOrder(Run(vm, evs).value.0.lru, loads + Loads(vm, evs))
    decreases |evs|
  {
    assert loads + [] == loads;
    if evs != [] {
      StepOk(vm, evs[0]);
      StepOrder(vm, evs[0], loads);
      var vm1 := Step(vm, evs[0]).value.0;
      RunOrder(vm1, evs[1..], loads + LoadsOf(vm, evs[0]));
      assert loads + LoadsOf(vm, evs[0]) + Loads(vm1, evs[1..]) == loads + Loads(vm, evs);
    }
  }

  // MAIN: whenever a fault has to evict, over any run since boot, the victim is
  // the frame whose page was loaded longest ago (uses since then do not count).
  lemma EvictsOldestLoad(evs: seq<Event>, f: nat)
    requires Run(Boot, evs).Some? && f < NumPhysPages
    ensures var vm := Run(Boot, evs).value.0;
      (forall g :: 0 <= g < NumPhysPages ==> vm.used[g]) ==>
        && FreeFrame(vm).Some?
        && var victim := FreeFrame(vm).value.1;
        && LastLoad(Loads(Boot, evs), victim) >= 0
        && (f != victim ==> LastLoad(Loads(Boot, evs), victim) < LastLoad(Loads(Boot, evs), f))
  {
    BootOk();
    RunOrder(Boot, evs, []);
    assert [] + Loads(Boot, evs) == Loads(Boot, evs);
    FirstIsOldest(Run(Boot, evs).value.0, Loads(Boot, evs), f);
  }

  lemma FirstIsOldest(vm: Vm, loads: seq<int>, f: nat)
    requires Inv(vm) && LoadOrder(vm.lru, loads) && f < NumPhysPages
    ensures (forall g :: 0 <= g < NumPhysPages ==> vm.used[g]) ==>
        && FreeFrame(vm).Some?
        && var victim := FreeFrame(vm).value.1;
        && LastLoad(loads, victim) >= 0
        && (f != victim ==> LastLoad(loads, victim) < LastLoad(loads, f))
  {
    if forall g :: 0 <= g < NumPhysPages ==> vm.used[g] {
      FreeFrameOk(vm);
      assert vm.used[f] && f in vm.lru;
      var i :| 0 <= i < |vm.lru| && vm.lru[i] == f;
      assert FirstFree(vm.used, 0) == |vm.used|;
    }
  }

  lemma BootOk()
    ensures Inv(Boot) && FlatOf(Boot) == map[]
  {
  }
}
