// The simulated clock and its pending interrupts.  What a handler does to the
// rest of the machine is left out; here it only asks for further interrupts,
// always in the future, and may ask for a context switch.

module Interrupts {
  import opened Lists

  const USER_TICK: nat := 1
  const SYSTEM_TICK: nat := 10

  datatype Level = IntOff | IntOn
  datatype Status = IdleMode | SystemMode | UserMode
  datatype Kind = TimerInt | DiskInt | ConsoleWriteInt | ConsoleReadInt | NetworkSendInt | NetworkRecvInt

  datatype Pending = Pending(handler: nat, arg: int, when: nat, kind: Kind)

  datatype Request = Request(handler: nat, arg: int, fromNow: nat, kind: Kind)

  // What a handler asks for when it runs.
  datatype Reaction = Reaction(requests: seq<Request>, asksYield: bool)

  type Device = (Pending, nat) -> Reaction

  // Schedule asserts fromNow > 0.
  ghost predicate Future(device: Device) {
    forall p, now :: AllFuture(device(p, now).requests)
  }

  predicate AllFuture(requests: seq<Request>) {
    forall i :: 0 <= i < |requests| ==> requests[i].fromNow > 0
  }

  datatype Fire = Fire(what: Pending, at: nat)

  // The simulation's state.  scheduled, fired and switches, the times at which a
  // tick ended in a switch of contexts, are its history.
  datatype Sim = Sim(level: Level, status: Status, inHandler: bool, yieldOnReturn: bool, pending: seq<Keyed<Pending>>,
                     total: nat, idle: nat, system: nat, user: nat, scheduled: seq<Pending>, fired: seq<Fire>,
                     switches: seq<nat>)

  const START: Sim := Sim(IntOff, SystemMode, false, false, [], 0, 0, 0, 0, [], [], [])

  // ----------------------------------------------------------------- operations

  // The list element for a request made now.
  function Entry(r: Request, now: nat): (e: Keyed<Pending>)
    ensures e.key == e.item.when == now + r.fromNow
  {
    Keyed(now + r.fromNow, Pending(r.handler, r.arg, now + r.fromNow, r.kind))
  }

  function Schedule(s: Sim, r: Request): Sim {
    s.(pending := Inserted(s.pending, Entry(r, s.total)), scheduled := s.scheduled + [Entry(r, s.total).item])
  }

  function ScheduleAll(s: Sim, requests: seq<Request>): Sim
    decreases |requests|
  {
    if requests == [] then s else ScheduleAll(Schedule(s, requests[0]), requests[1..])
  }

  // Calls the handler of p, which has been taken off the list.
  function Handle(s: Sim, device: Device, p: Pending): Sim {
    var reaction := device(p, s.total);
    var s' := ScheduleAll(s.(inHandler := true, status := SystemMode, fired := s.fired + [Fire(p, s.total)]), reaction.requests);
    s'.(status := s.status, inHandler := false, yieldOnReturn := s'.yieldOnReturn || reaction.asksYield)
  }

  // The first interrupt, taken off, goes back on.
  function PutBack(s: Sim): Sim
    requires s.pending != []
  {
    s.(pending := Inserted(s.pending[1..], s.pending[0]))
  }

  // The first interrupt, taken off, fires.
  function FireFirst(s: Sim, device: Device): Sim
    requires s.pending != []
  {
    Handle(s.(pending := s.pending[1..]), device, s.pending[0].item)
  }

  // The clock runs on to the first pending interrupt.
  function Skip(s: Sim): (s': Sim)
    requires s.pending != []
    ensures s'.pending == s.pending && s'.status == s.status
  {
    if s.pending[0].key > s.total then s.(idle := s.idle + (s.pending[0].key - s.total), total := s.pending[0].key) else s
  }

  predicate LoneTimer(s: Sim) {
    s.status == IdleMode && |s.pending| == 1 && s.pending[0].item.kind == TimerInt
  }

  // CheckIfDue: fires the first pending interrupt if it is due, or, told to
  // advance the clock, even if it is not; a lone timer does not keep an idle
  // machine going.
  function CheckIfDue(s: Sim, device: Device, advance: bool): (Sim, bool) {
    if s.pending == [] then (s, false)
    else if s.pending[0].key > s.total && !advance then (PutBack(s), false)
    else if LoneTimer(s) then (PutBack(Skip(s)), false)
    else (FireFirst(Skip(s), device), true)
  }

  // How many pending interrupts are due, on a sorted list.
  function Due(s: Sim): nat {
    Place(s.pending, s.total)
  }

  // while (CheckIfDue(false)) ;
  function FireDue(s: Sim, device: Device): Sim
    requires Future(device) && Sorted(s.pending)
    decreases Due(s)
  {
    CheckKeepsSorted(s, device, false);
    FiringUsesUp(s, device);
    var (s', again) := CheckIfDue(s, device, false);
    if again then FireDue(s', device) else s'
  }

  function Advance(s: Sim): Sim {
    if s.status == SystemMode then s.(total := s.total + SYSTEM_TICK, system := s.system + SYSTEM_TICK)
    else s.(total := s.total + USER_TICK, user := s.user + USER_TICK)
  }

  // The switch of contexts that a handler may have asked for.
  function Switched(s: Sim): Sim {
    if s.yieldOnReturn then s.(yieldOnReturn := false, switches := s.switches + [s.total]) else s
  }

  function OneTick(s: Sim, device: Device): Sim
    requires Future(device) && Sorted(s.pending)
  {
    Switched(FireDue(Advance(s).(level := IntOff), device).(level := IntOn))
  }

  function SetLevel(s: Sim, device: Device, now: Level): Sim
    requires Future(device) && Sorted(s.pending)
  {
    if now == IntOn && s.level == IntOff then OneTick(s.(level := IntOn), device) else s.(level := now)
  }

  // Idle; the machine halts when no interrupt could be fired.
  function Idle(s: Sim, device: Device): (r: (Sim, bool))
    requires Future(device) && Sorted(s.pending)
  {
    CheckKeepsSorted(s.(status := IdleMode), device, true);
    var (s', any) := CheckIfDue(s.(status := IdleMode), device, true);
    if any then (FireDue(s', device).(yieldOnReturn := false, status := SystemMode), false) else (s', true)
  }

  // ------------------------------------------------------------------- the list

  lemma PlaceBehindNow<T>(s: seq<Keyed<T>>, e: Keyed<T>, now: nat)
    requires Sorted(s) && e.key > now
    ensures Place(Inserted(s, e), now) == Place(s, now)
  {
    PlaceIs(Inserted(s, e), now, Place(s, now));
  }

  lemma OneBehindNow(s: Sim, r: Request)
    requires Sorted(s.pending) && r.fromNow > 0
    ensures Sorted(Schedule(s, r).pending) && Due(Schedule(s, r)) == Due(s)
  {
    var e, longer := Entry(r, s.total), Inserted(s.pending, Entry(r, s.total));
    assert Sorted(longer) && Place(longer, s.total) == Place(s.pending, s.total) by {
      InsertSorted(s.pending, e);
      PlaceBehindNow(s.pending, e, s.total);
    }
    assert Schedule(s, r).pending == longer;
  }

  lemma {:induction false} AllBehindNow(s: Sim, requests: seq<Request>)
    requires Sorted(s.pending) && AllFuture(requests)
    ensures Sorted(ScheduleAll(s, requests).pending) && Due(ScheduleAll(s, requests)) == Due(s)
    ensures ScheduleAll(s, requests).level == s.level
    decreases |requests|
  {
    if requests != [] {
      OneBehindNow(s, requests[0]);
      AllBehindNow(Schedule(s, requests[0]), requests[1..]);
    }
  }

  lemma CheckKeepsSorted(s: Sim, device: Device, advance: bool)
    requires Future(device) && Sorted(s.pending)
    ensures Sorted(CheckIfDue(s, device, advance).0.pending) && CheckIfDue(s, device, advance).0.level == s.level
  {
    if s.pending != [] {
      PutBackSorted(s);
      PutBackSorted(Skip(s));
      FireFirstSorted(Skip(s), device);
    }
  }

  lemma PutBackSorted(s: Sim)
    requires Sorted(s.pending) && s.pending != []
    ensures Sorted(PutBack(s).pending) && PutBack(s).level == s.level
  {
    InsertSorted(s.pending[1..], s.pending[0]);
  }

  lemma FireFirstSorted(s: Sim, device: Device)
    requires Future(device) && Sorted(s.pending) && s.pending != []
    ensures Sorted(FireFirst(s, device).pending) && FireFirst(s, device).level == s.level
    ensures s.pending[0].key <= s.total ==> Due(FireFirst(s, device)) == Due(s) - 1
  {
    var first := s.pending[0];
    var asked := s.(pending := s.pending[1..], inHandler := true, status := SystemMode, fired := s.fired + [Fire(first.item, s.total)]);
    AllBehindNow(asked, device(first.item, s.total).requests);
  }

  // Each firing leaves one interrupt less that is due.
  lemma FiringUsesUp(s: Sim, device: Device)
    requires Future(device) && Sorted(s.pending)
    ensures CheckIfDue(s, device, false).1 ==> Due(CheckIfDue(s, device, false).0) < Due(s)
  {
    if CheckIfDue(s, device, false).1 {
      FireFirstSorted(s, device);
    }
  }

  // ------------------------------------------------------------------ invariant

  function Items(pending: seq<Keyed<Pending>>): (s: seq<Pending>)
    ensures |s| == |pending|
  {
    seq(|pending|, i requires 0 <= i < |pending| => pending[i].item)
  }

  function Whats(fired: seq<Fire>): (s: seq<Pending>)
    ensures |s| == |fired|
  {
    seq(|fired|, i requires 0 <= i < |fired| => fired[i].what)
  }

  // The list is sorted by the times the interrupts are for, and none of them is
  // overdue by more than slack.
  predicate Good(pending: seq<Keyed<Pending>>, total: nat, slack: nat) {
    && Sorted(pending)
    && (forall i :: 0 <= i < |pending| ==> pending[i].key == pending[i].item.when && pending[i].key + slack >= total)
  }

  predicate TicksAddUp(s: Sim) {
    s.total == s.idle + s.system + s.user
  }

  // Every interrupt scheduled is pending or has fired, and only once.
  predicate Conserved(s: Sim) {
    multiset(s.scheduled) == multiset(Items(s.pending)) + multiset(Whats(s.fired))
  }

  // Fired in the order of time, never early, and at most one system tick late.
  predicate OnTime(fired: seq<Fire>, total: nat) {
    && (forall i :: 0 <= i < |fired| ==> fired[i].what.when <= fired[i].at <= fired[i].what.when + SYSTEM_TICK)
    && (forall i :: 0 <= i < |fired| ==> fired[i].at <= total)
    && (forall i, j :: 0 <= i < j < |fired| ==> fired[i].at <= fired[j].at)
  }

  predicate Inv(s: Sim, slack: nat) {
    Good(s.pending, s.total, slack) && TicksAddUp(s) && Conserved(s) && OnTime(s.fired, s.total) && slack <= SYSTEM_TICK
  }

  lemma ItemsInserted(pending: seq<Keyed<Pending>>, e: Keyed<Pending>)
    ensures multiset(Items(Inserted(pending, e))) == multiset(Items(pending)) + multiset{e.item}
  {
    var p := Place(pending, e.key);
    assert Items(Inserted(pending, e)) == Items(pending)[..p] + [e.item] + Items(pending)[p..];
    assert Items(pending) == Items(pending)[..p] + Items(pending)[p..];
  }

  lemma InsertGood(pending: seq<Keyed<Pending>>, e: Keyed<Pending>, total: nat, slack: nat)
    requires Good(pending, total, slack) && e.key == e.item.when && e.key + slack >= total
    ensures Good(Inserted(pending, e), total, slack)
  {
    InsertSorted(pending, e);
    var p := Place(pending, e.key);
    var s := Inserted(pending, e);
    assert forall i :: 0 <= i < |s| ==> s[i] == if i < p then pending[i] else if i == p then e else pending[i - 1];
  }

  lemma TailGood(pending: seq<Keyed<Pending>>, total: nat, slack: nat)
    requires Good(pending, total, slack) && pending != []
    ensures Good(pending[1..], total, slack)
    ensures multiset(Items(pending)) == multiset{pending[0].item} + multiset(Items(pending[1..]))
  {
    assert Items(pending) == [pending[0].item] + Items(pending[1..]);
  }

  lemma ScheduleKeeps(s: Sim, r: Request, slack: nat)
    requires Inv(s, slack) && r.fromNow > 0
    ensures Inv(Schedule(s, r), slack)
  {
    var e, longer := Entry(r, s.total), Inserted(s.pending, Entry(r, s.total));
    assert Good(longer, s.total, slack) && multiset(Items(longer)) == multiset(Items(s.pending)) + multiset{e.item} by {
      InsertGood(s.pending, e, s.total, slack);
      ItemsInserted(s.pending, e);
    }
    assert Schedule(s, r) == s.(pending := longer, scheduled := s.scheduled + [e.item]);
  }

  lemma {:induction false} ScheduleAllKeeps(s: Sim, requests: seq<Request>, slack: nat)
    requires Inv(s, slack) && AllFuture(requests)
    ensures Inv(ScheduleAll(s, requests), slack)
    ensures var s' := ScheduleAll(s, requests);
      s' == s.(pending := s'.pending, scheduled := s'.scheduled)
    decreases |requests|
  {
    if requests != [] {
      ScheduleKeeps(s, requests[0], slack);
      ScheduleAllKeeps(Schedule(s, requests[0]), requests[1..], slack);
    }
  }

  // Taking the first interrupt off and recording that it fires now.
  lemma FirstFires(s: Sim, slack: nat)
    requires Inv(s, slack) && s.pending != [] && s.pending[0].key <= s.total
    ensures Inv(s.(pending := s.pending[1..], fired := s.fired + [Fire(s.pending[0].item, s.total)]), slack)
  {
    var first := s.pending[0];
    TailGood(s.pending, s.total, slack);
    assert Whats(s.fired + [Fire(first.item, s.total)]) == Whats(s.fired) + [first.item];
  }

  lemma FireFirstKeeps(s: Sim, device: Device, slack: nat)
    requires Future(device) && Inv(s, slack) && s.pending != [] && s.pending[0].key <= s.total
    ensures Inv(FireFirst(s, device), slack)
    ensures var s' := FireFirst(s, device);
      s'.status == s.status && s'.total == s.total && s'.level == s.level && !s'.inHandler
  {
    var first := s.pending[0];
    var taken := s.(pending := s.pending[1..], fired := s.fired + [Fire(first.item, s.total)]);
    FirstFires(s, slack);
    ScheduleAllKeeps(taken.(inHandler := true, status := SystemMode), device(first.item, s.total).requests, slack);
  }

  lemma PutBackKeeps(s: Sim, slack: nat)
    requires Inv(s, slack) && s.pending != []
    ensures Inv(PutBack(s), slack)
  {
    TailGood(s.pending, s.total, slack);
    InsertGood(s.pending[1..], s.pending[0], s.total, slack);
    ItemsInserted(s.pending[1..], s.pending[0]);
  }

  lemma SkipKeeps(s: Sim, slack: nat)
    requires Inv(s, slack) && s.pending != []
    ensures Inv(Skip(s), slack) && s.pending[0].key <= Skip(s).total
  {
  }

  lemma CheckKeeps(s: Sim, device: Device, advance: bool, slack: nat)
    requires Future(device) && Inv(s, slack)
    ensures Inv(CheckIfDue(s, device, advance).0, slack)
    ensures CheckIfDue(s, device, advance).0.status == s.status
  {
    if s.pending != [] {
      if s.pending[0].key > s.total && !advance {
        PutBackKeeps(s, slack);
      } else {
        SkipKeeps(s, slack);
        if LoneTimer(s) {
          PutBackKeeps(Skip(s), slack);
        } else {
          FireFirstKeeps(Skip(s), device, slack);
        }
      }
    }
  }

  // When the loop stops nothing is due, but for a lone timer on an idle machine.
  predicate NothingDue(s: Sim) {
    forall i :: 0 <= i < |s.pending| ==> s.pending[i].key > s.total
  }

  lemma StopsWhenDone(s: Sim, device: Device)
    requires Sorted(s.pending) && !CheckIfDue(s, device, false).1
    ensures NothingDue(CheckIfDue(s, device, false).0) || s.status == IdleMode
  {
    if s.pending != [] && s.pending[0].key > s.total {
      var first := s.pending[0];
      InsertSorted(s.pending[1..], first);
      assert forall i :: 0 <= i < |s.pending| ==> s.pending[0].key <= s.pending[i].key;
    }
  }

  lemma {:induction false} FireDueKeeps(s: Sim, device: Device, slack: nat)
    requires Future(device) && Inv(s, slack)
    ensures Inv(FireDue(s, device), slack) && FireDue(s, device).status == s.status
    ensures s.status != IdleMode ==> NothingDue(FireDue(s, device))
    decreases Due(s)
  {
    CheckKeeps(s, device, false, slack);
    FiringUsesUp(s, device);
    var (s', again) := CheckIfDue(s, device, false);
    if again {
      FireDueKeeps(s', device, slack);
    } else {
      StopsWhenDone(s, device);
    }
  }

  // ----------------------------------------------------------------------- runs

  // What the rest of the machine does to the clock, between two interrupts.
  datatype Event = Tick | ToUserMode | ToSystemMode | SetTo(now: Level) | Ask(r: Request) | GoIdle

  datatype Machine = Machine(sim: Sim, halted: bool)

  // The source's assertions.
  predicate Allowed(m: Machine, e: Event) {
    && !m.halted
    && (e.Ask? ==> e.r.fromNow > 0)
    && (e.GoIdle? ==> m.sim.level == IntOff)
  }

  function Next(m: Machine, device: Device, e: Event): Machine
    requires Future(device)
  {
    var s := m.sim;
    if !Sorted(s.pending) then m
    else
      match e
      case Tick => m.(sim := OneTick(s, device))
      case ToUserMode => m.(sim := s.(status := UserMode))
      case ToSystemMode => m.(sim := s.(status := SystemMode))
      case SetTo(now) => m.(sim := SetLevel(s, device, now))
      case Ask(r) => m.(sim := Schedule(s, r))
      case GoIdle => Machine(Idle(s, device).0, Idle(s, device).1)
  }

  // Between two events: nothing overdue, no handler running, and, unless it has
  // halted, the machine is not idle.
  predicate Steady(m: Machine) {
    Inv(m.sim, 0) && (m.sim.status == IdleMode ==> m.halted)
  }

  lemma AdvanceKeeps(s: Sim)
    requires Inv(s, 0)
    ensures Inv(Advance(s).(level := IntOff), SYSTEM_TICK)
  {
  }

  lemma TickEnds(s: Sim)
    requires Inv(s, SYSTEM_TICK) && NothingDue(s)
    ensures Inv(Switched(s.(level := IntOn)), 0) && NothingDue(Switched(s.(level := IntOn)))
  {
  }

  lemma TickKeeps(s: Sim, device: Device)
    requires Future(device) && Inv(s, 0) && s.status != IdleMode
    ensures Inv(OneTick(s, device), 0) && NothingDue(OneTick(s, device)) && OneTick(s, device).status == s.status
  {
    var ahead := Advance(s).(level := IntOff);
    AdvanceKeeps(s);
    FireDueKeeps(ahead, device, SYSTEM_TICK);
    TickEnds(FireDue(ahead, device));
  }

  lemma IdleKeeps(s: Sim, device: Device)
    requires Future(device) && Inv(s, 0)
    ensures Inv(Idle(s, device).0, 0)
    ensures Idle(s, device).0.status == IdleMode ==> Idle(s, device).1
  {
    var idle := s.(status := IdleMode);
    CheckKeeps(idle, device, true, 0);
    var (s', any) := CheckIfDue(idle, device, true);
    if any {
      FireDueKeeps(s', device, 0);
    }
  }

  lemma NextSteady(m: Machine, device: Device, e: Event)
    requires Future(device) && Steady(m) && Allowed(m, e)
    ensures Steady(Next(m, device, e))
  {
    match e
    case Tick => TickKeeps(m.sim, device);
    case ToUserMode =>
    case ToSystemMode =>
    case SetTo(now) =>
      if now == IntOn && m.sim.level == IntOff { TickKeeps(m.sim.(level := IntOn), device); }
    case Ask(r) => ScheduleKeeps(m.sim, r, 0);
    case GoIdle => IdleKeeps(m.sim, device);
  }

  ghost predicate IsRun(machines: seq<Machine>, device: Device, events: seq<Event>)
    requires Future(device)
  {
    && |machines| == |events| + 1 && machines[0] == Machine(START, false)
    && (forall i :: 0 <= i < |events| ==> Allowed(machines[i], events[i]) && machines[i + 1] == Next(machines[i], device, events[i]))
  }

  lemma {:induction false} RunSteady(machines: seq<Machine>, device: Device, events: seq<Event>, i: nat)
    requires Future(device) && IsRun(machines, device, events) && i <= |events|
    ensures Steady(machines[i])
    decreases i
  {
    if i > 0 {
      RunSteady(machines, device, events, i - 1);
      NextSteady(machines[i - 1], device, events[i - 1]);
    } else {
      assert Items([]) == [] && Whats([]) == [];
    }
  }

  // MAIN: over every run interrupts fire in the order of time, never before
  // their time and never more than one system tick after it.
  lemma FiredOnTime(machines: seq<Machine>, device: Device, events: seq<Event>, i: nat)
    requires Future(device) && IsRun(machines, device, events) && i <= |events|
    ensures OnTime(machines[i].sim.fired, machines[i].sim.total)
  {
    RunSteady(machines, device, events, i);
  }

  // MAIN: each interrupt asked for is pending or has fired, never both and
  // never twice; and the clock is the sum of its three parts.
  lemma FiredOnce(machines: seq<Machine>, device: Device, events: seq<Event>, i: nat)
    requires Future(device) && IsRun(machines, device, events) && i <= |events|
    ensures Conserved(machines[i].sim) && TicksAddUp(machines[i].sim)
  {
    RunSteady(machines, device, events, i);
  }

  // MAIN: a tick leaves nothing due unfired, and no later than the next tick
  // or idle period is anything overdue.
  lemma TickLeavesNothingDue(machines: seq<Machine>, device: Device, events: seq<Event>, i: nat)
    requires Future(device) && IsRun(machines, device, events) && i < |events| && events[i] == Tick
    ensures NothingDue(machines[i + 1].sim)
  {
    RunSteady(machines, device, events, i);
    TickKeeps(machines[i].sim, device);
  }
}
