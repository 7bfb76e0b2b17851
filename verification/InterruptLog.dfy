// What the events of a run and the handlers they set off ask for: the history of
// requests, the clock, the switches of contexts and the halt, told from the
// events and the firings alone.

module InterruptLog {
  import opened Lists
  import opened Interrupts

  // ----------------------------------------------------------- what is asked for

  // Requests made at a time.
  function Made(requests: seq<Request>, now: nat): (s: seq<Pending>)
    ensures |s| == |requests|
  {
    seq(|requests|, i requires 0 <= i < |requests| => MadeOne(requests[i], now))
  }

  function MadeOne(r: Request, now: nat): Pending {
    Pending(r.handler, r.arg, now + r.fromNow, r.kind)
  }

  // What the handlers ask for, one firing after the other.
  function AskedBy(fired: seq<Fire>, device: Device): seq<Pending>
    decreases |fired|
  {
    if fired == [] then []
    else Made(device(fired[0].what, fired[0].at).requests, fired[0].at) + AskedBy(fired[1..], device)
  }

  predicate AnyYield(fired: seq<Fire>, device: Device) {
    exists i :: 0 <= i < |fired| && device(fired[i].what, fired[i].at).asksYield
  }

  lemma {:induction false} AskedBoth(a: seq<Fire>, b: seq<Fire>, device: Device)
    ensures AskedBy(a + b, device) == AskedBy(a, device) + AskedBy(b, device)
    decreases |a|
  {
    if a == [] {
      assert a + b == b;
    } else {
      assert (a + b)[1..] == a[1..] + b;
      AskedBoth(a[1..], b, device);
    }
  }

  lemma YieldBoth(a: seq<Fire>, b: seq<Fire>, device: Device)
    ensures AnyYield(a + b, device) <==> AnyYield(a, device) || AnyYield(b, device)
  {
    if i :| 0 <= i < |a| && device(a[i].what, a[i].at).asksYield {
      assert (a + b)[i] == a[i];
    }
    if i :| 0 <= i < |b| && device(b[i].what, b[i].at).asksYield {
      assert (a + b)[|a| + i] == b[i];
    }
  }

  // s' comes after these firings from s: their requests are scheduled, a switch
  // is due if one of them asks for it, and the clock has not moved.
  ghost predicate After(s: Sim, fires: seq<Fire>, s': Sim, device: Device) {
    && s'.fired == s.fired + fires
    && s'.scheduled == s.scheduled + AskedBy(fires, device)
    && (s'.yieldOnReturn <==> s.yieldOnReturn || AnyYield(fires, device))
    && SameClock(s, s') && s'.switches == s.switches && s'.status == s.status && s'.level == s.level
  }

  predicate SameClock(s: Sim, s': Sim) {
    s'.total == s.total && s'.idle == s.idle && s'.system == s.system && s'.user == s.user
  }

  lemma AfterNone(s: Sim, s': Sim, device: Device)
    requires s' == s.(pending := s'.pending)
    ensures After(s, [], s', device)
  {
    assert s.fired + [] == s.fired && s.scheduled + [] == s.scheduled;
  }

  lemma AfterBoth(s: Sim, a: seq<Fire>, m: Sim, b: seq<Fire>, s': Sim, device: Device)
    requires After(s, a, m, device) && After(m, b, s', device)
    ensures After(s, a + b, s', device)
  {
    AskedBoth(a, b, device);
    YieldBoth(a, b, device);
    Associative(s.fired, a, b);
    Associative(s.scheduled, AskedBy(a, device), AskedBy(b, device));
  }

  lemma MadeFirst(requests: seq<Request>, now: nat)
    requires requests != []
    ensures Made(requests, now) == [MadeOne(requests[0], now)] + Made(requests[1..], now)
  {
    var rest := requests[1..];
    assert forall i :: 0 <= i < |rest| ==> rest[i] == requests[i + 1];
  }

  lemma Associative<T>(a: seq<T>, b: seq<T>, c: seq<T>)
    ensures a + b + c == a + (b + c)
  {
  }

  lemma {:induction false} ScheduleAllMakes(s: Sim, requests: seq<Request>)
    ensures ScheduleAll(s, requests) ==
      s.(pending := ScheduleAll(s, requests).pending, scheduled := s.scheduled + Made(requests, s.total))
    decreases |requests|
  {
    if requests == [] {
      assert s.scheduled + [] == s.scheduled;
    } else {
      var s1 := Schedule(s, requests[0]);
      assert s1 == s.(pending := s1.pending, scheduled := s.scheduled + [Entry(requests[0], s.total).item]);
      ScheduleAllMakes(s1, requests[1..]);
      MadeFirst(requests, s.total);
      Associative(s.scheduled, [Entry(requests[0], s.total).item], Made(requests[1..], s.total));
    }
  }

  lemma FireFirstAfter(s: Sim, device: Device)
    requires s.pending != []
    ensures After(s, [Fire(s.pending[0].item, s.total)], FireFirst(s, device), device)
  {
    var f := Fire(s.pending[0].item, s.total);
    var reaction := device(f.what, f.at);
    var taken := s.(pending := s.pending[1..], inHandler := true, status := SystemMode, fired := s.fired + [f]);
    ScheduleAllMakes(taken, reaction.requests);
    assert AskedBy([f][1..], device) == [];
    assert Made(reaction.requests, s.total) + [] == Made(reaction.requests, s.total);
    assert [f][0] == f;
  }

  lemma {:induction false} FireDueAfter(s: Sim, device: Device) returns (fires: seq<Fire>)
    requires Future(device) && Sorted(s.pending)
    ensures After(s, fires, FireDue(s, device), device)
    decreases Due(s)
  {
    CheckKeepsSorted(s, device, false);
    FiringUsesUp(s, device);
    var (s', again) := CheckIfDue(s, device, false);
    if again {
      FireFirstAfter(s, device);
      var rest := FireDueAfter(s', device);
      fires := [Fire(s.pending[0].item, s.total)] + rest;
      AfterBoth(s, [Fire(s.pending[0].item, s.total)], s', rest, FireDue(s, device), device);
    } else {
      AfterNone(s, s', device);
      fires := [];
    }
  }

  // ------------------------------------------------------------- a tick, an idle

  // What a tick does to the clock and to the levels, whatever fires.
  ghost predicate Ticked(s: Sim, fires: seq<Fire>, s': Sim, device: Device) {
    && s'.fired == s.fired + fires && s'.scheduled == s.scheduled + AskedBy(fires, device)
    && s'.total == s.total + (if s.status == SystemMode then 10 else 1)
    && s'.system == s.system + (if s.status == SystemMode then 10 else 0)
    && s'.user == s.user + (if s.status == SystemMode then 0 else 1)
    && s'.idle == s.idle && s'.level == IntOn && s'.status == s.status
    && s'.switches == s.switches + (if AnyYield(fires, device) then [s'.total] else [])
  }

  lemma TickDoes(s: Sim, device: Device) returns (fires: seq<Fire>)
    requires Future(device) && Sorted(s.pending) && !s.yieldOnReturn
    ensures Ticked(s, fires, OneTick(s, device), device) && !OneTick(s, device).yieldOnReturn
  {
    fires := FireDueAfter(Advance(s).(level := IntOff), device);
    assert s.switches + [] == s.switches;
  }

  // The machine has nothing to wait for.
  predicate NothingToCome(s: Sim) {
    s.pending == [] || (|s.pending| == 1 && s.pending[0].item.kind == TimerInt)
  }

  // The clock runs on to the first pending interrupt, if any.
  predicate RanOn(s: Sim, s': Sim) {
    && s'.total == (if s.pending != [] && s.pending[0].key > s.total then s.pending[0].key else s.total)
    && s'.idle == s.idle + (s'.total - s.total) && s'.system == s.system && s'.user == s.user
  }

  // Idle: the machine halts when nothing is to come; else the clock runs on to
  // the first interrupt, which fires, and so does what else is due then.
  ghost predicate Idled(s: Sim, fires: seq<Fire>, s': Sim, halts: bool, device: Device) {
    && s'.fired == s.fired + fires && s'.scheduled == s.scheduled + AskedBy(fires, device)
    && RanOn(s, s') && s'.level == s.level && s'.switches == s.switches
    && (halts <==> NothingToCome(s))
    && (if halts then fires == [] else fires != [] && fires[0] == Fire(s.pending[0].item, s'.total) && s'.status == SystemMode)
  }

  lemma IdleDoes(s: Sim, device: Device) returns (fires: seq<Fire>)
    requires Future(device) && Sorted(s.pending) && !s.yieldOnReturn
    ensures Idled(s, fires, Idle(s, device).0, Idle(s, device).1, device) && !Idle(s, device).0.yieldOnReturn
  {
    var idle := s.(status := IdleMode);
    CheckKeepsSorted(idle, device, true);
    fires := [];
    assert s.fired + [] == s.fired && s.scheduled + [] == s.scheduled;
    if !NothingToCome(s) {
      var skipped := Skip(idle);
      var f := [Fire(s.pending[0].item, skipped.total)];
      FireFirstAfter(skipped, device);
      var rest := FireDueAfter(FireFirst(skipped, device), device);
      AfterBoth(skipped, f, FireFirst(skipped, device), rest, FireDue(FireFirst(skipped, device), device), device);
      fires := f + rest;
    }
  }

  // ------------------------------------------------------------------------ runs

  // The firings of one event.
  function FiredIn(m: Machine, m': Machine): seq<Fire> {
    if |m.sim.fired| <= |m'.sim.fired| then m'.sim.fired[|m.sim.fired|..] else []
  }

  // What is asked for during one event: by the event itself, then by the
  // handlers that fire.
  function AskedIn(m: Machine, e: Event, m': Machine, device: Device): seq<Pending> {
    (if e.Ask? then Made([e.r], m.sim.total) else []) + AskedBy(FiredIn(m, m'), device)
  }

  // And during the first i events of a run.
  function Asked(machines: seq<Machine>, device: Device, events: seq<Event>, i: nat): seq<Pending>
    requires i < |machines| && i <= |events|
    decreases i
  {
    if i == 0 then [] else Asked(machines, device, events, i - 1) + AskedIn(machines[i - 1], events[i - 1], machines[i], device)
  }

  predicate IsTick(s: Sim, e: Event) {
    e.Tick? || (e.SetTo? && e.now == IntOn && s.level == IntOff)
  }

  // What an event does: a tick, an idle period, or one change without firings.
  ghost predicate Does(m: Machine, e: Event, m': Machine, device: Device) {
    var s, s' := m.sim, m'.sim;
    var fires := FiredIn(m, m');
    && s'.scheduled == s.scheduled + AskedIn(m, e, m', device)
    && s'.fired == s.fired + fires
    && (IsTick(s, e) ==> Ticked(s, fires, s', device) && !m'.halted)
    && (e.GoIdle? ==> Idled(s, fires, s', m'.halted, device))
    && (!IsTick(s, e) && !e.GoIdle? ==> fires == [] && SameClock(s, s') && s'.switches == s.switches && !m'.halted)
    && (e.SetTo? ==> s'.level == e.now)
  }

  lemma Fired(m: Machine, m': Machine, fires: seq<Fire>)
    requires m'.sim.fired == m.sim.fired + fires
    ensures FiredIn(m, m') == fires
  {
  }

  lemma NextDoes(m: Machine, device: Device, e: Event)
    requires Future(device) && Steady(m) && Allowed(m, e) && !m.sim.yieldOnReturn
    ensures Does(m, e, Next(m, device, e), device) && !Next(m, device, e).sim.yieldOnReturn
  {
    var s, m' := m.sim, Next(m, device, e);
    assert Sorted(s.pending);
    var fires: seq<Fire> := [];
    assert s.fired + [] == s.fired && s.scheduled + [] == s.scheduled;
    assert AskedBy([], device) == [];
    if IsTick(s, e) {
      fires := TickDoes(s.(level := if e.Tick? then s.level else IntOn), device);
    } else if e.GoIdle? {
      fires := IdleDoes(s, device);
    } else if e.Ask? {
      assert Made([e.r], s.total) + [] == [Entry(e.r, s.total).item];
    }
    Fired(m, m', fires);
    assert [] + AskedBy(fires, device) == AskedBy(fires, device);
  }

  lemma {:induction false} RunQuiet(machines: seq<Machine>, device: Device, events: seq<Event>, i: nat)
    requires Future(device) && IsRun(machines, device, events) && i <= |events|
    ensures !machines[i].sim.yieldOnReturn
    decreases i
  {
    if i > 0 {
      RunQuiet(machines, device, events, i - 1);
      RunSteady(machines, device, events, i - 1);
      NextDoes(machines[i - 1], device, events[i - 1]);
    }
  }

  // MAIN: in every run each event does this to the clock, the level, the
  // switches of contexts and the halt.
  lemma EventDoes(machines: seq<Machine>, device: Device, events: seq<Event>, i: nat)
    requires Future(device) && IsRun(machines, device, events) && i < |events|
    ensures Does(machines[i], events[i], machines[i + 1], device)
  {
    RunQuiet(machines, device, events, i);
    RunSteady(machines, device, events, i);
    NextDoes(machines[i], device, events[i]);
  }

  // MAIN: after any run exactly these have been scheduled, in this order: what
  // the events asked for, and, as each interrupt fired, what its handler asked
  // for, each for the time of asking and the time it gave from then.
  lemma {:induction false} ScheduledIsAsked(machines: seq<Machine>, device: Device, events: seq<Event>, i: nat)
    requires Future(device) && IsRun(machines, device, events) && i <= |events|
    ensures machines[i].sim.scheduled == Asked(machines, device, events, i)
    decreases i
  {
    if i > 0 {
      ScheduledIsAsked(machines, device, events, i - 1);
      EventDoes(machines, device, events, i - 1);
    }
  }
}
