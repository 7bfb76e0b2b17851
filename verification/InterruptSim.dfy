// The objects of the interrupt simulation, proved against Interrupts.  Pending
// interrupts are in a linked list.

module InterruptSim {
  import opened Basics
  import opened Lists
  import opened Interrupts

  class Statistics {
    var totalTicks: nat
    var idleTicks: nat
    var systemTicks: nat
    var userTicks: nat

    constructor ()
      ensures totalTicks == idleTicks == systemTicks == userTicks == 0
    {
      totalTicks, idleTicks, systemTicks, userTicks := 0, 0, 0, 0;
    }
  }

  lemma IdleCases(s: Sim, device: Device, s': Sim, any: bool)
    requires Future(device) && Sorted(s.pending) && (s', any) == Interrupts.CheckIfDue(s.(status := IdleMode), device, true)
    ensures Sorted(s'.pending) && s'.level == s.level
    ensures Interrupts.Idle(s, device) ==
      if any then (Interrupts.FireDue(s', device).(yieldOnReturn := false, status := SystemMode), false) else (s', true)
  {
    CheckKeepsSorted(s.(status := IdleMode), device, true);
  }

  // What CheckIfDue comes to, once the first interrupt is off the list.
  lemma CheckCases(s: Sim, device: Device, advance: bool, rest: seq<Keyed<Pending>>)
    requires s.pending != [] && rest == s.pending[1..]
    ensures s.pending[0].key > s.total && !advance ==>
      Interrupts.CheckIfDue(s, device, advance) == (s.(pending := Inserted(rest, s.pending[0])), false)
    ensures s.pending[0].key <= s.total || advance ==>
      Interrupts.CheckIfDue(s, device, advance) ==
        var s' := Skip(s);
        if s.status == IdleMode && rest == [] && s.pending[0].item.kind == TimerInt
        then (s'.(pending := Inserted(rest, s.pending[0])), false)
        else (Interrupts.Handle(s'.(pending := rest), device, s.pending[0].item), true)
  {
  }

  class Interrupt {
    var level: Level
    var inHandler: bool
    var yieldOnReturn: bool
    var status: Status
    const pending: List<Pending>
    const stats: Statistics
    const device: Device
    // history
    ghost var scheduled: seq<Pending>
    ghost var fired: seq<Fire>
    ghost var switches: seq<nat>

    // The list is its own.
    ghost predicate Valid()
      reads pending, pending.Repr
    {
      pending.Valid() && this !in pending.Repr && stats !in pending.Repr
    }

    ghost function Model(): Sim
      reads this, stats, pending
    {
      Sim(level, status, inHandler, yieldOnReturn, pending.Contents(),
          stats.totalTicks, stats.idleTicks, stats.systemTicks, stats.userTicks, scheduled, fired, switches)
    }

    constructor (device: Device)
      ensures Valid() && Model() == START && fresh(stats) && fresh(pending.Repr) && this.device == device
    {
      level := IntOff;
      pending := new List<Pending>();
      inHandler := false;
      yieldOnReturn := false;
      status := SystemMode;
      stats := new Statistics();
      this.device := device;
      scheduled, fired, switches := [], [], [];
    }

    method Schedule(r: Request)
      requires Valid() && r.fromNow > 0
      modifies this`scheduled, pending.Repr
      ensures Valid() && fresh(pending.Repr - old(pending.Repr))
      ensures Model() == Interrupts.Schedule(old(Model()), r)
    {
      var when := stats.totalTicks + r.fromNow;
      var toOccur := Pending(r.handler, r.arg, when, r.kind);
      pending.SortedInsert(toOccur, when);
      scheduled := scheduled + [toOccur];
    }

    // What a handler asks for.
    method ScheduleRequests(requests: seq<Request>)
      requires Valid() && AllFuture(requests)
      modifies this`scheduled, pending.Repr
      ensures Valid() && fresh(pending.Repr - old(pending.Repr))
      ensures Model() == ScheduleAll(old(Model()), requests)
    {
      ghost var end, m := ScheduleAll(Model(), requests), Model();
      var i := 0;
      while i < |requests|
        invariant 0 <= i <= |requests|
        invariant Valid() && fresh(pending.Repr - old(pending.Repr))
        invariant Model() == m && ScheduleAll(m, requests[i..]) == end
      {
        assert requests[i..][1..] == requests[i + 1..];
        m := Interrupts.Schedule(m, requests[i]);
        Schedule(requests[i]);
        i := i + 1;
      }
      assert requests[i..] == [];
    }

    // Runs the handler of an interrupt taken off the list.
    method Handle(toOccur: Pending)
      requires Valid() && Future(device)
      modifies this, pending.Repr
      ensures Valid() && fresh(pending.Repr - old(pending.Repr))
      ensures Model() == Interrupts.Handle(old(Model()), device, toOccur)
    {
      var was := EnterHandler(toOccur);
      var reaction := device(toOccur, stats.totalTicks);
      ScheduleRequests(reaction.requests);
      LeaveHandler(was, reaction.asksYield);
    }

    method EnterHandler(toOccur: Pending) returns (was: Status)
      requires Valid()
      modifies this`inHandler, this`status, this`fired
      ensures Valid() && was == old(status)
      ensures var s := old(Model());
        Model() == s.(inHandler := true, status := SystemMode, fired := s.fired + [Fire(toOccur, s.total)])
    {
      was := status;
      inHandler := true;
      status := SystemMode;
      fired := fired + [Fire(toOccur, stats.totalTicks)];
    }

    method LeaveHandler(was: Status, asksYield: bool)
      requires Valid()
      modifies this`inHandler, this`status, this`yieldOnReturn
      ensures Valid()
      ensures var s := old(Model());
        Model() == s.(status := was, inHandler := false, yieldOnReturn := s.yieldOnReturn || asksYield)
    {
      yieldOnReturn := yieldOnReturn || asksYield;
      status := was;
      inHandler := false;
    }

    // The first element of the list, taken off.
    method TakeFirst() returns (removed: Option<Keyed<Pending>>)
      requires Valid()
      modifies pending
      ensures Valid() && pending.Repr == old(pending.Repr)
      ensures var s := old(Model());
        && Model() == s.(pending := if s.pending == [] then [] else s.pending[1..])
        && removed == if s.pending == [] then None else Some(s.pending[0])
    {
      removed := pending.SortedRemove();
    }

    // And put back.
    method PutOn(toOccur: Pending, when: nat)
      requires Valid()
      modifies pending.Repr
      ensures Valid() && fresh(pending.Repr - old(pending.Repr))
      ensures Model() == old(Model()).(pending := Inserted(old(Model()).pending, Keyed(when, toOccur)))
    {
      pending.SortedInsert(toOccur, when);
    }

    // Fires the first pending interrupt, if it is due or the clock may advance.
    method CheckIfDue(advanceClock: bool) returns (any: bool)
      requires Valid() && Future(device) && level == IntOff
      modifies this, stats, pending.Repr
      ensures Valid() && fresh(pending.Repr - old(pending.Repr))
      ensures (Model(), any) == Interrupts.CheckIfDue(old(Model()), device, advanceClock)
    {
      ghost var s := Model();
      var removed := TakeFirst();
      if removed.None? {
        return false;
      }
      any := Decide(removed.value.item, removed.value.key, advanceClock, s);
    }

    // The idle clock runs on.
    method RunOn(when: nat)
      requires Valid() && when > stats.totalTicks
      modifies stats
      ensures Valid()
      ensures var s := old(Model());
        Model() == s.(idle := s.idle + (when - s.total), total := when)
    {
      stats.idleTicks := stats.idleTicks + (when - stats.totalTicks);
      stats.totalTicks := when;
    }

    // What to do with the interrupt taken off.
    method Decide(toOccur: Pending, when: nat, advanceClock: bool, ghost s: Sim) returns (any: bool)
      requires Valid() && Future(device) && level == IntOff
      requires s.pending != [] && s.pending[0] == Keyed(when, toOccur) && Model() == s.(pending := s.pending[1..])
      modifies this, stats, pending.Repr
      ensures Valid() && fresh(pending.Repr - old(pending.Repr))
      ensures (Model(), any) == Interrupts.CheckIfDue(s, device, advanceClock)
    {
      CheckCases(s, device, advanceClock, s.pending[1..]);
      if advanceClock && when > stats.totalTicks {
        RunOn(when);
      } else if when > stats.totalTicks {
        PutOn(toOccur, when);
        return false;
      }
      assert Model() == Skip(s).(pending := s.pending[1..]);
      if status == IdleMode && toOccur.kind == TimerInt && pending.IsEmpty() {
        PutOn(toOccur, when);
        return false;
      }
      Handle(toOccur);
      return true;
    }

    // while (CheckIfDue(false)) ;
    method FireDue()
      requires Valid() && Future(device) && Sorted(pending.Contents()) && level == IntOff
      modifies this, stats, pending.Repr
      ensures Valid() && fresh(pending.Repr - old(pending.Repr))
      ensures Model() == Interrupts.FireDue(old(Model()), device)
    {
      ghost var m := Model();
      ghost var end := Interrupts.FireDue(m, device);
      var again := true;
      while again
        invariant Valid() && fresh(pending.Repr - old(pending.Repr))
        invariant Model() == m && Sorted(m.pending) && m.level == IntOff
        invariant end == if again then Interrupts.FireDue(m, device) else m
        decreases again, Due(m)
      {
        CheckKeepsSorted(m, device, false);
        FiringUsesUp(m, device);
        again := CheckIfDue(false);
        m := Model();
      }
    }

    // The clock runs on by the tick of the present mode.
    method AdvanceClock()
      requires Valid()
      modifies stats
      ensures Valid() && Model() == Advance(old(Model()))
    {
      if status == SystemMode {
        stats.totalTicks := stats.totalTicks + SYSTEM_TICK;
        stats.systemTicks := stats.systemTicks + SYSTEM_TICK;
      } else {
        stats.totalTicks := stats.totalTicks + USER_TICK;
        stats.userTicks := stats.userTicks + USER_TICK;
      }
    }

    method ChangeLevel(now: Level)
      requires Valid()
      modifies this`level
      ensures Valid() && Model() == old(Model()).(level := now)
    {
      level := now;
    }

    // The end of a tick: the current thread yields if a handler asked for it.
    // What runs meanwhile is not modelled.
    method Switched()
      requires Valid()
      modifies this`yieldOnReturn, this`status, this`switches
      ensures Valid() && Model() == Interrupts.Switched(old(Model()))
    {
      var was := status;
      if yieldOnReturn {
        yieldOnReturn := false;
        status := SystemMode;
        switches := switches + [stats.totalTicks];
        status := was;
      }
    }

    method OneTick()
      requires Valid() && Future(device) && Sorted(pending.Contents())
      modifies this, stats, pending.Repr
      ensures Valid() && fresh(pending.Repr - old(pending.Repr))
      ensures Model() == Interrupts.OneTick(old(Model()), device)
    {
      AdvanceClock();
      ChangeLevel(IntOff);
      FireDue();
      ChangeLevel(IntOn);
      Switched();
    }

    method SetLevel(now: Level) returns (was: Level)
      requires Valid() && Future(device) && Sorted(pending.Contents()) && (now == IntOff || !inHandler)
      modifies this, stats, pending.Repr
      ensures Valid() && fresh(pending.Repr - old(pending.Repr))
      ensures was == old(level) && Model() == Interrupts.SetLevel(old(Model()), device, now)
    {
      was := level;
      ChangeLevel(now);
      if now == IntOn && was == IntOff {
        OneTick();
      }
    }

    method SetStatus(st: Status)
      requires Valid()
      modifies this`status
      ensures Valid() && Model() == old(Model()).(status := st)
    {
      status := st;
    }

    method Resume()
      requires Valid()
      modifies this`status, this`yieldOnReturn
      ensures Valid() && Model() == old(Model()).(yieldOnReturn := false, status := SystemMode)
    {
      yieldOnReturn := false;
      status := SystemMode;
    }

    // What else is due fires before the machine goes on.
    method GoOn()
      requires Valid() && Future(device) && Sorted(pending.Contents()) && level == IntOff
      modifies this, stats, pending.Repr
      ensures Valid() && fresh(pending.Repr - old(pending.Repr))
      ensures Model() == Interrupts.FireDue(old(Model()), device).(yieldOnReturn := false, status := SystemMode)
    {
      FireDue();
      Resume();
    }

    // True when the machine halts: nothing is left to wait for.
    method Idle() returns (halts: bool)
      requires Valid() && Future(device) && Sorted(pending.Contents()) && level == IntOff
      modifies this, stats, pending.Repr
      ensures Valid() && fresh(pending.Repr - old(pending.Repr))
      ensures (Model(), halts) == Interrupts.Idle(old(Model()), device)
    {
      ghost var s := Model();
      var any;
      SetStatus(IdleMode);
      CheckKeepsSorted(Model(), device, true);
      any := CheckIfDue(true);
      IdleCases(s, device, Model(), any);
      if any {
        GoOn();
      }
      halts := !any;
    }
  }
}
