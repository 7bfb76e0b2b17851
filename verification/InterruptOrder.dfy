// In which order interrupts fire: in the order of their times, and those for the
// same time in an order that depends on how often the list was looked at early.

module InterruptOrder {
  import opened Basics
  import opened Lists
  import opened Interrupts

  // -------------------------------------------------------- different times

  // What has fired was for no later time than what fired after it, or than what
  // is pending.
  predicate Ordered(pending: seq<Keyed<Pending>>, fired: seq<Fire>) {
    && (forall i, j :: 0 <= i < j < |fired| ==> fired[i].what.when <= fired[j].what.when)
    && (forall i, j :: 0 <= i < |fired| && 0 <= j < |pending| ==> fired[i].what.when <= pending[j].key)
  }

  lemma InsertOrdered(pending: seq<Keyed<Pending>>, e: Keyed<Pending>, fired: seq<Fire>)
    requires Ordered(pending, fired) && forall i :: 0 <= i < |fired| ==> fired[i].what.when <= e.key
    ensures Ordered(Inserted(pending, e), fired)
  {
    var p, s := Place(pending, e.key), Inserted(pending, e);
    assert forall j :: 0 <= j < |s| ==> s[j] == if j < p then pending[j] else if j == p then e else pending[j - 1];
  }

  lemma ScheduleOrdered(s: Sim, r: Request)
    requires Ordered(s.pending, s.fired) && OnTime(s.fired, s.total)
    ensures Ordered(Schedule(s, r).pending, s.fired)
  {
    InsertOrdered(s.pending, Entry(r, s.total), s.fired);
  }

  lemma {:induction false} ScheduleAllOrdered(s: Sim, requests: seq<Request>)
    requires Ordered(s.pending, s.fired) && OnTime(s.fired, s.total)
    ensures Ordered(ScheduleAll(s, requests).pending, s.fired) && ScheduleAll(s, requests).fired == s.fired
    decreases |requests|
  {
    if requests != [] {
      ScheduleOrdered(s, requests[0]);
      ScheduleAllOrdered(Schedule(s, requests[0]), requests[1..]);
    }
  }

  lemma FirstOrdered(s: Sim, slack: nat)
    requires Inv(s, slack) && Ordered(s.pending, s.fired) && s.pending != [] && s.pending[0].key <= s.total
    ensures Ordered(s.pending[1..], s.fired + [Fire(s.pending[0].item, s.total)])
  {
    var fired := s.fired + [Fire(s.pending[0].item, s.total)];
    assert forall j :: 0 <= j < |s.pending| ==> s.pending[0].key <= s.pending[j].key;
    assert fired[|s.fired|].what.when == s.pending[0].key;
  }

  lemma FireFirstOrdered(s: Sim, device: Device, slack: nat)
    requires Future(device) && Inv(s, slack) && Ordered(s.pending, s.fired) && s.pending != [] && s.pending[0].key <= s.total
    ensures Ordered(FireFirst(s, device).pending, FireFirst(s, device).fired)
  {
    var first := s.pending[0];
    var taken := s.(pending := s.pending[1..], fired := s.fired + [Fire(first.item, s.total)]);
    FirstOrdered(s, slack);
    FirstFires(s, slack);
    ScheduleAllOrdered(taken.(inHandler := true, status := SystemMode), device(first.item, s.total).requests);
  }

  lemma PutBackOrdered(s: Sim)
    requires Ordered(s.pending, s.fired) && s.pending != []
    ensures Ordered(PutBack(s).pending, s.fired)
  {
    InsertOrdered(s.pending[1..], s.pending[0], s.fired);
  }

  lemma CheckOrdered(s: Sim, device: Device, advance: bool, slack: nat)
    requires Future(device) && Inv(s, slack) && Ordered(s.pending, s.fired)
    ensures var s' := CheckIfDue(s, device, advance).0;
      Ordered(s'.pending, s'.fired)
  {
    if s.pending != [] {
      if s.pending[0].key > s.total && !advance {
        PutBackOrdered(s);
      } else {
        SkipKeeps(s, slack);
        PutBackOrdered(Skip(s));
        if !LoneTimer(s) {
          FireFirstOrdered(Skip(s), device, slack);
        }
      }
    }
  }

  lemma {:induction false} FireDueOrdered(s: Sim, device: Device, slack: nat)
    requires Future(device) && Inv(s, slack) && Ordered(s.pending, s.fired)
    ensures Ordered(FireDue(s, device).pending, FireDue(s, device).fired)
    decreases Due(s)
  {
    CheckKeeps(s, device, false, slack);
    CheckOrdered(s, device, false, slack);
    FiringUsesUp(s, device);
    var (s', again) := CheckIfDue(s, device, false);
    if again {
      FireDueOrdered(s', device, slack);
    }
  }

  lemma TickOrdered(s: Sim, device: Device)
    requires Future(device) && Inv(s, 0) && Ordered(s.pending, s.fired)
    ensures Ordered(OneTick(s, device).pending, OneTick(s, device).fired)
  {
    var ahead := Advance(s).(level := IntOff);
    AdvanceKeeps(s);
    FireDueOrdered(ahead, device, SYSTEM_TICK);
  }

  lemma IdleOrdered(s: Sim, device: Device)
    requires Future(device) && Inv(s, 0) && Ordered(s.pending, s.fired)
    ensures Ordered(Idle(s, device).0.pending, Idle(s, device).0.fired)
  {
    var idle := s.(status := IdleMode);
    CheckKeeps(idle, device, true, 0);
    CheckOrdered(idle, device, true, 0);
    var (s', any) := CheckIfDue(idle, device, true);
    if any {
      FireDueOrdered(s', device, 0);
    }
  }

  lemma NextOrdered(m: Machine, device: Device, e: Event)
    requires Future(device) && Steady(m) && Allowed(m, e) && Ordered(m.sim.pending, m.sim.fired)
    ensures Ordered(Next(m, device, e).sim.pending, Next(m, device, e).sim.fired)
  {
    match e
    case Tick => TickOrdered(m.sim, device);
    case ToUserMode =>
    case ToSystemMode =>
    case SetTo(now) =>
      if now == IntOn && m.sim.level == IntOff { TickOrdered(m.sim.(level := IntOn), device); }
    case Ask(r) => ScheduleOrdered(m.sim, r);
    case GoIdle => IdleOrdered(m.sim, device);
  }

  // MAIN: over every run interrupts fire in the order of the times they are for.
  lemma {:induction false} FiredInOrder(machines: seq<Machine>, device: Device, events: seq<Event>, i: nat)
    requires Future(device) && IsRun(machines, device, events) && i <= |events|
    ensures Ordered(machines[i].sim.pending, machines[i].sim.fired)
    decreases i
  {
    if i > 0 {
      FiredInOrder(machines, device, events, i - 1);
      RunSteady(machines, device, events, i - 1);
      NextOrdered(machines[i - 1], device, events[i - 1]);
    }
  }

  // ---------------------------------------------------------- the same time

  // The first one goes to the end, and k times over.
  function Turned<T>(s: seq<T>): seq<T>
    requires s != []
  {
    s[1..] + [s[0]]
  }

  function Rotated<T>(s: seq<T>, k: nat): (r: seq<T>)
    requires s != []
    ensures |r| == |s|
  {
    s[k % |s|..] + s[..k % |s|]
  }

  lemma NextRest(k: nat, n: nat)
    requires n > 0
    ensures (k + 1) % n == if k % n + 1 == n then 0 else k % n + 1
  {
    var q, r := k / n, k % n;
    assert k == n * q + r;
    if r + 1 == n {
      RestIs(k + 1, n, q + 1, 0);
    } else {
      RestIs(k + 1, n, q, r + 1);
    }
  }

  lemma RestIs(k: nat, n: nat, q: nat, r: nat)
    requires r < n && k == n * q + r
    ensures k % n == r
  {
    var d := k / n - q;
    assert k == n * (k / n) + k % n;
    assert n * d == r - k % n;
    assert d >= 1 ==> n * d >= n;
    assert d <= -1 ==> n * d <= 0 - n;
  }

  lemma TurnedOn<T>(s: seq<T>, k: nat)
    requires s != []
    ensures Turned(Rotated(s, k)) == Rotated(s, k + 1)
  {
    NextRest(k, |s|);
  }

  predicate NoRepeat<T(==)>(s: seq<T>) {
    forall i, j :: 0 <= i < j < |s| ==> s[i] != s[j]
  }

  // Different elements come back to their places exactly after whole rounds.
  lemma RotatedIsSame<T>(s: seq<T>, k: nat)
    requires s != [] && NoRepeat(s)
    ensures Rotated(s, k) == s <==> k % |s| == 0
  {
    if k % |s| != 0 {
      assert Rotated(s, k)[0] == s[k % |s|];
    }
  }

  // The first g are for time w, and the others for later.
  predicate Group(pending: seq<Keyed<Pending>>, w: nat, g: nat) {
    && 0 < g <= |pending|
    && (forall i :: 0 <= i < g ==> pending[i].key == w) && (forall i :: g <= i < |pending| ==> pending[i].key > w)
  }

  // A look at the list before its time turns the first group.
  lemma EarlyLook(s: Sim, w: nat, g: nat)
    requires Group(s.pending, w, g)
    ensures PutBack(s).pending == Turned(s.pending[..g]) + s.pending[g..]
    ensures PutBack(s).pending[..g] == Turned(s.pending[..g]) && PutBack(s).pending[g..] == s.pending[g..]
    ensures Group(PutBack(s).pending, w, g)
  {
    var p := s.pending;
    PlaceIs(p[1..], w, g - 1);
    assert p[1..][..g - 1] == p[..g][1..] && p[1..][g - 1..] == p[g..];
    assert PutBack(s).pending == (p[..g][1..] + [p[0]]) + p[g..];
  }

  // MAIN: an early look leaves the list as it was exactly when all that have the
  // first time are the same; one alone is.
  lemma EarlyLookIff(s: Sim, w: nat, g: nat)
    requires Group(s.pending, w, g)
    ensures PutBack(s).pending == s.pending <==> forall i :: 0 <= i < g ==> s.pending[i] == s.pending[0]
  {
    var p := s.pending;
    EarlyLook(s, w, g);
    assert p == p[..g] + p[g..];
    if PutBack(s).pending == p {
      forall i | 0 <= i < g
        ensures p[i] == p[0]
      {
        AllSame(p[..g], i);
      }
    }
    if forall i :: 0 <= i < g ==> p[i] == p[0] {
      TurnedSame(p[..g]);
    }
  }

  lemma TurnedSame<T>(s: seq<T>)
    requires s != [] && forall i :: 0 <= i < |s| ==> s[i] == s[0]
    ensures Turned(s) == s
  {
  }

  lemma {:induction false} AllSame<T>(s: seq<T>, i: nat)
    requires s != [] && Turned(s) == s && i < |s|
    ensures s[i] == s[0]
    decreases i
  {
    if i > 0 {
      AllSame(s, i - 1);
      assert Turned(s)[i - 1] == s[i];
    }
  }

  lemma EarlyTick(s: Sim, device: Device, w: nat, g: nat)
    requires Future(device) && Sorted(s.pending) && Group(s.pending, w, g) && Advance(s).total < w
    ensures var s' := OneTick(s, device);
      && s'.total == Advance(s).total && s'.fired == s.fired && Group(s'.pending, w, g)
      && s'.pending[..g] == Turned(s.pending[..g]) && s'.pending[g..] == s.pending[g..]
  {
    var ahead := Advance(s).(level := IntOff);
    EarlyLook(ahead, w, g);
    assert CheckIfDue(ahead, device, false) == (PutBack(ahead), false);
  }

  predicate Ticks(events: seq<Event>, i: nat, k: nat) {
    i + k <= |events| && forall t :: i <= t < i + k ==> events[t] == Tick
  }

  // t comes k early looks after s.
  predicate TurnedBy(s: Sim, t: Sim, w: nat, g: nat, k: nat) {
    Group(s.pending, w, g) && Shown(t, w, g) == Some((s.fired, Rotated(s.pending[..g], k), s.pending[g..]))
  }

  // What has fired, the first group and the others.
  function Shown(t: Sim, w: nat, g: nat): Option<(seq<Fire>, seq<Keyed<Pending>>, seq<Keyed<Pending>>)> {
    if Group(t.pending, w, g) then Some((t.fired, t.pending[..g], t.pending[g..])) else None
  }

  lemma OneMoreTurn(s: Sim, t: Sim, t': Sim, device: Device, w: nat, g: nat, k: nat)
    requires Future(device) && TurnedBy(s, t, w, g, k) && Sorted(t.pending) && Advance(t).total < w && t' == OneTick(t, device)
    ensures TurnedBy(s, t', w, g, k + 1)
  {
    EarlyTick(t, device, w, g);
    TurnedOn(s.pending[..g], k);
  }

  // The k machines after i come by ticks.
  predicate TickRun(machines: seq<Machine>, device: Device, i: nat, k: nat)
    requires Future(device) && i + k < |machines|
    decreases k
  {
    k == 0 ||
      var s, s' := machines[i + k - 1].sim, machines[i + k].sim;
      TickRun(machines, device, i, k - 1) && Sorted(s.pending) && s' == OneTick(s, device) && s'.total == Advance(s).total > s.total
  }

  lemma {:induction false} TicksRun(machines: seq<Machine>, device: Device, events: seq<Event>, i: nat, k: nat)
    requires Future(device) && IsRun(machines, device, events) && Ticks(events, i, k)
    ensures TickRun(machines, device, i, k)
    decreases k
  {
    if k > 0 {
      TicksRun(machines, device, events, i, k - 1);
      AfterTick(machines, device, events, i + k - 1);
    }
  }

  lemma {:induction false} TurnedInRun(machines: seq<Machine>, device: Device, i: nat, k: nat, w: nat, g: nat)
    requires Future(device) && i + k < |machines| && TickRun(machines, device, i, k)
    requires Group(machines[i].sim.pending, w, g) && machines[i + k].sim.total < w
    ensures TurnedBy(machines[i].sim, machines[i + k].sim, w, g, k)
    decreases k
  {
    var s := machines[i].sim;
    if k > 0 {
      TurnedInRun(machines, device, i, k - 1, w, g);
      OneMoreTurn(s, machines[i + (k - 1)].sim, machines[i + k].sim, device, w, g, k - 1);
    } else {
      assert Rotated(s.pending[..g], 0) == s.pending[..g];
    }
  }

  // k ticks before its time turn the group k times.
  lemma EarlyTicks(machines: seq<Machine>, device: Device, events: seq<Event>, i: nat, k: nat, w: nat, g: nat)
    requires Future(device) && IsRun(machines, device, events) && Ticks(events, i, k)
    requires Group(machines[i].sim.pending, w, g) && machines[i + k].sim.total < w
    ensures TurnedBy(machines[i].sim, machines[i + k].sim, w, g, k)
  {
    TicksRun(machines, device, events, i, k);
    TurnedInRun(machines, device, i, k, w, g);
  }

  lemma AfterTick(machines: seq<Machine>, device: Device, events: seq<Event>, i: nat)
    requires Future(device) && IsRun(machines, device, events) && i < |events| && events[i] == Tick
    ensures var s := machines[i].sim;
      && Sorted(s.pending) && s.status != IdleMode && machines[i + 1].sim == OneTick(s, device)
      && machines[i + 1].sim.total == Advance(s).total > s.total
  {
    RunSteady(machines, device, events, i);
    TickTotal(machines[i].sim, device);
  }

  lemma {:induction false} FireDueTotal(s: Sim, device: Device)
    requires Future(device) && Sorted(s.pending)
    ensures FireDue(s, device).total == s.total
    decreases Due(s)
  {
    CheckKeepsSorted(s, device, false);
    FiringUsesUp(s, device);
    CheckFires(s, device);
    var (s', again) := CheckIfDue(s, device, false);
    if again {
      FireDueTotal(s', device);
    }
  }

  lemma TickTotal(s: Sim, device: Device)
    requires Future(device) && Sorted(s.pending)
    ensures OneTick(s, device).total == Advance(s).total > s.total
  {
    FireDueTotal(Advance(s).(level := IntOff), device);
  }

  // The handler's requests go behind all that is due.
  lemma {:induction false} ScheduleAllBehind(s: Sim, requests: seq<Request>, n: nat)
    requires Sorted(s.pending) && AllFuture(requests) && n <= Due(s)
    ensures var s' := ScheduleAll(s, requests);
      s'.fired == s.fired && s'.total == s.total && n <= |s'.pending| && s'.pending[..n] == s.pending[..n]
    decreases |requests|
  {
    if requests != [] {
      var e := Entry(requests[0], s.total);
      OneBehindNow(s, requests[0]);
      LargerIsBehind(s.pending, s.total, e.key);
      assert Inserted(s.pending, e)[..n] == s.pending[..n];
      ScheduleAllBehind(Schedule(s, requests[0]), requests[1..], n);
    }
  }

  lemma LargerIsBehind<T>(s: seq<Keyed<T>>, key: nat, larger: nat)
    requires key <= larger
    ensures Place(s, key) <= Place(s, larger)
  {
  }

  // One firing: the first is fired, and the others that are due stay in place.
  lemma OneFires(s: Sim, device: Device, n: nat)
    requires Future(device) && Sorted(s.pending) && 0 < n <= Due(s)
    ensures var s' := FireFirst(s, device);
      && s'.fired == s.fired + [Fire(s.pending[0].item, s.total)] && s'.total == s.total && s'.status == s.status
      && Sorted(s'.pending) && n - 1 <= Due(s') && s'.pending[..n - 1] == s.pending[1..n]
  {
    var first := s.pending[0];
    var taken := s.(pending := s.pending[1..], inHandler := true, status := SystemMode, fired := s.fired + [Fire(first.item, s.total)]);
    FireFirstSorted(s, device);
    assert Due(taken) == Due(s) - 1;
    ScheduleAllBehind(taken, device(first.item, s.total).requests, n - 1);
    assert s.pending[1..][..n - 1] == s.pending[1..n];
  }

  lemma CheckFires(s: Sim, device: Device)
    requires Future(device) && Sorted(s.pending)
    ensures var s' := CheckIfDue(s, device, false).0;
      s'.total == s.total && s'.status == s.status && s.fired <= s'.fired
  {
    if CheckIfDue(s, device, false).1 {
      OneFires(s, device, 1);
    }
  }

  lemma {:induction false} FiredGrows(s: Sim, device: Device)
    requires Future(device) && Sorted(s.pending)
    ensures s.fired <= FireDue(s, device).fired
    decreases Due(s)
  {
    CheckKeepsSorted(s, device, false);
    FiringUsesUp(s, device);
    CheckFires(s, device);
    var (s', again) := CheckIfDue(s, device, false);
    if again {
      FiredGrows(s', device);
    }
  }

  // These fire now, in this order.
  function Fires(pending: seq<Keyed<Pending>>, at: nat): (f: seq<Fire>)
    ensures |f| == |pending|
  {
    seq(|pending|, i requires 0 <= i < |pending| => Fire(pending[i].item, at))
  }

  lemma FiresFirst(pending: seq<Keyed<Pending>>, at: nat)
    requires pending != []
    ensures Fires(pending, at) == [Fire(pending[0].item, at)] + Fires(pending[1..], at)
  {
  }

  // All that is due fires in the order of the list, before anything else.
  lemma {:induction false} DueFires(s: Sim, device: Device, n: nat)
    requires Future(device) && Sorted(s.pending) && n <= Due(s) && s.status != IdleMode
    ensures s.fired + Fires(s.pending[..n], s.total) <= FireDue(s, device).fired
    decreases n
  {
    if n == 0 {
      FiredGrows(s, device);
      assert s.fired + Fires(s.pending[..0], s.total) == s.fired;
    } else {
      var s' := FireFirst(s, device);
      OneFires(s, device, n);
      assert CheckIfDue(s, device, false) == (s', true);
      DueFires(s', device, n - 1);
      FiresFirst(s.pending[..n], s.total);
      assert s.pending[..n][1..] == s'.pending[..n - 1];
      assert s.fired + Fires(s.pending[..n], s.total) == s'.fired + Fires(s'.pending[..n - 1], s.total);
    }
  }

  lemma DueTick(s: Sim, device: Device, w: nat, g: nat)
    requires Future(device) && Sorted(s.pending) && Group(s.pending, w, g) && Advance(s).total >= w && s.status != IdleMode
    ensures s.fired + Fires(s.pending[..g], Advance(s).total) <= OneTick(s, device).fired
  {
    var ahead := Advance(s).(level := IntOff);
    assert Due(ahead) >= g;
    DueFires(ahead, device, g);
  }

  // MAIN: interrupts for the same time that are looked at too early k times fire
  // in their order turned k times; so, being different, they fire in the order
  // of the list exactly when k is a multiple of their number.
  lemma SameTimeOrder(machines: seq<Machine>, device: Device, events: seq<Event>, i: nat, k: nat, w: nat, g: nat)
    requires Future(device) && IsRun(machines, device, events) && Ticks(events, i, k + 1)
    requires Group(machines[i].sim.pending, w, g) && machines[i + k].sim.total < w <= machines[i + k + 1].sim.total
    ensures var s, t, group := machines[i].sim, machines[i + k + 1].sim, machines[i].sim.pending[..g];
      && s.fired + Fires(Rotated(group, k), t.total) <= t.fired
      && (NoRepeat(group) ==> (Rotated(group, k) == group <==> k % g == 0))
  {
    EarlyTicks(machines, device, events, i, k, w, g);
    AfterTick(machines, device, events, i + k);
    DueTick(machines[i + k].sim, device, w, g);
    if NoRepeat(machines[i].sim.pending[..g]) {
      RotatedIsSame(machines[i].sim.pending[..g], k);
    }
  }

  // Two requests made at the start.
  lemma TwoRequests(device: Device, x: Keyed<Pending>, y: Keyed<Pending>) returns (s: Sim)
    requires x.key <= y.key
    ensures s == START.(pending := [x, y], scheduled := [x.item, y.item]) && Sorted(s.pending)
    ensures Inserted([], x) == [x] && Inserted([x], y) == [x, y]
  {
    var none: seq<Keyed<Pending>> := [];
    assert Inserted(none, x) == [x];
    PlaceIs([x], y.key, 1);
    s := START.(pending := [x, y], scheduled := [x.item, y.item]);
  }

  lemma TwoTicks(s: Sim, device: Device, x: Keyed<Pending>, y: Keyed<Pending>)
    requires Future(device) && s.pending == [x, y] && x.key == y.key && s.fired == [] && s.status == SystemMode
    requires s.total + SYSTEM_TICK < x.key <= s.total + 2 * SYSTEM_TICK
    ensures Sorted(OneTick(s, device).pending)
    ensures var s', now := OneTick(OneTick(s, device), device), s.total + 2 * SYSTEM_TICK;
      [Fire(y.item, now), Fire(x.item, now)] <= s'.fired
  {
    var s1, now := OneTick(s, device), s.total + 2 * SYSTEM_TICK;
    CheckKeepsSortedTick(s, device);
    TickStatus(s, device);
    EarlyTick(s, device, x.key, 2);
    assert s1.pending[..2] == [y, x];
    DueTick(s1, device, x.key, 2);
    assert [] + Fires([y, x], now) == [Fire(y.item, now), Fire(x.item, now)];
  }

  lemma TickStatus(s: Sim, device: Device)
    requires Future(device) && Sorted(s.pending)
    ensures OneTick(s, device).status == s.status
  {
    FireDueStatus(Advance(s).(level := IntOff), device);
  }

  lemma {:induction false} FireDueStatus(s: Sim, device: Device)
    requires Future(device) && Sorted(s.pending)
    ensures FireDue(s, device).status == s.status
    decreases Due(s)
  {
    CheckKeepsSorted(s, device, false);
    FiringUsesUp(s, device);
    CheckFires(s, device);
    var (s', again) := CheckIfDue(s, device, false);
    if again {
      FireDueStatus(s', device);
    }
  }

  // Two requests for the same time, and a tick before it: whatever the handlers
  // ask for, the second request fires first.
  lemma SameTimeSwaps(device: Device, a: Request, b: Request, fromNow: nat) returns (machines: seq<Machine>)
    requires Future(device) && a.fromNow == b.fromNow == fromNow && SYSTEM_TICK < fromNow <= 2 * SYSTEM_TICK
    ensures IsRun(machines, device, [Ask(a), Ask(b), Tick, Tick])
    ensures var now := 2 * SYSTEM_TICK;
      [Fire(Entry(b, 0).item, now), Fire(Entry(a, 0).item, now)] <= machines[4].sim.fired
  {
    var x, y := Entry(a, 0), Entry(b, 0);
    var s2 := TwoRequests(device, x, y);
    var s1 := START.(pending := [x], scheduled := [x.item]);
    TwoTicks(s2, device, x, y);
    var s3 := OneTick(s2, device);
    var s4 := OneTick(s3, device);
    machines := [Machine(START, false), Machine(s1, false), Machine(s2, false), Machine(s3, false), Machine(s4, false)];
    assert Next(machines[0], device, Ask(a)) == machines[1];
    assert Next(machines[1], device, Ask(b)) == machines[2];
  }

  lemma CheckKeepsSortedTick(s: Sim, device: Device)
    requires Future(device) && Sorted(s.pending)
    ensures Sorted(OneTick(s, device).pending)
  {
    FireDueSorted(Advance(s).(level := IntOff), device);
  }

  lemma {:induction false} FireDueSorted(s: Sim, device: Device)
    requires Future(device) && Sorted(s.pending)
    ensures Sorted(FireDue(s, device).pending)
    decreases Due(s)
  {
    CheckKeepsSorted(s, device, false);
    FiringUsesUp(s, device);
    var (s', again) := CheckIfDue(s, device, false);
    if again {
      FireDueSorted(s', device);
    }
  }
}
