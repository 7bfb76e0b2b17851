// Semaphores and locks under every schedule.  With interrupts off, P runs in
// pieces: it looks at the value and either takes one or goes to sleep in the
// queue; a thread that V wakes looks again.  V is one piece.

module Semaphores {
  import opened Basics

  // woken holds the threads that V took off the queue and that have not looked
  // again yet; ps and vs count the completed calls.
  datatype Sem = Sem(value: nat, queue: seq<nat>, woken: set<nat>, ps: nat, vs: nat)

  function NewSem(initial: nat): Sem {
    Sem(initial, [], {}, 0, 0)
  }

  // One look at the value by thread t, inside P.
  function Look(s: Sem, t: nat): Sem {
    if s.value == 0 then s.(queue := s.queue + [t], woken := s.woken - {t})
    else s.(value := s.value - 1, woken := s.woken - {t}, ps := s.ps + 1)
  }

  function Raise(s: Sem): Sem {
    if s.queue == [] then s.(value := s.value + 1, vs := s.vs + 1)
    else s.(value := s.value + 1, vs := s.vs + 1, queue := s.queue[1..], woken := s.woken + {s.queue[0]})
  }

  class Semaphore {
    var value: nat
    var queue: seq<nat>
    // history
    ghost var woken: set<nat>
    ghost var ps: nat
    ghost var vs: nat

    ghost function Model(): Sem
      reads this
    {
      Sem(value, queue, woken, ps, vs)
    }

    constructor (initialValue: nat)
      ensures Model() == NewSem(initialValue)
    {
      value, queue := initialValue, [];
      woken, ps, vs := {}, 0, 0;
    }

    // One turn of P's loop by a thread that is awake: it goes to sleep, or it
    // leaves the loop and takes one.
    method Attempt(currentThread: nat) returns (done: bool)
      modifies this
      ensures Model() == Look(old(Model()), currentThread)
      ensures ps == old(ps) + if done then 1 else 0
    {
      woken := woken - {currentThread};
      if value == 0 {
        queue := queue + [currentThread];
        return false;
      }
      value := value - 1;
      ps := ps + 1;
      return true;
    }

    // The thread made ready, if one slept.
    method V() returns (thread: Option<nat>)
      modifies this
      ensures Model() == Raise(old(Model()))
      ensures thread == if old(queue) == [] then None else Some(old(queue)[0])
    {
      thread := None;
      if queue != [] {
        thread := Some(queue[0]);
        queue := queue[1..];
        woken := woken + {thread.value};
      }
      value := value + 1;
      vs := vs + 1;
    }
  }

  // ------------------------------------------------------------------ invariant

  predicate NoRepeat(s: seq<nat>) {
    forall i, j :: 0 <= i < j < |s| ==> s[i] != s[j]
  }

  ghost predicate Inv(s: Sem, initial: nat) {
    && s.value + s.ps == initial + s.vs
    && NoRepeat(s.queue) && (forall t :: t in s.queue ==> t !in s.woken)
    && (s.queue != [] ==> s.value <= |s.woken|)
  }

  datatype Event = LookBy(t: nat) | VCall

  // A sleeping thread does not run.
  predicate Allowed(s: Sem, e: Event) {
    e.LookBy? ==> e.t !in s.queue
  }

  function Next(s: Sem, e: Event): Sem {
    match e case LookBy(t) => Look(s, t) case VCall => Raise(s)
  }

  lemma NextKeeps(s: Sem, e: Event, initial: nat)
    requires Inv(s, initial) && Allowed(s, e)
    ensures Inv(Next(s, e), initial)
  {
    if e.LookBy? {
      if e.t in s.woken {
        assert |s.woken - {e.t}| == |s.woken| - 1;
      } else {
        assert s.woken - {e.t} == s.woken;
      }
    } else if s.queue != [] {
      assert s.queue[0] !in s.woken;
      assert |s.woken + {s.queue[0]}| == |s.woken| + 1;
    }
  }

  // states[i] is the semaphore after i of the events.
  ghost predicate IsRun(states: seq<Sem>, events: seq<Event>, initial: nat) {
    && |states| == |events| + 1 && states[0] == NewSem(initial)
    && (forall i :: 0 <= i < |events| ==> Allowed(states[i], events[i]) && states[i + 1] == Next(states[i], events[i]))
  }

  lemma {:induction false} RunKeeps(states: seq<Sem>, events: seq<Event>, initial: nat, i: nat)
    requires IsRun(states, events, initial) && i <= |events|
    ensures Inv(states[i], initial)
    decreases i
  {
    if i > 0 {
      RunKeeps(states, events, initial, i - 1);
      NextKeeps(states[i - 1], events[i - 1], initial);
    }
  }

  // MAIN: over every run the value is what it began with, plus the completed
  // Vs, less the completed Ps.
  lemma Accounted(states: seq<Sem>, events: seq<Event>, initial: nat, i: nat)
    requires IsRun(states, events, initial) && i <= |events|
    ensures states[i].value == initial + states[i].vs - states[i].ps
  {
    RunKeeps(states, events, initial, i);
  }

  // MAIN: no wake-up is lost: while a thread sleeps, the value is at most the
  // number of woken threads yet to run; so if P could succeed, a woken thread
  // is there to look, and its look succeeds.
  lemma NoLostWakeUp(states: seq<Sem>, events: seq<Event>, initial: nat, i: nat)
    requires IsRun(states, events, initial) && i <= |events| && states[i].queue != []
    ensures states[i].value <= |states[i].woken|
    ensures states[i].value > 0 ==>
      exists t :: t in states[i].woken && Allowed(states[i], LookBy(t)) && Look(states[i], t).ps == states[i].ps + 1
  {
    RunKeeps(states, events, initial, i);
    if states[i].value > 0 {
      var t :| t in states[i].woken;
      assert Look(states[i], t).ps == states[i].ps + 1;
    }
  }

  // The threads that have gone to sleep in the first i events, in order: those
  // that looked while the value was 0.
  function Slept(states: seq<Sem>, events: seq<Event>, i: nat): seq<nat>
    requires i <= |events| < |states|
    decreases i
  {
    if i == 0 then []
    else if events[i - 1].LookBy? && states[i - 1].value == 0 then Slept(states, events, i - 1) + [events[i - 1].t]
    else Slept(states, events, i - 1)
  }

  // How many of them the Vs have had to wake.
  function Wakes(states: seq<Sem>, events: seq<Event>, i: nat): (n: nat)
    requires i <= |events| < |states|
    ensures n <= |Slept(states, events, i)|
    decreases i
  {
    if i == 0 then 0
    else
      var n := Wakes(states, events, i - 1);
      if events[i - 1].VCall? && n < |Slept(states, events, i - 1)| then n + 1 else n
  }

  lemma {:induction false} QueueIsRest(states: seq<Sem>, events: seq<Event>, initial: nat, i: nat)
    requires IsRun(states, events, initial) && i <= |events|
    ensures states[i].queue == Slept(states, events, i)[Wakes(states, events, i)..]
    decreases i
  {
    if i > 0 {
      QueueIsRest(states, events, initial, i - 1);
      assert states[i] == Next(states[i - 1], events[i - 1]);
    }
  }

  // MAIN: over every run sleepers are woken in the order in which they went to
  // sleep, one by each V as long as one sleeps.
  lemma WokenInOrder(states: seq<Sem>, events: seq<Event>, initial: nat, i: nat)
    requires IsRun(states, events, initial) && i < |events| && events[i].VCall?
    ensures var slept, n := Slept(states, events, i), Wakes(states, events, i);
      if n == |slept| then states[i].queue == [] && states[i + 1].woken == states[i].woken
      else slept[n] in states[i].queue && slept[n] !in states[i + 1].queue
           && slept[n] !in states[i].woken && states[i + 1].woken == states[i].woken + {slept[n]}
  {
    QueueIsRest(states, events, initial, i);
    RunKeeps(states, events, initial, i);
    assert states[i + 1] == Next(states[i], events[i]);
  }

  // ---------------------------------------------------------------------- locks

  // Where a thread is between the end of P in Acquire and V in Release.
  datatype Phase = Entered | Owning | Leaving

  datatype LockState = LockState(sem: Sem, owner: Option<nat>, inside: map<nat, Phase>)

  const NEW_LOCK: LockState := LockState(NewSem(1), None, map[])

  datatype LockEvent =
    | Acquiring(t: nat)     // a look inside P
    | SetOwner(t: nat)      // ownerThread = currentThread
    | Releasing(t: nat)     // the test, and ownerThread = NULL if it holds
    | VLast(t: nat)         // sem->V()

  // A thread that is inside does not call Acquire again.
  predicate LockAllowed(l: LockState, e: LockEvent) {
    match e
    case Acquiring(t) => t !in l.sem.queue && t !in l.inside
    case SetOwner(t) => t in l.inside && l.inside[t] == Entered
    case Releasing(t) => t in l.inside ==> l.inside[t] == Owning
    case VLast(t) => t in l.inside && l.inside[t] == Leaving
  }

  // A thread that does not own the lock changes nothing by releasing it.
  function LockNext(l: LockState, e: LockEvent): LockState {
    match e
    case Acquiring(t) =>
      if l.sem.value == 0 then l.(sem := Look(l.sem, t)) else l.(sem := Look(l.sem, t), inside := l.inside[t := Entered])
    case SetOwner(t) => l.(owner := Some(t), inside := l.inside[t := Owning])
    case Releasing(t) => if l.owner == Some(t) then l.(owner := None, inside := l.inside[t := Leaving]) else l
    case VLast(t) => l.(sem := Raise(l.sem), inside := l.inside - {t})
  }

  ghost predicate LockInv(l: LockState) {
    && Inv(l.sem, 1)
    && l.sem.value + |l.inside| == 1
    && (forall t: nat :: l.owner == Some(t) <==> t in l.inside && l.inside[t] == Owning)
  }

  lemma LockNextKeeps(l: LockState, e: LockEvent)
    requires LockInv(l) && LockAllowed(l, e)
    ensures LockInv(LockNext(l, e))
  {
    match e
    case Acquiring(t) =>
      NextKeeps(l.sem, LookBy(t), 1);
      if l.sem.value > 0 { EmptyMap(l.inside); }
    case SetOwner(t) => OnlyOne(l.inside, t);
    case Releasing(t) => if l.owner == Some(t) { OnlyOne(l.inside, t); }
    case VLast(t) =>
      NextKeeps(l.sem, VCall, 1);
      OnlyOne(l.inside, t);
  }

  lemma EmptyMap(m: map<nat, Phase>)
    requires |m| == 0
    ensures m == map[]
  {
  }

  lemma OnlyOne(m: map<nat, Phase>, t: nat)
    requires |m| == 1 && t in m
    ensures m == map[t := m[t]]
  {
    assert m.Keys == {t} by {
      assert |m.Keys| == 1 && |m.Keys - {t}| == 0;
    }
  }

  ghost predicate IsLockRun(states: seq<LockState>, events: seq<LockEvent>) {
    && |states| == |events| + 1 && states[0] == NEW_LOCK
    && (forall i :: 0 <= i < |events| ==> LockAllowed(states[i], events[i]) && states[i + 1] == LockNext(states[i], events[i]))
  }

  lemma {:induction false} LockRunKeeps(states: seq<LockState>, events: seq<LockEvent>, i: nat)
    requires IsLockRun(states, events) && i <= |events|
    ensures LockInv(states[i])
    decreases i
  {
    if i > 0 {
      LockRunKeeps(states, events, i - 1);
      LockNextKeeps(states[i - 1], events[i - 1]);
    }
  }

  // MAIN: at most one thread is between P in Acquire and V in Release, even if
  // others call Release without owning the lock.
  lemma MutualExclusion(states: seq<LockState>, events: seq<LockEvent>, i: nat, t: nat, u: nat)
    requires IsLockRun(states, events) && i <= |events| && t in states[i].inside && u in states[i].inside
    ensures t == u
    ensures states[i].owner.Some? ==> states[i].owner.value == t
  {
    LockRunKeeps(states, events, i);
    OnlyOne(states[i].inside, t);
  }

  // MAIN: and the lock is not lost: with nobody inside it is free, and a thread
  // that sleeps for it has been overtaken only by one about to look.
  lemma FreeWhenEmpty(states: seq<LockState>, events: seq<LockEvent>, i: nat)
    requires IsLockRun(states, events) && i <= |events| && states[i].inside == map[]
    ensures states[i].sem.value == 1 && states[i].owner == None
    ensures states[i].sem.queue != [] ==> states[i].sem.woken != {}
  {
    LockRunKeeps(states, events, i);
  }

  // Events that are allowed one after the other, and where they lead.
  predicate Goes(l: LockState, events: seq<LockEvent>)
    decreases |events|
  {
    events == [] || (LockAllowed(l, events[0]) && Goes(LockNext(l, events[0]), events[1..]))
  }

  function End(l: LockState, events: seq<LockEvent>): LockState
    decreases |events|
  {
    if events == [] then l else End(LockNext(l, events[0]), events[1..])
  }

  lemma {:induction false} GoesOn(l: LockState, a: seq<LockEvent>, b: seq<LockEvent>)
    requires Goes(l, a) && Goes(End(l, a), b)
    ensures Goes(l, a + b) && End(l, a + b) == End(End(l, a), b)
    decreases |a|
  {
    if a == [] {
      assert a + b == b;
    } else {
      assert (a + b)[1..] == a[1..] + b;
      GoesOn(LockNext(l, a[0]), a[1..], b);
    }
  }

  lemma {:induction false} GoingKeeps(l: LockState, events: seq<LockEvent>)
    requires LockInv(l) && Goes(l, events)
    ensures LockInv(End(l, events))
    decreases |events|
  {
    if events != [] {
      LockNextKeeps(l, events[0]);
      GoingKeeps(LockNext(l, events[0]), events[1..]);
    }
  }

  predicate IsFree(l: LockState) {
    l.inside == map[] && l.owner == None && l.sem.value == 1
  }

  // What is left of Acquire and Release for a thread inside.
  function LeavingSteps(l: LockState, t: nat): seq<LockEvent>
    requires t in l.inside
  {
    match l.inside[t]
    case Entered => [SetOwner(t), Releasing(t), VLast(t)]
    case Owning => [Releasing(t), VLast(t)]
    case Leaving => [VLast(t)]
  }

  lemma OneStep(l: LockState, e: LockEvent, events: seq<LockEvent>)
    requires LockAllowed(l, e)
    ensures Goes(l, [e] + events) <==> Goes(LockNext(l, e), events)
    ensures End(l, [e] + events) == End(LockNext(l, e), events)
  {
    assert ([e] + events)[1..] == events;
  }

  function Freed(sem: Sem): LockState {
    LockState(Raise(sem), None, map[])
  }

  lemma FromLeaving(sem: Sem, t: nat)
    ensures var l := LockState(sem, None, map[t := Leaving]);
      Goes(l, [VLast(t)]) && End(l, [VLast(t)]) == Freed(sem)
  {
    var l := LockState(sem, None, map[t := Leaving]);
    assert l.inside - {t} == map[];
    OneStep(l, VLast(t), []);
    assert [VLast(t)] + [] == [VLast(t)];
  }

  lemma FromOwning(sem: Sem, t: nat)
    ensures var l := LockState(sem, Some(t), map[t := Owning]);
      Goes(l, [Releasing(t), VLast(t)]) && End(l, [Releasing(t), VLast(t)]) == Freed(sem)
  {
    var l := LockState(sem, Some(t), map[t := Owning]);
    FromLeaving(sem, t);
    OneStep(l, Releasing(t), [VLast(t)]);
    assert [Releasing(t)] + [VLast(t)] == [Releasing(t), VLast(t)];
    assert LockNext(l, Releasing(t)).inside == map[t := Leaving];
  }

  lemma FromEntered(sem: Sem, t: nat)
    ensures var l := LockState(sem, None, map[t := Entered]);
      Goes(l, [SetOwner(t), Releasing(t), VLast(t)]) && End(l, [SetOwner(t), Releasing(t), VLast(t)]) == Freed(sem)
  {
    var l := LockState(sem, None, map[t := Entered]);
    FromOwning(sem, t);
    OneStep(l, SetOwner(t), [Releasing(t), VLast(t)]);
    assert [SetOwner(t)] + [Releasing(t), VLast(t)] == [SetOwner(t), Releasing(t), VLast(t)];
    assert LockNext(l, SetOwner(t)).inside == map[t := Owning];
  }

  // The thread leaves alone, and the first sleeper is woken.
  lemma Leaves(l: LockState, t: nat)
    requires LockInv(l) && t in l.inside
    ensures Goes(l, LeavingSteps(l, t)) && End(l, LeavingSteps(l, t)) == Freed(l.sem) && l.sem.value == 0
  {
    OnlyOne(l.inside, t);
    match l.inside[t]
    case Entered => FromEntered(l.sem, t);
    case Owning => FromOwning(l.sem, t);
    case Leaving => FromLeaving(l.sem, t);
  }

  // MAIN: from every state of every run the thread that is inside can, alone,
  // go on until the lock is free, and then any thread that is awake gets in
  // when it looks.
  lemma CanBeReleased(states: seq<LockState>, events: seq<LockEvent>, i: nat, t: nat, u: nat) returns (more: seq<LockEvent>)
    requires IsLockRun(states, events) && i <= |events| && t in states[i].inside
    ensures forall k :: 0 <= k < |more| ==> more[k] in [SetOwner(t), Releasing(t), VLast(t)]
    ensures Goes(states[i], more)
    ensures var free := End(states[i], more);
      && free.inside == map[] && free.owner == None && free.sem.value == 1
      && (u !in free.sem.queue ==> LockAllowed(free, Acquiring(u)) && u in LockNext(free, Acquiring(u)).inside)
  {
    LockRunKeeps(states, events, i);
    more := LeavingSteps(states[i], t);
    Leaves(states[i], t);
  }

  // A thread that is awake gets in and leaves again, and wakes the next.
  lemma OneTurn(l: LockState, w: nat) returns (events: seq<LockEvent>)
    requires LockInv(l) && IsFree(l) && w !in l.sem.queue
    ensures Goes(l, events) && LockInv(End(l, events)) && IsFree(End(l, events))
    ensures End(l, events).sem.queue == if l.sem.queue == [] then [] else l.sem.queue[1..]
  {
    var l' := LockNext(l, Acquiring(w));
    LockNextKeeps(l, Acquiring(w));
    Leaves(l', w);
    events := [Acquiring(w)] + LeavingSteps(l', w);
    OneStep(l, Acquiring(w), LeavingSteps(l', w));
    GoingKeeps(l, events);
  }

  // The sleepers before u take their turns.
  lemma {:induction false} TurnComes(l: LockState, u: nat) returns (events: seq<LockEvent>)
    requires LockInv(l) && IsFree(l)
    ensures Goes(l, events) && IsFree(End(l, events)) && u !in End(l, events).sem.queue
    decreases |l.sem.queue|
  {
    if u !in l.sem.queue {
      events := [];
    } else {
      var w :| w in l.sem.woken;
      var turn := OneTurn(l, w);
      var rest := TurnComes(End(l, turn), u);
      GoesOn(l, turn, rest);
      events := turn + rest;
    }
  }

  // MAIN: no thread waits in vain: from every state of every run, whoever is
  // inside and whoever sleeps, events are possible after which u is inside.
  lemma EveryoneCanGetIn(states: seq<LockState>, events: seq<LockEvent>, i: nat, u: nat) returns (more: seq<LockEvent>)
    requires IsLockRun(states, events) && i <= |events|
    ensures Goes(states[i], more) && u in End(states[i], more).inside
  {
    var l := states[i];
    LockRunKeeps(states, events, i);
    var first: seq<LockEvent> := [];
    if t :| t in l.inside {
      first := LeavingSteps(l, t);
      Leaves(l, t);
    }
    GoingKeeps(l, first);
    var free := End(l, first);
    var turns := TurnComes(free, u);
    GoesOn(l, first, turns);
    var last := End(free, turns);
    OneStep(last, Acquiring(u), []);
    assert [Acquiring(u)] + [] == [Acquiring(u)];
    GoesOn(l, first + turns, [Acquiring(u)]);
    more := first + turns + [Acquiring(u)];
  }
}
