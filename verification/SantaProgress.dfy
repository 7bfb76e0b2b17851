// Santa retires: left to themselves, he and the reindeer reach the end from every
// reachable state, in whatever order they act.

module SantaProgress {
  import opened Basics
  import opened Santa
  import opened SantaProofs

  // The sleigh is under way, or has just landed.
  predicate Flight(s: State) {
    s.santa.Freeing? || s.santa.WaitUnhitched?
  }

  // The steps of a reindeer until it is hitched for the next delivery.
  function DeerLeft(pc: DeerPc, r: nat, flight: bool): nat {
    match pc
    case WaitFlying => if flight then r + 12 else 0
    case TellUnhitched => r + 11
    case Vacation => r + 10
    case LockIn => r + 9
    case Arrive => r + 8
    case TestLast => r + 7
    case CallOthers(j) => if j < r then r - j + 6 else 6
    case WakeSanta => 6
    case UnlockIn => 5
    case WaitOthers => 4
    case WaitSleigh => 3
    case TellHitched => 2
  }

  function AllLeft(deer: seq<DeerPc>, r: nat, flight: bool): nat {
    if deer == [] then 0 else AllLeft(deer[..|deer| - 1], r, flight) + DeerLeft(deer[|deer| - 1], r, flight)
  }

  lemma {:induction false} LeftMoves(deer: seq<DeerPc>, i: nat, pc: DeerPc, r: nat, flight: bool)
    requires i < |deer|
    ensures AllLeft(deer[i := pc], r, flight) + DeerLeft(deer[i], r, flight) == AllLeft(deer, r, flight) + DeerLeft(pc, r, flight)
    decreases |deer|
  {
    var n := |deer| - 1;
    if i < n {
      LeftMoves(deer[..n], i, pc, r, flight);
      assert deer[i := pc][..n] == deer[..n][i := pc];
    } else {
      assert deer[i := pc][..n] == deer[..n];
    }
  }

  lemma {:induction false} LandingLeft(deer: seq<DeerPc>, r: nat)
    ensures AllLeft(deer, r, false) <= AllLeft(deer, r, true)
    decreases |deer|
  {
    if deer != [] {
      LandingLeft(deer[..|deer| - 1], r);
    }
  }

  // Santa's steps until the next delivery, or until he waits again.
  function SantaLeft(pc: SantaPc, r: nat): nat {
    match pc
    case Freeing(i) => if i < r then 2 * r + 2 + (r - i) else 2 * r + 2
    case WaitUnhitched(i) => if i < r then r + 2 + (r - i) else r + 2
    case ResetCount => r + 2
    case Releasing(i) => if i < r then 1 + (r - i) else 1
    case LoopTest => 1
    case WaitSleeping => 0
    case Retired => 0
    case LockDeer => 2 * r + 11
    case TestDeer => 2 * r + 10
    case UnlockToDeliver => 2 * r + 1
    case Hitching(i) => if i < r then r + (r - i) else r
    case WaitHitched(i) => if i < r then r - i else 0
    case Deliver => 0
    case UnlockToAnswer => 9
    case Listening(i) => if i < 3 then 5 + (3 - i) else 5
    case ReadNames => 5
    case Answering(i) => if i < 3 then 1 + (3 - i) else 1
  }

  // How far the program is from its end: deliveries, then steps of reindeer,
  // then wake-ups not used, then Santa's own steps.
  datatype Distance = Distance(deliveries: nat, deer: nat, wakeUps: nat, steps: nat)

  function ToGo(s: State, max: int): Distance {
    Distance(if s.delivery <= max then max + 1 - s.delivery else 0,
             AllLeft(s.deer, |s.deer|, Flight(s)), s.sleeping, SantaLeft(s.santa, |s.deer|))
  }

  predicate Nearer(a: Distance, b: Distance) {
    a.deliveries < b.deliveries || (a.deliveries == b.deliveries &&
      (a.deer < b.deer || (a.deer == b.deer &&
        (a.wakeUps < b.wakeUps || (a.wakeUps == b.wakeUps && a.steps < b.steps)))))
  }

  // What Santa's step does to the deliveries and to the wake-ups.
  lemma SantaCounts(s: State, max: int)
    requires SantaStep(s, max).Some?
    ensures var s' := SantaStep(s, max).value;
      && s'.delivery == (if s.santa.Deliver? then s.delivery + 1 else s.delivery)
      && s'.sleeping == (if s.santa.WaitSleeping? then s.sleeping - 1 else s.sleeping)
      && (Flight(s') ==> Flight(s) || s.santa.Deliver?)
  {
  }

  // And to his own steps left, in the loops over the reindeer and elsewhere.
  predicate InLoop(pc: SantaPc) {
    pc.Hitching? || pc.WaitHitched? || pc.Freeing? || pc.WaitUnhitched? || pc.Releasing?
  }

  lemma LoopSteps(s: State, max: int)
    requires Counters(s) && SantaStep(s, max).Some? && InLoop(s.santa)
    ensures SantaLeft(SantaStep(s, max).value.santa, |s.deer|) < SantaLeft(s.santa, |s.deer|)
  {
  }

  lemma OtherSteps(s: State, max: int)
    requires Counters(s) && SantaStep(s, max).Some? && !InLoop(s.santa) && !s.santa.Deliver? && !s.santa.WaitSleeping?
    ensures SantaLeft(SantaStep(s, max).value.santa, |s.deer|) < SantaLeft(s.santa, |s.deer|)
  {
  }

  // Santa's steps come nearer to the end.
  lemma SantaNearer(s: State, max: int)
    requires Counters(s) && Deliveries(s, max) && SantaStep(s, max).Some?
    ensures Nearer(ToGo(SantaStep(s, max).value, max), ToGo(s, max))
  {
    SantaCounts(s, max);
    if InLoop(s.santa) {
      LoopSteps(s, max);
    } else if !s.santa.Deliver? && !s.santa.WaitSleeping? {
      OtherSteps(s, max);
    }
    SantaFrame(s, max);
    LandingLeft(s.deer, |s.deer|);
  }

  // What a reindeer's step does to the distance of that reindeer.
  lemma DeerSteps(s: State, i: nat, r: nat, flight: bool)
    requires i < |s.deer| == r && DeerStep(s, i).Some?
    requires (s.deer[i].CallOthers? ==> s.deer[i].j < r) && (s.deer[i].TellHitched? ==> !flight)
    requires s.deer[i].WaitFlying? ==> flight
    ensures var s' := DeerStep(s, i).value;
      |s'.deer| == r && DeerLeft(s'.deer[i], r, flight) < DeerLeft(s.deer[i], r, flight)
  {
  }

  // Nobody hitches itself during the flight, and nobody flies before.
  lemma InFlight(s: State, i: nat)
    requires DeerTokens(s, DeerCounts(s.deer)) && i < |s.deer| && DeerStep(s, i).Some?
    ensures s.deer[i].TellHitched? ==> !Flight(s)
    ensures s.deer[i].WaitFlying? ==> Flight(s)
  {
    DeerTotal(s.deer);
    DeerCounted(s.deer, i);
  }

  lemma DeerStepFrame(s: State, i: nat)
    requires i < |s.deer| && DeerStep(s, i).Some?
    ensures var s' := DeerStep(s, i).value;
      s'.delivery == s.delivery && s'.santa == s.santa && |s'.deer| == |s.deer| && s'.deer == s.deer[i := s'.deer[i]]
  {
    var _ := DeerFrame(s, i);
  }

  // So do those of a reindeer, even if it wakes Santa.
  lemma DeerNearer(s: State, max: int, i: nat)
    requires Locks(s) && Counters(s) && DeerTokens(s, DeerCounts(s.deer)) && i < |s.deer| && DeerStep(s, i).Some?
    ensures Nearer(ToGo(DeerStep(s, i).value, max), ToGo(s, max))
  {
    var s' := DeerStep(s, i).value;
    InFlight(s, i);
    InCall(s, i);
    DeerStepFrame(s, i);
    DeerSteps(s, i, |s.deer|, Flight(s));
    LeftMoves(s.deer, i, s'.deer[i], |s.deer|, Flight(s));
    assert Flight(s') == Flight(s);
  }

  lemma InCall(s: State, i: nat)
    requires Locks(s) && Counters(s) && i < |s.deer|
    ensures s.deer[i].CallOthers? ==> s.deer[i].j < |s.deer|
  {
    if s.deer[i].CallOthers? {
      assert DeerHolds(s.deer[i]);
    }
  }

  predicate NoElf(schedule: seq<Actor>) {
    forall k :: 0 <= k < |schedule| ==> !schedule[k].ElfActs?
  }

  lemma AndThen(s: State, max: int, who: Actor, rest: seq<Actor>) returns (schedule: seq<Actor>)
    requires Next(s, max, who).Some? && !who.ElfActs? && NoElf(rest)
    ensures NoElf(schedule) && Run(s, max, schedule) == Run(Next(s, max, who).value, max, rest)
  {
    schedule := [who] + rest;
    assert schedule[1..] == rest;
  }

  // Santa, if he can move, else a reindeer, comes nearer.
  lemma OneNearer(s: State, max: int) returns (who: Actor)
    requires Inv(s, max) && !s.santa.Retired?
    ensures !who.ElfActs? && Next(s, max, who).Some?
    ensures Inv(Next(s, max, who).value, max) && Nearer(ToGo(Next(s, max, who).value, max), ToGo(s, max))
  {
    who := SantaActs;
    if SantaStep(s, max).None? {
      var i := SomeDeerMoves(s, max);
      who := DeerActs(i);
      DeerNearer(s, max, i);
    } else {
      SantaNearer(s, max);
    }
    NextKeeps(s, max, who);
  }

  lemma {:induction false} ReachesEnd(s: State, max: int) returns (schedule: seq<Actor>)
    requires Inv(s, max)
    ensures NoElf(schedule) && Run(s, max, schedule).Some? && Run(s, max, schedule).value.santa.Retired?
    decreases ToGo(s, max).deliveries, ToGo(s, max).deer, ToGo(s, max).wakeUps, ToGo(s, max).steps
  {
    if s.santa.Retired? {
      schedule := [];
    } else {
      var who := OneNearer(s, max);
      var rest := ReachesEnd(Next(s, max, who).value, max);
      schedule := AndThen(s, max, who, rest);
    }
  }

  // MAIN: from every reachable state Santa and the reindeer alone, with no help
  // from the elves, can carry on until he retires, having made max + 1
  // deliveries.
  lemma Retires(s: State, e: nat, r: nat, max: int) returns (schedule: seq<Actor>)
    requires r > 0 && Reachable(s, e, r, max)
    ensures NoElf(schedule) && Run(s, max, schedule).Some?
    ensures var end := Run(s, max, schedule).value;
      end.santa.Retired? && (max >= 0 ==> end.delivery == max + 1)
  {
    ReachableInv(s, e, r, max);
    schedule := ReachesEnd(s, max);
    RunKeeps(s, max, schedule);
  }

  // MAIN: and they cannot fail to: every step of theirs comes nearer, and until
  // the end there is one.  So every run that has only finitely many steps of
  // elves ends with Santa retired.
  lemma NoDetours(s: State, e: nat, r: nat, max: int, who: Actor)
    requires r > 0 && Reachable(s, e, r, max) && !who.ElfActs? && Next(s, max, who).Some?
    ensures Nearer(ToGo(Next(s, max, who).value, max), ToGo(s, max))
  {
    ReachableInv(s, e, r, max);
    if who.SantaActs? {
      SantaNearer(s, max);
    } else {
      DeerNearer(s, max, who.i);
    }
  }
}
