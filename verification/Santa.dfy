// The Santa, reindeer and elves program: one Santa, r reindeer and any number
// of elves over ten semaphores and two mutexes.  A thread is a program counter;
// a step runs one semaphore or mutex operation, or one statement that touches
// a shared variable, of one thread.  Printing is left out.

module Santa {
  import opened Basics

  datatype SantaPc =
    | LoopTest                // while (delivery <= max_delivery)
    | WaitSleeping            // Sleeping->Wait()
    | LockDeer                // Reindeer_Lock->Lock()
    | TestDeer                // if (Reindeer_Count == r)
    | UnlockToDeliver
    | Hitching(i: nat)        // Sleigh->Signal(), i of r done
    | WaitHitched(i: nat)     // Hitched->Wait()
    | Deliver                 // ++delivery
    | Freeing(i: nat)         // Flying->Signal()
    | WaitUnhitched(i: nat)   // Unhitch->Wait()
    | ResetCount              // Reindeer_Count = 0
    | Releasing(i: nat)       // Reindeer->Signal()
    | UnlockToAnswer
    | Listening(i: nat)       // Question->Signal(), i of 3 done
    | ReadNames               // sprintf of waiting_elves
    | Answering(i: nat)       // Answered->Signal()
    | Retired

  datatype DeerPc =
    | Vacation                // Reindeer->Wait()
    | LockIn                  // Reindeer_Lock->Lock()
    | Arrive                  // ++Reindeer_Count
    | TestLast                // if (Reindeer_Count == r)
    | CallOthers(j: nat)      // Waiting_Deer->Signal(), j of r done
    | WakeSanta               // Sleeping->Signal()
    | UnlockIn
    | WaitOthers              // Waiting_Deer->Wait()
    | WaitSleigh              // Sleigh->Wait()
    | TellHitched             // Hitched->Signal()
    | WaitFlying              // Flying->Wait()
    | TellUnhitched           // Unhitch->Signal()

  datatype ElfPc =
    | WaitTurn                // Elf->Wait()
    | LockAsk                 // Elf_Lock->Lock()
    | WriteName               // waiting_elves[Elf_Count] = i
    | Join                    // ++Elf_Count
    | TestThree               // if (Elf_Count == 3)
    | CallSanta               // Sleeping->Signal()
    | UnlockAsk
    | WaitQuestion            // Question->Wait()
    | WaitAnswer              // Answered->Wait()
    | ClearName(k: nat)       // waiting_elves[k] = 0
    | LockDone                // Elf_Lock->Lock()
    | Leave                   // --Elf_Count
    | TestEmpty               // if (Elf_Count == 0)
    | Admit(j: nat)           // Elf->Signal(), j of 3 done
    | UnlockDone

  datatype Holder = Free | BySanta | ByDeer(deer: nat)

  datatype State = State(
    // semaphores
    sleeping: nat, reindeer: nat, elf: nat, sleigh: nat, question: nat, answered: nat,
    flying: nat, waitingDeer: nat, hitched: nat, unhitch: nat,
    // mutexes: Elf_Lock is -1 when free, else the elf that holds it
    deerLock: Holder, elfLock: int,
    // shared variables
    deerCount: nat, elfCount: nat, waitingElves: seq<int>,
    // threads
    santa: SantaPc, delivery: nat, deer: seq<DeerPc>, elves: seq<ElfPc>)

  // main(): e elves and r reindeer, all about to start.
  function Init(e: nat, r: nat): State {
    State(0, r, 3, 0, 0, 0, 0, 0, 0, 0, Free, -1, 0, 0, [0, 0, 0],
          LoopTest, 0, seq(r, _ => Vacation), seq(e, _ => WaitTurn))
  }

  // ---------------------------------------------------------------- the threads

  // Santa's next step; None when he is blocked or retired.  max is the number
  // of deliveries asked for.
  function SantaStep(s: State, max: int): Option<State> {
    var r := |s.deer|;
    match s.santa
    case LoopTest => Some(s.(santa := if s.delivery <= max then WaitSleeping else Retired))
    case WaitSleeping => if s.sleeping > 0 then Some(s.(sleeping := s.sleeping - 1, santa := LockDeer)) else None
    case LockDeer => if s.deerLock == Free then Some(s.(deerLock := BySanta, santa := TestDeer)) else None
    case TestDeer => Some(s.(santa := if s.deerCount == r then UnlockToDeliver else UnlockToAnswer))
    case UnlockToDeliver => Some(s.(deerLock := Free, santa := if r > 0 then Hitching(0) else Deliver))
    case Hitching(i) =>
      Some(s.(sleigh := s.sleigh + 1, santa := if i + 1 < r then Hitching(i + 1) else WaitHitched(0)))
    case WaitHitched(i) =>
      if s.hitched > 0 then Some(s.(hitched := s.hitched - 1, santa := if i + 1 < r then WaitHitched(i + 1) else Deliver)) else None
    case Deliver => Some(s.(delivery := s.delivery + 1, santa := if r > 0 then Freeing(0) else ResetCount))
    case Freeing(i) =>
      Some(s.(flying := s.flying + 1, santa := if i + 1 < r then Freeing(i + 1) else WaitUnhitched(0)))
    case WaitUnhitched(i) =>
      if s.unhitch > 0 then Some(s.(unhitch := s.unhitch - 1, santa := if i + 1 < r then WaitUnhitched(i + 1) else ResetCount)) else None
    case ResetCount => Some(s.(deerCount := 0, santa := if r > 0 then Releasing(0) else LoopTest))
    case Releasing(i) =>
      Some(s.(reindeer := s.reindeer + 1, santa := if i + 1 < r then Releasing(i + 1) else LoopTest))
    case UnlockToAnswer => Some(s.(deerLock := Free, santa := Listening(0)))
    case Listening(i) =>
      Some(s.(question := s.question + 1, santa := if i + 1 < 3 then Listening(i + 1) else ReadNames))
    case ReadNames => Some(s.(santa := Answering(0)))
    case Answering(i) =>
      Some(s.(answered := s.answered + 1, santa := if i + 1 < 3 then Answering(i + 1) else LoopTest))
    case Retired => None
  }

  function DeerStep(s: State, i: nat): Option<State>
    requires i < |s.deer|
  {
    var r := |s.deer|;
    match s.deer[i]
    case Vacation => if s.reindeer > 0 then Some(s.(reindeer := s.reindeer - 1, deer := s.deer[i := LockIn])) else None
    case LockIn => if s.deerLock == Free then Some(s.(deerLock := ByDeer(i), deer := s.deer[i := Arrive])) else None
    case Arrive => Some(s.(deerCount := s.deerCount + 1, deer := s.deer[i := TestLast]))
    case TestLast => Some(s.(deer := s.deer[i := if s.deerCount == r then CallOthers(0) else UnlockIn]))
    case CallOthers(j) =>
      Some(s.(waitingDeer := s.waitingDeer + 1, deer := s.deer[i := if j + 1 < r then CallOthers(j + 1) else WakeSanta]))
    case WakeSanta => Some(s.(sleeping := s.sleeping + 1, deer := s.deer[i := UnlockIn]))
    case UnlockIn => Some(s.(deerLock := Free, deer := s.deer[i := WaitOthers]))
    case WaitOthers => if s.waitingDeer > 0 then Some(s.(waitingDeer := s.waitingDeer - 1, deer := s.deer[i := WaitSleigh])) else None
    case WaitSleigh => if s.sleigh > 0 then Some(s.(sleigh := s.sleigh - 1, deer := s.deer[i := TellHitched])) else None
    case TellHitched => Some(s.(hitched := s.hitched + 1, deer := s.deer[i := WaitFlying]))
    case WaitFlying => if s.flying > 0 then Some(s.(flying := s.flying - 1, deer := s.deer[i := TellUnhitched])) else None
    case TellUnhitched => Some(s.(unhitch := s.unhitch + 1, deer := s.deer[i := Vacation]))
  }

  function ElfStep(s: State, i: nat): Option<State>
    requires i < |s.elves|
  {
    match s.elves[i]
    case WaitTurn => if s.elf > 0 then Some(s.(elf := s.elf - 1, elves := s.elves[i := LockAsk])) else None
    case LockAsk => if s.elfLock == -1 then Some(s.(elfLock := i, elves := s.elves[i := WriteName])) else None
    case WriteName =>
      // writing outside the buffer is no step of this program
      if s.elfCount < |s.waitingElves|
      then Some(s.(waitingElves := s.waitingElves[s.elfCount := i], elves := s.elves[i := Join])) else None
    case Join => Some(s.(elfCount := s.elfCount + 1, elves := s.elves[i := TestThree]))
    case TestThree => Some(s.(elves := s.elves[i := if s.elfCount == 3 then CallSanta else UnlockAsk]))
    case CallSanta => Some(s.(sleeping := s.sleeping + 1, elves := s.elves[i := UnlockAsk]))
    case UnlockAsk => Some(s.(elfLock := -1, elves := s.elves[i := WaitQuestion]))
    case WaitQuestion => if s.question > 0 then Some(s.(question := s.question - 1, elves := s.elves[i := WaitAnswer])) else None
    case WaitAnswer => if s.answered > 0 then Some(s.(answered := s.answered - 1, elves := s.elves[i := ClearName(0)])) else None
    case ClearName(k) =>
      if k < |s.waitingElves|
      then Some(s.(waitingElves := s.waitingElves[k := 0], elves := s.elves[i := if k + 1 < 3 then ClearName(k + 1) else LockDone])) else None
    case LockDone => if s.elfLock == -1 then Some(s.(elfLock := i, elves := s.elves[i := Leave])) else None
    case Leave => if s.elfCount > 0 then Some(s.(elfCount := s.elfCount - 1, elves := s.elves[i := TestEmpty])) else None
    case TestEmpty => Some(s.(elves := s.elves[i := if s.elfCount == 0 then Admit(0) else UnlockDone]))
    case Admit(j) => Some(s.(elf := s.elf + 1, elves := s.elves[i := if j + 1 < 3 then Admit(j + 1) else UnlockDone]))
    case UnlockDone => Some(s.(elfLock := -1, elves := s.elves[i := WaitTurn]))
  }

  datatype Actor = SantaActs | DeerActs(i: nat) | ElfActs(i: nat)

  function Next(s: State, max: int, who: Actor): Option<State> {
    match who
    case SantaActs => SantaStep(s, max)
    case DeerActs(i) => if i < |s.deer| then DeerStep(s, i) else None
    case ElfActs(i) => if i < |s.elves| then ElfStep(s, i) else None
  }

  // A schedule: who moves at each step.  None if someone was asked to move
  // while blocked.
  function Run(s: State, max: int, schedule: seq<Actor>): Option<State>
    decreases |schedule|
  {
    if schedule == [] then Some(s)
    else
      var s' := Next(s, max, schedule[0]);
      if s'.None? then None else Run(s'.value, max, schedule[1..])
  }

  // ------------------------------------------------------------------- counting

  // How far a reindeer is in its round.
  function DeerStage(pc: DeerPc): (k: nat)
    ensures k < 8
  {
    match pc
    case Vacation => 0
    case LockIn => 1 case Arrive => 1
    case TestLast => 2 case CallOthers(_) => 2 case WakeSanta => 2 case UnlockIn => 2
    case WaitOthers => 3
    case WaitSleigh => 4
    case TellHitched => 5
    case WaitFlying => 6
    case TellUnhitched => 7
  }

  function ElfStage(pc: ElfPc): (k: nat)
    ensures k < 7
  {
    match pc
    case WaitTurn => 0
    case LockAsk => 1 case WriteName => 1 case Join => 1
    case TestThree => 2 case CallSanta => 2 case UnlockAsk => 2
    case WaitQuestion => 3
    case WaitAnswer => 4
    case ClearName(_) => 5 case LockDone => 5 case Leave => 5
    case TestEmpty => 6 case Admit(_) => 6 case UnlockDone => 6
  }

  // How many reindeer are at each of the 8 stages, and elves at each of the 7.
  type Counts = seq<int>

  function DeerCounts(deer: seq<DeerPc>): (n: Counts)
    ensures |n| == 8
    ensures forall k :: 0 <= k < 8 ==> n[k] >= 0
  {
    if deer == [] then [0, 0, 0, 0, 0, 0, 0, 0]
    else Plus(DeerCounts(deer[..|deer| - 1]), DeerStage(deer[|deer| - 1]), 1)
  }

  function ElfCounts(elves: seq<ElfPc>): (n: Counts)
    ensures |n| == 7
    ensures forall k :: 0 <= k < 7 ==> n[k] >= 0
  {
    if elves == [] then [0, 0, 0, 0, 0, 0, 0]
    else Plus(ElfCounts(elves[..|elves| - 1]), ElfStage(elves[|elves| - 1]), 1)
  }

  function Plus(n: Counts, stage: nat, x: int): Counts
    requires stage < |n|
  {
    n[stage := n[stage] + x]
  }

  // One thread moves from one stage to another.
  function Moved(n: Counts, from: nat, to: nat): Counts
    requires from < |n| && to < |n|
  {
    Plus(Plus(n, from, -1), to, 1)
  }

  lemma MovedPlus(n: Counts, from: nat, to: nat, at: nat)
    requires from < |n| && to < |n| && at < |n|
    ensures Moved(Plus(n, at, 1), from, to) == Plus(Moved(n, from, to), at, 1)
    ensures Moved(Plus(n, from, 1), from, to) == Plus(n, to, 1)
  {
  }

  lemma {:induction false} DeerMoves(deer: seq<DeerPc>, i: nat, pc: DeerPc)
    requires i < |deer|
    ensures DeerCounts(deer[i := pc]) == Moved(DeerCounts(deer), DeerStage(deer[i]), DeerStage(pc))
    decreases |deer|
  {
    var n := |deer| - 1;
    MovedPlus(DeerCounts(deer[..n]), DeerStage(deer[i]), DeerStage(pc), DeerStage(deer[n]));
    if i < n {
      DeerMoves(deer[..n], i, pc);
      assert deer[i := pc][..n] == deer[..n][i := pc];
    } else {
      assert deer[i := pc][..n] == deer[..n];
    }
  }

  lemma {:induction false} ElfMoves(elves: seq<ElfPc>, i: nat, pc: ElfPc)
    requires i < |elves|
    ensures ElfCounts(elves[i := pc]) == Moved(ElfCounts(elves), ElfStage(elves[i]), ElfStage(pc))
    decreases |elves|
  {
    var n := |elves| - 1;
    MovedPlus(ElfCounts(elves[..n]), ElfStage(elves[i]), ElfStage(pc), ElfStage(elves[n]));
    if i < n {
      ElfMoves(elves[..n], i, pc);
      assert elves[i := pc][..n] == elves[..n][i := pc];
    } else {
      assert elves[i := pc][..n] == elves[..n];
    }
  }

  function Total(n: Counts): int
    requires |n| == 8
  {
    n[0] + n[1] + n[2] + n[3] + n[4] + n[5] + n[6] + n[7]
  }

  lemma {:induction false} DeerTotal(deer: seq<DeerPc>)
    ensures Total(DeerCounts(deer)) == |deer|
    decreases |deer|
  {
    if deer != [] {
      DeerTotal(deer[..|deer| - 1]);
    }
  }

  lemma {:induction false} DeerAtMost(deer: seq<DeerPc>, stage: nat)
    requires stage < 8
    ensures DeerCounts(deer)[stage] <= |deer|
    decreases |deer|
  {
    if deer != [] {
      DeerAtMost(deer[..|deer| - 1], stage);
    }
  }

  // Everyone at one stage.
  lemma {:induction false} AllDeerAt(deer: seq<DeerPc>, stage: nat)
    requires stage < 8 && DeerCounts(deer)[stage] >= |deer|
    ensures forall i :: 0 <= i < |deer| ==> DeerStage(deer[i]) == stage
    decreases |deer|
  {
    if deer != [] {
      var n := |deer| - 1;
      DeerAtMost(deer[..n], stage);
      AllDeerAt(deer[..n], stage);
    }
  }

  lemma {:induction false} SomeDeerAt(deer: seq<DeerPc>, stage: nat) returns (i: nat)
    requires stage < 8 && DeerCounts(deer)[stage] > 0
    ensures i < |deer| && DeerStage(deer[i]) == stage
    decreases |deer|
  {
    var n := |deer| - 1;
    if DeerStage(deer[n]) == stage {
      i := n;
    } else {
      i := SomeDeerAt(deer[..n], stage);
    }
  }

  lemma {:induction false} DeerCounted(deer: seq<DeerPc>, i: nat)
    requires i < |deer|
    ensures DeerCounts(deer)[DeerStage(deer[i])] > 0
    decreases |deer|
  {
    var n := |deer| - 1;
    if i < n {
      DeerCounted(deer[..n], i);
    }
  }

  lemma {:induction false} ElfCounted(elves: seq<ElfPc>, i: nat)
    requires i < |elves|
    ensures ElfCounts(elves)[ElfStage(elves[i])] > 0
    decreases |elves|
  {
    var n := |elves| - 1;
    if i < n {
      ElfCounted(elves[..n], i);
    }
  }

  lemma {:induction false} StartCounts(e: nat, r: nat)
    ensures DeerCounts(Init(e, r).deer) == [r, 0, 0, 0, 0, 0, 0, 0]
    ensures ElfCounts(Init(e, r).elves) == [e, 0, 0, 0, 0, 0, 0]
    decreases e + r
  {
    if r > 0 {
      StartCounts(e, r - 1);
      assert Init(e, r).deer[..r - 1] == Init(e, r - 1).deer;
    } else if e > 0 {
      StartCounts(e - 1, r);
      assert Init(e, r).elves[..e - 1] == Init(e - 1, r).elves;
    }
  }
}
