// The elves' side of the Santa program: they wait only for Santa or for one
// another, and a batch that he turns to gets its answers and goes home.

module SantaElves {
  import opened Basics
  import opened Santa
  import opened SantaProofs

  lemma {:induction false} SomeElfAt(elves: seq<ElfPc>, stage: nat) returns (i: nat)
    requires stage < 7 && ElfCounts(elves)[stage] > 0
    ensures i < |elves| && ElfStage(elves[i]) == stage
    decreases |elves|
  {
    var n := |elves| - 1;
    if ElfStage(elves[n]) == stage {
      i := n;
    } else {
      i := SomeElfAt(elves[..n], stage);
    }
  }

  lemma {:induction false} AllElvesAt(elves: seq<ElfPc>, stage: nat)
    requires stage < 7 && forall k :: 0 <= k < 7 && k != stage ==> ElfCounts(elves)[k] == 0
    ensures ElfCounts(elves)[stage] == |elves| && forall i :: 0 <= i < |elves| ==> ElfStage(elves[i]) == stage
    decreases |elves|
  {
    if elves != [] {
      var n := |elves| - 1;
      ElfCounted(elves, n);
      assert ElfStage(elves[n]) == stage;
      assert forall k :: 0 <= k < 7 && k != stage ==> ElfCounts(elves)[k] == ElfCounts(elves[..n])[k];
      AllElvesAt(elves[..n], stage);
    }
  }

  // ------------------------------------------------------------ who can move

  // What the invariant says of the elves alone.
  predicate ElvesKnown(s: State, m: Counts) {
    Nat7(m) && Locks(s) && Counters(s) && ElfTokens(s, m)
  }

  // The elf in the critical section can move.
  lemma HolderMoves(s: State, m: Counts)
    requires m == ElfCounts(s.elves) && ElvesKnown(s, m) && s.elfLock >= 0
    ensures ElfStep(s, s.elfLock).Some?
  {
    ElfCounted(s.elves, s.elfLock);
    assert ElfHolds(s.elves[s.elfLock]);
  }

  // With nobody there, so can one that wants to enter it, or that clears names.
  lemma EntrantMoves(s: State, i: nat)
    requires Locks(s) && Counters(s) && i < |s.elves| && s.elfLock == -1 && ElfStage(s.elves[i]) in {1, 2, 5, 6}
    ensures ElfStep(s, i).Some?
  {
    assert !ElfHolds(s.elves[i]);
  }

  predicate CanMove(s: State, m: Counts)
    requires |m| == 7
  {
    || s.elfLock >= 0 || m[1] > 0 || m[2] > 0 || m[5] > 0 || m[6] > 0
    || (m[3] > 0 && s.question > 0) || (m[4] > 0 && s.answered > 0)
  }

  lemma SomeElfMoves(s: State, m: Counts) returns (i: nat)
    requires m == ElfCounts(s.elves) && ElvesKnown(s, m) && CanMove(s, m)
    ensures i < |s.elves| && ElfStep(s, i).Some? && !s.elves[i].WaitTurn?
  {
    if s.elfLock >= 0 {
      i := s.elfLock;
      HolderMoves(s, m);
      assert ElfHolds(s.elves[i]);
    } else if m[3] > 0 && s.question > 0 {
      i := SomeElfAt(s.elves, 3);
    } else if m[4] > 0 && s.answered > 0 {
      i := SomeElfAt(s.elves, 4);
    } else {
      i := SomeElfAt(s.elves, if m[1] > 0 then 1 else if m[2] > 0 then 2 else if m[5] > 0 then 5 else 6);
      EntrantMoves(s, i);
    }
  }

  // Why no elf can move.
  lemma NobodyMoves(s: State, m: Counts)
    requires ElvesKnown(s, m) && WakeUps(s, m) && !CanMove(s, m) && (m[0] == 0 || s.elf == 0)
    ensures
      || InAnswer(s) || (s.elfCount == 3 && (s.sleeping > 0 || Awake(s)))
      || (s.elfCount == m[3] < 3 && forall k :: 0 <= k < 7 && k != 3 ==> m[k] == 0)
  {
    if !InAnswer(s) {
      assert Gathering(s, m);
      assert ElvesOwed(s) == 0;
    }
  }

  // MAIN: the elves wait only for Santa or for one another: in a reachable state
  // in which no elf can move, Santa is answering, or three elves wait for an
  // answer and have woken him, or fewer than three elves there are, and all wait.
  lemma ElvesWaitForOthers(s: State, e: nat, r: nat, max: int)
    requires r > 0 && Reachable(s, e, r, max) && forall i :: 0 <= i < |s.elves| ==> ElfStep(s, i).None?
    ensures
      || (InAnswer(s) && SantaStep(s, max).Some?)
      || (s.elfCount == 3 && (s.sleeping > 0 || Awake(s)))
      || (|s.elves| == s.elfCount < 3 && forall i :: 0 <= i < |s.elves| ==> s.elves[i].WaitQuestion?)
  {
    ReachableInv(s, e, r, max);
    var m := ElfCounts(s.elves);
    if CanMove(s, m) {
      var i := SomeElfMoves(s, m);
    }
    if m[0] > 0 {
      var i := SomeElfAt(s.elves, 0);
      assert ElfStep(s, i).None?;
    }
    NobodyMoves(s, m);
    if !InAnswer(s) && s.elfCount < 3 {
      AllElvesAt(s.elves, 3);
    }
  }

  // ----------------------------------------------------------------- going home

  // An elf's steps until it waits for its turn again.
  function ElfLeft(pc: ElfPc): nat {
    match pc
    case WaitTurn => 0
    case LockAsk => 20
    case WriteName => 19
    case Join => 18
    case TestThree => 17
    case CallSanta => 16
    case UnlockAsk => 15
    case WaitQuestion => 14
    case WaitAnswer => 13
    case ClearName(k) => if k < 3 then 12 - k else 10
    case LockDone => 9
    case Leave => 8
    case TestEmpty => 7
    case Admit(j) => if j < 3 then 6 - j else 4
    case UnlockDone => 1
  }

  function AllElfLeft(elves: seq<ElfPc>): nat {
    if elves == [] then 0 else AllElfLeft(elves[..|elves| - 1]) + ElfLeft(elves[|elves| - 1])
  }

  lemma {:induction false} LeftMoves(elves: seq<ElfPc>, i: nat, pc: ElfPc)
    requires i < |elves|
    ensures AllElfLeft(elves[i := pc]) + ElfLeft(elves[i]) == AllElfLeft(elves) + ElfLeft(pc)
    decreases |elves|
  {
    var n := |elves| - 1;
    if i < n {
      LeftMoves(elves[..n], i, pc);
      assert elves[i := pc][..n] == elves[..n][i := pc];
    } else {
      assert elves[i := pc][..n] == elves[..n];
    }
  }

  // Santa's steps until the last answer.
  function AnswersLeft(pc: SantaPc): nat {
    match pc
    case UnlockToAnswer => 9
    case Listening(i) => if i < 3 then 8 - i else 6
    case ReadNames => 5
    case Answering(i) => if i < 3 then 4 - i else 2
    case _ => 0
  }

  // The batch is served, or it has left and the next one may come.
  predicate Homeward(s: State, m: Counts)
    requires |m| == 7
  {
    InAnswer(s) || Serving(s, m, 3, 3) || Left(s, m)
  }

  predicate Left(s: State, m: Counts)
    requires |m| == 7
  {
    Gathering(s, m) && m[1] == 0 && s.elfCount == 0
  }

  lemma SantaAnswers(s: State, max: int, m: Counts)
    requires ElvesKnown(s, m) && InAnswer(s) && (s.santa.UnlockToAnswer? ==> s.deerLock == BySanta)
    ensures SantaStep(s, max).Some?
    ensures var s' := SantaStep(s, max).value;
      && AnswersLeft(s'.santa) < AnswersLeft(s.santa) && s'.elves == s.elves
      && (InAnswer(s') || (s'.santa.LoopTest? && Serving(s', m, 3, 3)))
  {
  }

  lemma ElfComesHome(s: State, i: nat, m: Counts)
    requires ElfReady(s, i, m) && !s.elves[i].WaitTurn? && !InAnswer(s) && Homeward(s, m)
    requires var s' := ElfStep(s, i).value; ElfTokens(s', ElfMoved(s, i, m))
    ensures Homeward(ElfStep(s, i).value, ElfMoved(s, i, m))
  {
  }

  lemma ElfSteps(s: State, i: nat)
    requires i < |s.elves| && ElfStep(s, i).Some? && !s.elves[i].WaitTurn?
    requires (s.elves[i].Admit? ==> s.elves[i].j < 3) && (s.elves[i].ClearName? ==> s.elves[i].k < 3)
    ensures var s' := ElfStep(s, i).value;
      |s'.elves| == |s.elves| && ElfLeft(s'.elves[i]) < ElfLeft(s.elves[i])
  {
  }

  lemma InAdmit(s: State, i: nat)
    requires Locks(s) && Counters(s) && i < |s.elves|
    ensures s.elves[i].Admit? ==> s.elves[i].j < 3
  {
    if s.elves[i].Admit? {
      assert ElfHolds(s.elves[i]);
    }
  }

  lemma ElfNearer(s: State, i: nat) returns (pc: ElfPc)
    requires Counters(s) && Locks(s) && i < |s.elves| && ElfStep(s, i).Some? && !s.elves[i].WaitTurn?
    ensures var s' := ElfStep(s, i).value;
      && s'.elves == s.elves[i := pc] && s'.santa == s.santa
      && AllElfLeft(s'.elves) < AllElfLeft(s.elves)
  {
    pc := ElfFrame(s, i);
    InAdmit(s, i);
    ElfSteps(s, i);
    LeftMoves(s.elves, i, pc);
  }

  // One step on the way home.
  lemma OneHomeward(s: State, max: int) returns (who: Actor)
    requires Inv(s, max) && Homeward(s, ElfCounts(s.elves)) && !Home(s)
    ensures !who.DeerActs? && Next(s, max, who).Some?
    ensures var s' := Next(s, max, who).value;
      && Inv(s', max) && Homeward(s', ElfCounts(s'.elves)) && |s'.elves| == |s.elves|
      && AllElfLeft(s'.elves) + AnswersLeft(s'.santa) < AllElfLeft(s.elves) + AnswersLeft(s.santa)
      && (if InAnswer(s) then InAnswer(s') || s'.santa.LoopTest? else s'.santa == s.santa)
  {
    var m := ElfCounts(s.elves);
    if InAnswer(s) {
      who := SantaActs;
      SantaAnswers(s, max, m);
      NextKeeps(s, max, who);
    } else {
      var i := HomeMoves(s, m);
      who := ElfActs(i);
      ElfStepsHome(s, max, i);
    }
  }

  // Everybody waits for a turn, three may take it, and no token is left over.
  predicate Home(s: State) {
    && (forall i :: 0 <= i < |s.elves| ==> s.elves[i].WaitTurn?)
    && s.elf == 3 && s.elfCount == 0 && s.elfLock == -1 && s.question == s.answered == 0 && !InAnswer(s)
  }

  lemma HomeMoves(s: State, m: Counts) returns (i: nat)
    requires ElvesKnown(s, m) && m == ElfCounts(s.elves) && Homeward(s, m) && !InAnswer(s) && !Home(s)
    ensures i < |s.elves| && ElfStep(s, i).Some? && !s.elves[i].WaitTurn?
  {
    if !CanMove(s, m) {
      AllElvesAt(s.elves, 0);
      assert false;
    }
    i := SomeElfMoves(s, m);
  }

  lemma ElfStepsHome(s: State, max: int, i: nat)
    requires Inv(s, max) && Homeward(s, ElfCounts(s.elves)) && !InAnswer(s)
    requires i < |s.elves| && ElfStep(s, i).Some? && !s.elves[i].WaitTurn?
    ensures var s' := ElfStep(s, i).value;
      && Inv(s', max) && Homeward(s', ElfCounts(s'.elves)) && s'.santa == s.santa && |s'.elves| == |s.elves|
      && AllElfLeft(s'.elves) < AllElfLeft(s.elves)
  {
    var m := ElfCounts(s.elves);
    ElfKeeps(s, max, i);
    var pc := ElfNearer(s, i);
    ElfMoves(s.elves, i, pc);
    ElfCounted(s.elves, i);
    if s.elfLock >= 0 {
      ElfCounted(s.elves, s.elfLock);
    }
    ElfComesHome(s, i, m);
  }

  predicate NoDeer(schedule: seq<Actor>) {
    forall k :: 0 <= k < |schedule| ==> !schedule[k].DeerActs?
  }

  lemma Before(s: State, max: int, who: Actor, rest: seq<Actor>) returns (schedule: seq<Actor>)
    requires Next(s, max, who).Some? && !who.DeerActs? && NoDeer(rest)
    ensures NoDeer(schedule) && Run(s, max, schedule) == Run(Next(s, max, who).value, max, rest)
  {
    schedule := [who] + rest;
    assert schedule[1..] == rest;
  }

  lemma {:induction false} GoHome(s: State, max: int) returns (schedule: seq<Actor>)
    requires Inv(s, max) && Homeward(s, ElfCounts(s.elves))
    ensures NoDeer(schedule) && Run(s, max, schedule).Some? && Home(Run(s, max, schedule).value)
    ensures |Run(s, max, schedule).value.elves| == |s.elves| && Inv(Run(s, max, schedule).value, max)
    ensures var santa := Run(s, max, schedule).value.santa;
      if InAnswer(s) then santa.LoopTest? else santa == s.santa
    decreases AllElfLeft(s.elves) + AnswersLeft(s.santa)
  {
    if Home(s) {
      schedule := [];
    } else {
      var who := OneHomeward(s, max);
      var rest := GoHome(Next(s, max, who).value, max);
      schedule := Before(s, max, who, rest);
    }
  }

  // MAIN: once Santa has turned to the elves, he and they alone can carry on
  // until all three have their answers and are home, and three may ask again.
  lemma BatchGoesHome(s: State, e: nat, r: nat, max: int) returns (schedule: seq<Actor>)
    requires r > 0 && Reachable(s, e, r, max) && InAnswer(s)
    ensures NoDeer(schedule) && Run(s, max, schedule).Some?
    ensures var end := Run(s, max, schedule).value;
      && (forall i :: 0 <= i < |end.elves| ==> end.elves[i].WaitTurn?)
      && end.elf == 3 && end.elfCount == 0 && end.question == end.answered == 0 && end.santa.LoopTest?
  {
    ReachableInv(s, e, r, max);
    schedule := GoHome(s, max);
  }

  // --------------------------------------------------------------------- asking

  // The elves' steps until a batch is full.
  function AskLeft(s: State): int {
    21 * (s.elf + ElvesOwed(s)) + AllElfLeft(s.elves)
  }

  lemma TokensUsed(s: State, i: nat, m: Counts)
    requires ElfReady(s, i, m) && !InAnswer(s) && Gathering(s, m) && (s.elves[i].Admit? ==> s.elves[i].j < 3)
    ensures var s' := ElfStep(s, i).value;
      && |s'.elves| == |s.elves|
      && 21 * (s'.elf + ElvesOwed(s')) + ElfLeft(s'.elves[i]) < 21 * (s.elf + ElvesOwed(s)) + ElfLeft(s.elves[i])
  {
    var pc := ElfFrame(s, i);
  }

  lemma StillGathering(s: State, i: nat, m: Counts)
    requires ElfReady(s, i, m) && !InAnswer(s) && Gathering(s, m)
    requires var s' := ElfStep(s, i).value; ElfTokens(s', ElfMoved(s, i, m))
    ensures var s' := ElfStep(s, i).value; !InAnswer(s') && Gathering(s', ElfMoved(s, i, m))
  {
  }

  lemma OneAsks(s: State, max: int, i: nat)
    requires Inv(s, max) && !InAnswer(s) && Gathering(s, ElfCounts(s.elves)) && i < |s.elves| && ElfStep(s, i).Some?
    ensures var s' := ElfStep(s, i).value;
      && Inv(s', max) && !InAnswer(s') && Gathering(s', ElfCounts(s'.elves)) && |s'.elves| == |s.elves|
      && AskLeft(s') < AskLeft(s)
  {
    var m := ElfCounts(s.elves);
    ElfKeeps(s, max, i);
    InAdmit(s, i);
    var pc := ElfFrame(s, i);
    ElfMoves(s.elves, i, pc);
    LeftMoves(s.elves, i, pc);
    ElfCounted(s.elves, i);
    if s.elfLock >= 0 {
      ElfCounted(s.elves, s.elfLock);
    }
    TokensUsed(s, i, m);
    StillGathering(s, i, m);
  }

  // A full batch waits, and Santa has been woken for it.
  predicate Asking(s: State) {
    ElfBatchPending(s, ElfCounts(s.elves)) && (s.sleeping > 0 || Awake(s))
  }

  lemma {:induction false} GoAsk(s: State, max: int) returns (schedule: seq<Actor>)
    requires Inv(s, max) && !InAnswer(s) && Gathering(s, ElfCounts(s.elves)) && |s.elves| >= 3
    ensures NoDeer(schedule) && Run(s, max, schedule).Some? && Asking(Run(s, max, schedule).value)
    decreases AskLeft(s)
  {
    var m := ElfCounts(s.elves);
    if i :| 0 <= i < |s.elves| && ElfStep(s, i).Some? {
      OneAsks(s, max, i);
      var rest := GoAsk(ElfStep(s, i).value, max);
      schedule := Before(s, max, ElfActs(i), rest);
    } else {
      AllWait(s, m);
      schedule := [];
    }
  }

  lemma AllWait(s: State, m: Counts)
    requires m == ElfCounts(s.elves) && ElvesKnown(s, m) && WakeUps(s, m) && !InAnswer(s) && Gathering(s, m) && |s.elves| >= 3
    requires forall i :: 0 <= i < |s.elves| ==> ElfStep(s, i).None?
    ensures Asking(s)
  {
    if CanMove(s, m) {
      var i := SomeElfMoves(s, m);
    }
    if m[0] > 0 {
      var i := SomeElfAt(s.elves, 0);
      assert ElfStep(s, i).None?;
    }
    NobodyMoves(s, m);
    if s.elfCount < 3 {
      AllElvesAt(s.elves, 3);
    }
  }

  // MAIN: with three elves or more, from every reachable state the elves, and
  // Santa if he is answering, can carry on until three wait for an answer and
  // have woken him, whatever the reindeer do not do.
  lemma ElvesAsk(s: State, e: nat, r: nat, max: int) returns (schedule: seq<Actor>)
    requires r > 0 && Reachable(s, e, r, max) && |s.elves| >= 3
    ensures NoDeer(schedule) && Run(s, max, schedule).Some?
    ensures var end := Run(s, max, schedule).value;
      end.elfCount == 3 && ElfBatchPending(end, ElfCounts(end.elves)) && (end.sleeping > 0 || Awake(end))
  {
    ReachableInv(s, e, r, max);
    var m := ElfCounts(s.elves);
    var home: seq<Actor> := [];
    if Homeward(s, m) {
      home := GoHome(s, max);
      HomeGathers(Run(s, max, home).value);
    }
    var asks := GoAsk(Run(s, max, home).value, max);
    RunBoth(s, max, home, asks);
    schedule := home + asks;
  }

  lemma HomeGathers(s: State)
    requires Home(s) && ElfTokens(s, ElfCounts(s.elves))
    ensures Gathering(s, ElfCounts(s.elves))
  {
  }

  lemma {:induction false} RunBoth(s: State, max: int, a: seq<Actor>, b: seq<Actor>)
    requires Run(s, max, a).Some?
    ensures Run(s, max, a + b) == Run(Run(s, max, a).value, max, b)
    decreases |a|
  {
    if a == [] {
      assert a + b == b;
    } else {
      assert (a + b)[0] == a[0] && (a + b)[1..] == a[1..] + b;
      RunBoth(Next(s, max, a[0]).value, max, a[1..], b);
    }
  }
}
