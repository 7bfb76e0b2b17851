// Safety and progress of the Santa program, for any number of elves, any
// number of reindeer and every schedule.

module SantaProofs {
  import opened Basics
  import opened Santa

  // --------------------------------------------------- where each thread stands

  // What Santa has handed out and collected in the current delivery.
  function SleighGiven(s: State): nat {
    match s.santa
    case Hitching(i) => i
    case WaitHitched(_) => |s.deer| case Deliver => |s.deer| case Freeing(_) => |s.deer|
    case WaitUnhitched(_) => |s.deer| case ResetCount => |s.deer|
    case _ => 0
  }

  function HitchedTaken(s: State): nat {
    match s.santa
    case WaitHitched(i) => i
    case Deliver => |s.deer| case Freeing(_) => |s.deer| case WaitUnhitched(_) => |s.deer| case ResetCount => |s.deer|
    case _ => 0
  }

  function FlyingGiven(s: State): nat {
    match s.santa
    case Freeing(i) => i
    case WaitUnhitched(_) => |s.deer| case ResetCount => |s.deer|
    case _ => 0
  }

  function UnhitchTaken(s: State): nat {
    match s.santa
    case WaitUnhitched(i) => i
    case ResetCount => |s.deer|
    case _ => 0
  }

  // Reindeer signals Santa still owes after a delivery.
  function ReindeerOwed(s: State): int {
    match s.santa
    case Releasing(i) => |s.deer| - i
    case _ => 0
  }

  predicate Delivering(s: State) {
    s.santa.UnlockToDeliver? || s.santa.Hitching? || s.santa.WaitHitched? || s.santa.Deliver?
    || s.santa.Freeing? || s.santa.WaitUnhitched? || s.santa.ResetCount?
  }

  predicate InAnswer(s: State) {
    s.santa.UnlockToAnswer? || s.santa.Listening? || s.santa.ReadNames? || s.santa.Answering?
  }

  function QuestionsGiven(s: State): nat {
    match s.santa
    case Listening(i) => i
    case ReadNames => 3 case Answering(_) => 3
    case _ => 0
  }

  function AnswersGiven(s: State): nat {
    match s.santa
    case Answering(i) => i
    case _ => 0
  }

  predicate Awake(s: State) {
    s.santa.LockDeer? || s.santa.TestDeer?
  }

  // Program counters at which a thread holds its mutex.
  predicate DeerHolds(pc: DeerPc) {
    pc.Arrive? || pc.TestLast? || pc.CallOthers? || pc.WakeSanta? || pc.UnlockIn?
  }

  predicate ElfHolds(pc: ElfPc) {
    pc.WriteName? || pc.Join? || pc.TestThree? || pc.CallSanta? || pc.UnlockAsk?
    || pc.Leave? || pc.TestEmpty? || pc.Admit? || pc.UnlockDone?
  }

  // The program counter of the reindeer, or elf, in its critical section.
  function DeerInside(s: State): Option<DeerPc> {
    if s.deerLock.ByDeer? && s.deerLock.deer < |s.deer| then Some(s.deer[s.deerLock.deer]) else None
  }

  function ElfInside(s: State): Option<ElfPc> {
    if 0 <= s.elfLock < |s.elves| then Some(s.elves[s.elfLock]) else None
  }

  // Waiting_Deer signals given to the batch that has gathered.
  function OthersCalled(s: State): nat {
    match DeerInside(s)
    case Some(TestLast) => 0
    case Some(CallOthers(j)) => j
    case _ => if s.deerCount == |s.deer| then |s.deer| else 0
  }

  // Elf signals the last elf of a batch still owes.
  function ElvesOwed(s: State): int {
    match ElfInside(s)
    case Some(TestEmpty) => if s.elfCount == 0 then 3 else 0
    case Some(Admit(j)) => 3 - j
    case _ => 0
  }

  // A full batch of reindeer, or of elves, has woken Santa and is not served yet.
  predicate DeerBatchPending(s: State) {
    && s.deerCount == |s.deer|
    && !Delivering(s)
    && !(DeerInside(s).Some? && (DeerInside(s).value.TestLast? || DeerInside(s).value.CallOthers? || DeerInside(s).value.WakeSanta?))
  }

  predicate ElfBatchPending(s: State, m: Counts)
    requires |m| == 7
  {
    && s.elfCount == 3
    && !InAnswer(s)
    && s.question == 0 && m[4] == 0 && m[5] == 0
    && !(ElfInside(s).Some? && (ElfInside(s).value.TestThree? || ElfInside(s).value.CallSanta?))
  }

  // ------------------------------------------------------------------ invariant

  predicate Locks(s: State) {
    && (s.deerLock == BySanta <==> s.santa.TestDeer? || s.santa.UnlockToDeliver? || s.santa.UnlockToAnswer?)
    && (s.deerLock.ByDeer? ==> s.deerLock.deer < |s.deer|)
    && (forall i :: 0 <= i < |s.deer| ==> (DeerHolds(s.deer[i]) <==> s.deerLock == ByDeer(i)))
    && -1 <= s.elfLock < |s.elves|
    && (forall i :: 0 <= i < |s.elves| ==> (ElfHolds(s.elves[i]) <==> s.elfLock == i))
  }

  // Loop counters are in range, and what a branch has tested still holds.
  predicate Counters(s: State) {
    var r := |s.deer|;
    && r > 0 && |s.waitingElves| == 3
    && (s.santa.Hitching? ==> s.santa.i < r) && (s.santa.WaitHitched? ==> s.santa.i < r)
    && (s.santa.Freeing? ==> s.santa.i < r) && (s.santa.WaitUnhitched? ==> s.santa.i < r)
    && (s.santa.Releasing? ==> s.santa.i < r)
    && (s.santa.Listening? ==> s.santa.i < 3) && (s.santa.Answering? ==> s.santa.i < 3)
    && (DeerInside(s).Some? ==>
          && (DeerInside(s).value.CallOthers? ==> DeerInside(s).value.j < r && s.deerCount == r)
          && (DeerInside(s).value.WakeSanta? ==> s.deerCount == r))
    && (forall i :: 0 <= i < |s.elves| ==> (s.elves[i].ClearName? ==> s.elves[i].k < 3))
    && (ElfInside(s).Some? ==>
          && (ElfInside(s).value.Admit? ==> ElfInside(s).value.j < 3 && s.elfCount == 0)
          && (ElfInside(s).value.CallSanta? ==> s.elfCount == 3))
  }

  predicate DeerTokens(s: State, n: Counts)
    requires |n| == 8
  {
    var r := |s.deer|;
    var done := n[0];
    if Delivering(s) then
      && s.deerCount == r && s.reindeer == 0 && n[1] == 0 && n[2] == 0
      && s.waitingDeer + n[4] + n[5] + n[6] + n[7] + done == r
      && s.sleigh + n[5] + n[6] + n[7] + done == SleighGiven(s)
      && s.hitched + HitchedTaken(s) == n[6] + n[7] + done
      && s.flying + n[7] + done == FlyingGiven(s)
      && s.unhitch + UnhitchTaken(s) == done
    else
      && s.reindeer + n[1] + s.deerCount + ReindeerOwed(s) == r
      && n[2] + n[3] + n[4] == s.deerCount
      && n[5] == 0 && n[6] == 0 && n[7] == 0
      && s.sleigh == 0 && s.hitched == 0 && s.flying == 0 && s.unhitch == 0
      && s.waitingDeer + n[4] == OthersCalled(s)
  }

  // No elf of the current batch has had an answer yet.
  predicate Gathering(s: State, m: Counts)
    requires |m| == 7
  {
    && s.elf + m[1] + s.elfCount + ElvesOwed(s) == 3
    && s.question == 0 && s.answered == 0 && m[4] == 0 && m[5] == 0
  }

  // The batch is closed: nobody else may join until all three have left.
  predicate Serving(s: State, m: Counts, questions: nat, answers: nat)
    requires |m| == 7
  {
    && s.elf == 0 && m[1] == 0 && ElvesOwed(s) == 0
    && 1 <= s.elfCount <= 3
    && s.question + m[4] + m[5] + (3 - s.elfCount) == questions
    && s.answered + m[5] + (3 - s.elfCount) == answers
    && !(ElfInside(s).Some? && (ElfInside(s).value.TestThree? || ElfInside(s).value.CallSanta?))
  }

  predicate ElfTokens(s: State, m: Counts)
    requires |m| == 7
  {
    && s.elfCount == m[2] + m[3] + m[4] + m[5]
    && if InAnswer(s) then Serving(s, m, QuestionsGiven(s), AnswersGiven(s))
       else Gathering(s, m) || Serving(s, m, 3, 3)
  }

  // waiting_elves lists the batch, from the first question until the first answer.
  predicate Asked(pc: ElfPc) {
    2 <= ElfStage(pc) <= 4
  }

  predicate ListMatters(s: State, m: Counts)
    requires |m| == 7
  {
    Gathering(s, m) || (s.elfCount == 3 && m[5] == 0)
  }

  // The first count names are distinct, and are exactly the elves that wait.
  predicate Listed(names: seq<int>, count: nat, elves: seq<ElfPc>)
    requires |names| == 3
  {
    && count <= 3
    && (forall k :: 0 <= k < count ==> 0 <= names[k] < |elves| && Asked(elves[names[k]]))
    && (forall k, l :: 0 <= k < l < count ==> names[k] != names[l])
    && (forall i :: 0 <= i < |elves| && Asked(elves[i]) ==> exists k :: 0 <= k < count && names[k] == i)
  }

  lemma ListedStep(names: seq<int>, count: nat, elves: seq<ElfPc>, i: nat, pc: ElfPc)
    requires |names| == 3 && Listed(names, count, elves) && i < |elves| && Asked(pc) == Asked(elves[i])
    ensures Listed(names, count, elves[i := pc])
  {
  }

  lemma ListedJoin(names: seq<int>, count: nat, elves: seq<ElfPc>, i: nat, pc: ElfPc)
    requires |names| == 3 && Listed(names, count, elves) && i < |elves| && count < 3
    requires names[count] == i && !Asked(elves[i]) && Asked(pc)
    ensures Listed(names, count + 1, elves[i := pc])
  {
    var elves' := elves[i := pc];
    forall j | 0 <= j < |elves'| && Asked(elves'[j])
      ensures exists k :: 0 <= k < count + 1 && names[k] == j
    {
      if j == i {
        assert names[count] == j;
      } else {
        assert Asked(elves[j]);
      }
    }
  }

  lemma ListedWrite(names: seq<int>, count: nat, elves: seq<ElfPc>, i: nat)
    requires |names| == 3 && Listed(names, count, elves) && count < 3
    ensures Listed(names[count := i], count, elves)
  {
    var names' := names[count := i];
    forall j | 0 <= j < |elves| && Asked(elves[j])
      ensures exists k :: 0 <= k < count && names'[k] == j
    {
      var k :| 0 <= k < count && names[k] == j;
      assert names'[k] == j;
    }
  }

  predicate Names(s: State, m: Counts)
    requires |s.waitingElves| == 3 && |m| == 7
  {
    ListMatters(s, m) ==>
      && Listed(s.waitingElves, s.elfCount, s.elves)
      && (ElfInside(s) == Some(Join) && s.elfCount < 3 ==> s.waitingElves[s.elfCount] == s.elfLock)
  }

  // Sleeping signals not yet consumed, plus a Santa who woke and has not yet
  // decided whom to serve, are exactly the batches waiting to be served.
  predicate WakeUps(s: State, m: Counts)
    requires |m| == 7
  {
    s.sleeping + B(Awake(s)) == B(DeerBatchPending(s)) + B(ElfBatchPending(s, m))
  }

  predicate Deliveries(s: State, max: int) {
    && (s.delivery <= max || s.delivery == 0 || s.delivery == max + 1)
    && (s.santa.Retired? ==> s.delivery > max)
    && (Busy(s) ==> s.delivery <= max)
  }

  // Between the loop test and the delivery.
  predicate Busy(s: State) {
    s.santa.WaitSleeping? || Awake(s) || InAnswer(s) || s.santa.UnlockToDeliver? || s.santa.Hitching?
    || s.santa.WaitHitched? || s.santa.Deliver?
  }

  predicate Inv(s: State, max: int) {
    var n, m := DeerCounts(s.deer), ElfCounts(s.elves);
    && Locks(s) && Counters(s) && DeerTokens(s, n) && ElfTokens(s, m) && Names(s, m) && WakeUps(s, m) && Deliveries(s, max)
  }

  lemma InitOk(e: nat, r: nat, max: int)
    requires r > 0
    ensures Inv(Init(e, r), max)
  {
    StartCounts(e, r);
  }

  // -------------------------------------------------------------- Santa's steps

  // The reindeer in the critical section, if any, is among those counted.
  predicate InsideCounted(s: State, n: Counts)
    requires |n| == 8
  {
    && (DeerInside(s).Some? ==> n[DeerStage(DeerInside(s).value)] > 0)
    && (DeerInside(s).None? ==> n[2] == 0)
  }

  lemma InsideIsCounted(s: State)
    requires Locks(s)
    ensures InsideCounted(s, DeerCounts(s.deer))
  {
    if DeerInside(s).Some? {
      DeerCounted(s.deer, s.deerLock.deer);
    } else if DeerCounts(s.deer)[2] > 0 {
      var i := SomeDeerAt(s.deer, 2);
    }
  }

  lemma SantaKeeps(s: State, max: int)
    requires Inv(s, max) && SantaStep(s, max).Some?
    ensures Inv(SantaStep(s, max).value, max)
  {
    var n, m := DeerCounts(s.deer), ElfCounts(s.elves);
    DeerTotal(s.deer);
    InsideIsCounted(s);
    SantaFrame(s, max);
    SantaKeepsLocks(s, max, n);
    SantaKeepsDeer(s, max, n);
    SantaKeepsElves(s, max, m);
    SantaKeepsNames(s, max, m);
    SantaKeepsWakeUps(s, max, n, m);
    SantaKeepsDeliveries(s, max);
  }

  // What Santa's steps leave alone.
  lemma SantaFrame(s: State, max: int)
    requires SantaStep(s, max).Some?
    ensures var s' := SantaStep(s, max).value;
      && s'.deer == s.deer && s'.elves == s.elves && s'.elf == s.elf && s'.elfLock == s.elfLock
      && s'.elfCount == s.elfCount && s'.waitingElves == s.waitingElves && s'.waitingDeer == s.waitingDeer
  {
  }

  lemma SantaKeepsLocks(s: State, max: int, n: Counts)
    requires |n| == 8 && Locks(s) && Counters(s) && DeerTokens(s, n) && InsideCounted(s, n)
    requires SantaStep(s, max).Some?
    ensures var s' := SantaStep(s, max).value;
      Locks(s') && Counters(s')
  {
    SantaFrame(s, max);
  }

  // Everything the lemmas on Santa's dealings with the reindeer start from.
  predicate SantaDeerReady(s: State, max: int, n: Counts) {
    && |n| == 8 && Total(n) == |s.deer| && (forall k :: 0 <= k < 8 ==> n[k] >= 0)
    && Locks(s) && Counters(s) && DeerTokens(s, n) && InsideCounted(s, n) && SantaStep(s, max).Some?
  }

  lemma SantaKeepsDeer(s: State, max: int, n: Counts)
    requires SantaDeerReady(s, max, n)
    ensures DeerTokens(SantaStep(s, max).value, n)
  {
    if s.santa.TestDeer? {
      SantaStartsDelivery(s, max, n);
    } else if s.santa.UnlockToDeliver? || s.santa.Hitching? || s.santa.WaitHitched? {
      SantaHitches(s, max, n);
    } else if Delivering(s) {
      SantaFreesDeer(s, max, n);
    } else {
      SantaElsewhere(s, max, n);
    }
  }

  lemma SantaStartsDelivery(s: State, max: int, n: Counts)
    requires SantaDeerReady(s, max, n) && s.santa.TestDeer?
    ensures DeerTokens(SantaStep(s, max).value, n)
  {
    SantaFrame(s, max);
  }

  lemma SantaHitches(s: State, max: int, n: Counts)
    requires SantaDeerReady(s, max, n) && (s.santa.UnlockToDeliver? || s.santa.Hitching? || s.santa.WaitHitched?)
    ensures DeerTokens(SantaStep(s, max).value, n)
  {
    SantaFrame(s, max);
  }

  lemma SantaFreesDeer(s: State, max: int, n: Counts)
    requires SantaDeerReady(s, max, n)
    requires s.santa.Deliver? || s.santa.Freeing? || s.santa.WaitUnhitched? || s.santa.ResetCount?
    ensures DeerTokens(SantaStep(s, max).value, n)
  {
    SantaFrame(s, max);
  }

  lemma SantaElsewhere(s: State, max: int, n: Counts)
    requires SantaDeerReady(s, max, n) && !Delivering(s) && !s.santa.TestDeer?
    ensures DeerTokens(SantaStep(s, max).value, n)
  {
    SantaFrame(s, max);
  }

  lemma SantaKeepsElves(s: State, max: int, m: Counts)
    requires |m| == 7 && (forall k :: 0 <= k < 7 ==> m[k] >= 0)
    requires Locks(s) && Counters(s) && ElfTokens(s, m) && WakeUps(s, m)
    requires SantaStep(s, max).Some?
    ensures var s' := SantaStep(s, max).value;
      ElfTokens(s', m)
  {
    SantaFrame(s, max);
  }

  lemma SantaKeepsNames(s: State, max: int, m: Counts)
    requires |m| == 7 && Counters(s) && Names(s, m)
    requires SantaStep(s, max).Some?
    ensures var s' := SantaStep(s, max).value;
      |s'.waitingElves| == 3 && Names(s', m)
  {
    SantaFrame(s, max);
  }

  lemma SantaKeepsWakeUps(s: State, max: int, n: Counts, m: Counts)
    requires |n| == 8 && |m| == 7 && (forall k :: 0 <= k < 7 ==> m[k] >= 0)
    requires Locks(s) && Counters(s) && DeerTokens(s, n) && ElfTokens(s, m) && WakeUps(s, m)
    requires SantaStep(s, max).Some?
    ensures var s' := SantaStep(s, max).value;
      WakeUps(s', m)
  {
    SantaFrame(s, max);
  }

  lemma SantaKeepsDeliveries(s: State, max: int)
    requires Deliveries(s, max)
    requires SantaStep(s, max).Some?
    ensures var s' := SantaStep(s, max).value;
      Deliveries(s', max)
  {
  }

  // --------------------------------------------------------- the reindeer's steps

  // What a reindeer's step leaves alone, and where it puts the reindeer.
  lemma DeerFrame(s: State, i: nat) returns (pc: DeerPc)
    requires i < |s.deer| && DeerStep(s, i).Some?
    ensures var s' := DeerStep(s, i).value;
      && s'.deer == s.deer[i := pc] && pc == s'.deer[i]
      && s'.elves == s.elves && s'.elf == s.elf && s'.elfLock == s.elfLock && s'.elfCount == s.elfCount
      && s'.waitingElves == s.waitingElves && s'.question == s.question && s'.answered == s.answered
      && s'.santa == s.santa && s'.delivery == s.delivery
  {
    pc := DeerStep(s, i).value.deer[i];
  }

  // Everything the lemmas on one reindeer step start from.
  predicate DeerReady(s: State, i: nat, n: Counts) {
    && |n| == 8 && Total(n) == |s.deer| && (forall k :: 0 <= k < 8 ==> n[k] >= 0)
    && i < |s.deer| && DeerStep(s, i).Some? && Locks(s) && Counters(s)
    && DeerTokens(s, n) && InsideCounted(s, n) && n[DeerStage(s.deer[i])] > 0
  }

  lemma DeerKeepsLocks(s: State, i: nat, n: Counts)
    requires DeerReady(s, i, n)
    ensures Locks(DeerStep(s, i).value) && Counters(DeerStep(s, i).value)
  {
    if DeerStage(s.deer[i]) <= 1 {
      DeerKeepsLocks1(s, i, n);
    } else if DeerStage(s.deer[i]) == 2 {
      DeerKeepsLocks2(s, i, n);
    } else {
      DeerKeepsLocks3(s, i, n);
    }
  }

  lemma DeerKeepsLocks1(s: State, i: nat, n: Counts)
    requires DeerReady(s, i, n) && DeerStage(s.deer[i]) <= 1
    ensures Locks(DeerStep(s, i).value) && Counters(DeerStep(s, i).value)
  {
    var pc := DeerFrame(s, i);
  }

  lemma DeerKeepsLocks2(s: State, i: nat, n: Counts)
    requires DeerReady(s, i, n) && DeerStage(s.deer[i]) == 2
    ensures Locks(DeerStep(s, i).value) && Counters(DeerStep(s, i).value)
  {
    var pc := DeerFrame(s, i);
  }

  lemma DeerKeepsLocks3(s: State, i: nat, n: Counts)
    requires DeerReady(s, i, n) && DeerStage(s.deer[i]) >= 3
    ensures Locks(DeerStep(s, i).value) && Counters(DeerStep(s, i).value)
  {
    var pc := DeerFrame(s, i);
  }

  lemma DeerKeepsTokens(s: State, i: nat, n: Counts)
    requires DeerReady(s, i, n)
    ensures var s' := DeerStep(s, i).value;
      DeerTokens(s', Moved(n, DeerStage(s.deer[i]), DeerStage(s'.deer[i])))
  {
    if DeerStage(s.deer[i]) <= 1 {
      DeerKeepsTokens1(s, i, n);
    } else if DeerStage(s.deer[i]) == 2 {
      DeerKeepsTokens2(s, i, n);
    } else {
      DeerKeepsTokens3(s, i, n);
    }
  }

  lemma DeerKeepsTokens1(s: State, i: nat, n: Counts)
    requires DeerReady(s, i, n) && DeerStage(s.deer[i]) <= 1
    ensures var s' := DeerStep(s, i).value;
      DeerTokens(s', Moved(n, DeerStage(s.deer[i]), DeerStage(s'.deer[i])))
  {
    var pc := DeerFrame(s, i);
  }

  lemma DeerKeepsTokens2(s: State, i: nat, n: Counts)
    requires DeerReady(s, i, n) && DeerStage(s.deer[i]) == 2
    ensures var s' := DeerStep(s, i).value;
      DeerTokens(s', Moved(n, DeerStage(s.deer[i]), DeerStage(s'.deer[i])))
  {
    var pc := DeerFrame(s, i);
  }

  lemma DeerKeepsTokens3(s: State, i: nat, n: Counts)
    requires DeerReady(s, i, n) && DeerStage(s.deer[i]) >= 3
    ensures var s' := DeerStep(s, i).value;
      DeerTokens(s', Moved(n, DeerStage(s.deer[i]), DeerStage(s'.deer[i])))
  {
    match s.deer[i]
    case WaitOthers => StepWaitOthers(s, i, n);
    case WaitSleigh => StepWaitSleigh(s, i, n);
    case TellHitched => StepTellHitched(s, i, n);
    case WaitFlying => StepWaitFlying(s, i, n);
    case TellUnhitched => StepTellUnhitched(s, i, n);
  }

  lemma StepWaitOthers(s: State, i: nat, n: Counts)
    requires DeerReady(s, i, n) && s.deer[i].WaitOthers?
    ensures var s' := DeerStep(s, i).value;
      DeerTokens(s', Moved(n, DeerStage(s.deer[i]), DeerStage(s'.deer[i])))
  {
    OutsideFrame(s, i, n);
    AtWaitOthers(s, DeerStep(s, i).value, n);
  }

  lemma StepWaitSleigh(s: State, i: nat, n: Counts)
    requires DeerReady(s, i, n) && s.deer[i].WaitSleigh?
    ensures var s' := DeerStep(s, i).value;
      DeerTokens(s', Moved(n, DeerStage(s.deer[i]), DeerStage(s'.deer[i])))
  {
    OutsideFrame(s, i, n);
    AtWaitSleigh(s, DeerStep(s, i).value, n);
  }

  lemma StepTellHitched(s: State, i: nat, n: Counts)
    requires DeerReady(s, i, n) && s.deer[i].TellHitched?
    ensures var s' := DeerStep(s, i).value;
      DeerTokens(s', Moved(n, DeerStage(s.deer[i]), DeerStage(s'.deer[i])))
  {
    OutsideFrame(s, i, n);
    AtTellHitched(s, DeerStep(s, i).value, n);
  }

  lemma StepWaitFlying(s: State, i: nat, n: Counts)
    requires DeerReady(s, i, n) && s.deer[i].WaitFlying?
    ensures var s' := DeerStep(s, i).value;
      DeerTokens(s', Moved(n, DeerStage(s.deer[i]), DeerStage(s'.deer[i])))
  {
    OutsideFrame(s, i, n);
    AtWaitFlying(s, DeerStep(s, i).value, n);
  }

  lemma StepTellUnhitched(s: State, i: nat, n: Counts)
    requires DeerReady(s, i, n) && s.deer[i].TellUnhitched?
    ensures var s' := DeerStep(s, i).value;
      DeerTokens(s', Moved(n, DeerStage(s.deer[i]), DeerStage(s'.deer[i])))
  {
    OutsideFrame(s, i, n);
    AtTellUnhitched(s, DeerStep(s, i).value, n);
  }

  // A reindeer outside the critical section takes or gives one token.
  predicate Outside(s: State, s': State, n: Counts, stage: nat) {
    && |n| == 8 && stage < 8 && (forall k :: 0 <= k < 8 ==> n[k] >= 0) && n[stage] > 0
    && |s'.deer| == |s.deer| && OthersCalled(s') == OthersCalled(s) && DeerTokens(s, n)
  }

  lemma OutsideFrame(s: State, i: nat, n: Counts)
    requires DeerReady(s, i, n) && DeerStage(s.deer[i]) >= 3
    ensures Outside(s, DeerStep(s, i).value, n, DeerStage(s.deer[i]))
  {
    var pc := DeerFrame(s, i);
    assert DeerInside(DeerStep(s, i).value) == DeerInside(s);
  }

  lemma AtWaitOthers(s: State, s': State, n: Counts)
    requires Outside(s, s', n, 3) && s.waitingDeer > 0
    requires s' == s.(waitingDeer := s.waitingDeer - 1, deer := s'.deer)
    ensures DeerTokens(s', Moved(n, 3, 4))
  {
  }

  lemma AtWaitSleigh(s: State, s': State, n: Counts)
    requires Outside(s, s', n, 4) && s.sleigh > 0
    requires s' == s.(sleigh := s.sleigh - 1, deer := s'.deer)
    ensures DeerTokens(s', Moved(n, 4, 5))
  {
  }

  lemma AtTellHitched(s: State, s': State, n: Counts)
    requires Outside(s, s', n, 5)
    requires s' == s.(hitched := s.hitched + 1, deer := s'.deer)
    ensures DeerTokens(s', Moved(n, 5, 6))
  {
  }

  lemma AtWaitFlying(s: State, s': State, n: Counts)
    requires Outside(s, s', n, 6) && s.flying > 0
    requires s' == s.(flying := s.flying - 1, deer := s'.deer)
    ensures DeerTokens(s', Moved(n, 6, 7))
  {
  }

  lemma AtTellUnhitched(s: State, s': State, n: Counts)
    requires Outside(s, s', n, 7)
    requires s' == s.(unhitch := s.unhitch + 1, deer := s'.deer)
    ensures DeerTokens(s', Moved(n, 7, 0))
  {
  }

  lemma DeerKeepsElves(s: State, i: nat, m: Counts)
    requires |m| == 7 && i < |s.deer| && DeerStep(s, i).Some? && |s.waitingElves| == 3 && ElfTokens(s, m) && Names(s, m)
    ensures ElfTokens(DeerStep(s, i).value, m) && Names(DeerStep(s, i).value, m)
  {
    var pc := DeerFrame(s, i);
  }

  predicate DeerWakeReady(s: State, i: nat, n: Counts, m: Counts) {
    && |n| == 8 && |m| == 7 && i < |s.deer| && DeerStep(s, i).Some? && Locks(s) && Counters(s)
    && DeerTokens(s, n) && n[DeerStage(s.deer[i])] > 0 && WakeUps(s, m) && (forall k :: 0 <= k < 8 ==> n[k] >= 0)
  }

  lemma DeerKeepsWakeUps(s: State, i: nat, n: Counts, m: Counts)
    requires DeerWakeReady(s, i, n, m)
    ensures WakeUps(DeerStep(s, i).value, m)
  {
    if DeerStage(s.deer[i]) <= 1 {
      DeerArrivesWakeUps(s, i, n, m);
    } else if DeerStage(s.deer[i]) == 2 {
      DeerCallsWakeUps(s, i, n, m);
    } else {
      DeerPullsWakeUps(s, i, n, m);
    }
  }

  lemma DeerArrivesWakeUps(s: State, i: nat, n: Counts, m: Counts)
    requires DeerWakeReady(s, i, n, m) && DeerStage(s.deer[i]) <= 1
    ensures WakeUps(DeerStep(s, i).value, m)
  {
    var pc := DeerFrame(s, i);
  }

  lemma DeerCallsWakeUps(s: State, i: nat, n: Counts, m: Counts)
    requires DeerWakeReady(s, i, n, m) && DeerStage(s.deer[i]) == 2
    ensures WakeUps(DeerStep(s, i).value, m)
  {
    var pc := DeerFrame(s, i);
  }

  lemma DeerPullsWakeUps(s: State, i: nat, n: Counts, m: Counts)
    requires DeerWakeReady(s, i, n, m) && DeerStage(s.deer[i]) >= 3
    ensures WakeUps(DeerStep(s, i).value, m)
  {
    var pc := DeerFrame(s, i);
  }

  lemma DeerKeeps(s: State, max: int, i: nat)
    requires Inv(s, max) && i < |s.deer| && DeerStep(s, i).Some?
    ensures Inv(DeerStep(s, i).value, max)
  {
    var n, m := DeerCounts(s.deer), ElfCounts(s.elves);
    DeerTotal(s.deer);
    InsideIsCounted(s);
    DeerCounted(s.deer, i);
    var pc := DeerFrame(s, i);
    DeerMoves(s.deer, i, pc);
    DeerKeepsLocks(s, i, n);
    DeerKeepsTokens(s, i, n);
    DeerKeepsElves(s, i, m);
    DeerKeepsWakeUps(s, i, n, m);
  }

  // --------------------------------------------------------------- the elves' steps

  lemma ElfFrame(s: State, i: nat) returns (pc: ElfPc)
    requires i < |s.elves| && ElfStep(s, i).Some?
    ensures var s' := ElfStep(s, i).value;
      && s'.elves == s.elves[i := pc] && pc == s'.elves[i]
      && s'.deer == s.deer && s'.reindeer == s.reindeer && s'.deerLock == s.deerLock && s'.deerCount == s.deerCount
      && s'.sleigh == s.sleigh && s'.hitched == s.hitched && s'.flying == s.flying && s'.unhitch == s.unhitch
      && s'.waitingDeer == s.waitingDeer && s'.santa == s.santa && s'.delivery == s.delivery
  {
    pc := ElfStep(s, i).value.elves[i];
  }

  predicate Nat7(m: Counts) {
    |m| == 7 && forall k :: 0 <= k < 7 ==> m[k] >= 0
  }

  // The elf in the critical section, if any, is among those counted.
  predicate ElfInsideCounted(s: State, m: Counts)
    requires |m| == 7
  {
    ElfInside(s).Some? ==> m[ElfStage(ElfInside(s).value)] > 0
  }

  // Everything the lemmas on one elf step start from.
  predicate ElfReady(s: State, i: nat, m: Counts) {
    && Nat7(m) && i < |s.elves| && ElfStep(s, i).Some? && Locks(s) && Counters(s)
    && ElfTokens(s, m) && m[ElfStage(s.elves[i])] > 0 && ElfInsideCounted(s, m)
  }

  function ElfMoved(s: State, i: nat, m: Counts): Counts
    requires |m| == 7 && i < |s.elves| && ElfStep(s, i).Some? && i < |ElfStep(s, i).value.elves|
  {
    Moved(m, ElfStage(s.elves[i]), ElfStage(ElfStep(s, i).value.elves[i]))
  }

  lemma ElfJoiningLocks(s: State, i: nat, m: Counts)
    requires ElfReady(s, i, m)
    requires ElfStage(s.elves[i]) <= 1
    ensures var s' := ElfStep(s, i).value;
      Locks(s') && Counters(s')
  {
    var pc := ElfFrame(s, i);
  }

  lemma ElfAskingLocks(s: State, i: nat, m: Counts)
    requires ElfReady(s, i, m)
    requires ElfStage(s.elves[i]) == 2
    ensures var s' := ElfStep(s, i).value;
      Locks(s') && Counters(s')
  {
    var pc := ElfFrame(s, i);
  }

  lemma ElfWaitingLocks(s: State, i: nat, m: Counts)
    requires ElfReady(s, i, m)
    requires !ElfHolds(s.elves[i]) && ElfStage(s.elves[i]) >= 3
    ensures var s' := ElfStep(s, i).value;
      Locks(s') && Counters(s')
  {
    var pc := ElfFrame(s, i);
  }

  lemma ElfLeavingLocks(s: State, i: nat, m: Counts)
    requires ElfReady(s, i, m)
    requires ElfHolds(s.elves[i]) && ElfStage(s.elves[i]) >= 5
    ensures var s' := ElfStep(s, i).value;
      Locks(s') && Counters(s')
  {
    var pc := ElfFrame(s, i);
  }

  lemma ElfJoiningTokens(s: State, i: nat, m: Counts)
    requires ElfReady(s, i, m)
    requires ElfStage(s.elves[i]) <= 1
    ensures ElfTokens(ElfStep(s, i).value, ElfMoved(s, i, m))
  {
    var pc := ElfFrame(s, i);
  }

  lemma ElfAskingTokens(s: State, i: nat, m: Counts)
    requires ElfReady(s, i, m)
    requires ElfStage(s.elves[i]) == 2
    ensures ElfTokens(ElfStep(s, i).value, ElfMoved(s, i, m))
  {
    var pc := ElfFrame(s, i);
  }

  lemma ElfWaitingTokens(s: State, i: nat, m: Counts)
    requires ElfReady(s, i, m)
    requires !ElfHolds(s.elves[i]) && ElfStage(s.elves[i]) >= 3
    ensures ElfTokens(ElfStep(s, i).value, ElfMoved(s, i, m))
  {
    match s.elves[i]
    case WaitQuestion => ElfHeardTokens(s, i, m);
    case WaitAnswer => ElfAnsweredTokens(s, i, m);
    case _ => ElfClearingTokens(s, i, m);
  }

  lemma ElfHeardTokens(s: State, i: nat, m: Counts)
    requires ElfReady(s, i, m) && s.elves[i].WaitQuestion?
    ensures ElfTokens(ElfStep(s, i).value, ElfMoved(s, i, m))
  {
    var pc := ElfFrame(s, i);
  }

  lemma ElfAnsweredTokens(s: State, i: nat, m: Counts)
    requires ElfReady(s, i, m) && s.elves[i].WaitAnswer?
    ensures ElfTokens(ElfStep(s, i).value, ElfMoved(s, i, m))
  {
    var pc := ElfFrame(s, i);
  }

  lemma ElfClearingTokens(s: State, i: nat, m: Counts)
    requires ElfReady(s, i, m) && (s.elves[i].ClearName? || s.elves[i].LockDone?)
    ensures ElfTokens(ElfStep(s, i).value, ElfMoved(s, i, m))
  {
    var pc := ElfFrame(s, i);
  }

  lemma ElfLeavingTokens(s: State, i: nat, m: Counts)
    requires ElfReady(s, i, m)
    requires ElfHolds(s.elves[i]) && ElfStage(s.elves[i]) >= 5
    ensures ElfTokens(ElfStep(s, i).value, ElfMoved(s, i, m))
  {
    var pc := ElfFrame(s, i);
  }

  lemma ElfJoiningWakeUps(s: State, i: nat, m: Counts)
    requires ElfReady(s, i, m) && WakeUps(s, m)
    requires ElfStage(s.elves[i]) <= 1
    ensures WakeUps(ElfStep(s, i).value, ElfMoved(s, i, m))
  {
    var pc := ElfFrame(s, i);
  }

  lemma ElfAskingWakeUps(s: State, i: nat, m: Counts)
    requires ElfReady(s, i, m) && WakeUps(s, m)
    requires ElfStage(s.elves[i]) == 2
    ensures WakeUps(ElfStep(s, i).value, ElfMoved(s, i, m))
  {
    var pc := ElfFrame(s, i);
  }

  lemma ElfWaitingWakeUps(s: State, i: nat, m: Counts)
    requires ElfReady(s, i, m) && WakeUps(s, m)
    requires !ElfHolds(s.elves[i]) && ElfStage(s.elves[i]) >= 3
    ensures WakeUps(ElfStep(s, i).value, ElfMoved(s, i, m))
  {
    var pc := ElfFrame(s, i);
  }

  lemma ElfLeavingWakeUps(s: State, i: nat, m: Counts)
    requires ElfReady(s, i, m) && WakeUps(s, m)
    requires ElfHolds(s.elves[i]) && ElfStage(s.elves[i]) >= 5
    ensures WakeUps(ElfStep(s, i).value, ElfMoved(s, i, m))
  {
    var pc := ElfFrame(s, i);
  }

  lemma ElfJoiningNames(s: State, i: nat, m: Counts)
    requires ElfReady(s, i, m) && Names(s, m)
    requires ElfStage(s.elves[i]) <= 1
    ensures var s' := ElfStep(s, i).value;
      |s'.waitingElves| == 3 && Names(s', ElfMoved(s, i, m))
  {
    if s.elves[i].WriteName? {
      WritesName(s, i, m);
    } else if s.elves[i].Join? {
      JoinsBatch(s, i, m);
    } else {
      SameBatch(s, i, m);
    }
  }

  // A step that neither joins the batch nor gets an answer.
  lemma SameBatch(s: State, i: nat, m: Counts)
    requires ElfReady(s, i, m) && Names(s, m)
    requires s.elves[i].WaitTurn? || s.elves[i].LockAsk? || ElfStage(s.elves[i]) == 2 || s.elves[i].WaitQuestion?
    ensures var s' := ElfStep(s, i).value;
      |s'.waitingElves| == 3 && Names(s', ElfMoved(s, i, m))
  {
    var pc := ElfFrame(s, i);
    if ListMatters(s, m) {
      ListedStep(s.waitingElves, s.elfCount, s.elves, i, pc);
    }
  }

  lemma WritesName(s: State, i: nat, m: Counts)
    requires ElfReady(s, i, m) && Names(s, m) && s.elves[i].WriteName?
    ensures var s' := ElfStep(s, i).value;
      |s'.waitingElves| == 3 && Names(s', ElfMoved(s, i, m))
  {
    var s' := ElfStep(s, i).value;
    assert s'.elves == s.elves[i := Join];
    assert ListMatters(s', ElfMoved(s, i, m)) ==> ListMatters(s, m);
    if ListMatters(s, m) {
      ListedWrite(s.waitingElves, s.elfCount, s.elves, i);
      ListedStep(s'.waitingElves, s.elfCount, s.elves, i, Join);
    }
  }

  lemma JoinsBatch(s: State, i: nat, m: Counts)
    requires ElfReady(s, i, m) && Names(s, m) && s.elves[i].Join?
    ensures var s' := ElfStep(s, i).value;
      |s'.waitingElves| == 3 && Names(s', ElfMoved(s, i, m))
  {
    assert s.elfLock == i;
    assert Gathering(s, m);
    ListedJoin(s.waitingElves, s.elfCount, s.elves, i, TestThree);
    assert ElfInside(ElfStep(s, i).value) == Some(TestThree);
  }

  lemma ElfAskingNames(s: State, i: nat, m: Counts)
    requires ElfReady(s, i, m) && Names(s, m)
    requires ElfStage(s.elves[i]) == 2
    ensures var s' := ElfStep(s, i).value;
      |s'.waitingElves| == 3 && Names(s', ElfMoved(s, i, m))
  {
    SameBatch(s, i, m);
  }

  lemma ElfWaitingNames(s: State, i: nat, m: Counts)
    requires ElfReady(s, i, m) && Names(s, m)
    requires !ElfHolds(s.elves[i]) && ElfStage(s.elves[i]) >= 3
    ensures var s' := ElfStep(s, i).value;
      |s'.waitingElves| == 3 && Names(s', ElfMoved(s, i, m))
  {
    match s.elves[i]
    case WaitQuestion => ElfHeardNames(s, i, m);
    case WaitAnswer => ElfAnsweredNames(s, i, m);
    case _ => ElfClearingNames(s, i, m);
  }

  lemma ElfHeardNames(s: State, i: nat, m: Counts)
    requires ElfReady(s, i, m) && Names(s, m) && s.elves[i].WaitQuestion?
    ensures var s' := ElfStep(s, i).value;
      |s'.waitingElves| == 3 && Names(s', ElfMoved(s, i, m))
  {
    SameBatch(s, i, m);
  }

  lemma ElfAnsweredNames(s: State, i: nat, m: Counts)
    requires ElfReady(s, i, m) && Names(s, m) && s.elves[i].WaitAnswer?
    ensures var s' := ElfStep(s, i).value;
      |s'.waitingElves| == 3 && Names(s', ElfMoved(s, i, m))
  {
    var pc := ElfFrame(s, i);
  }

  lemma ElfClearingNames(s: State, i: nat, m: Counts)
    requires ElfReady(s, i, m) && Names(s, m) && (s.elves[i].ClearName? || s.elves[i].LockDone?)
    ensures var s' := ElfStep(s, i).value;
      |s'.waitingElves| == 3 && Names(s', ElfMoved(s, i, m))
  {
    var pc := ElfFrame(s, i);
  }

  // The batch's list no longer matters once answers are out; the last elf to
  // leave finds nobody listed.
  lemma ElfLeavingNames(s: State, i: nat, m: Counts)
    requires ElfReady(s, i, m) && Names(s, m)
    requires ElfHolds(s.elves[i]) && ElfStage(s.elves[i]) >= 5
    requires forall j :: 0 <= j < |s.elves| ==> m[ElfStage(s.elves[j])] > 0
    ensures var s' := ElfStep(s, i).value;
      |s'.waitingElves| == 3 && Names(s', ElfMoved(s, i, m))
  {
    var pc := ElfFrame(s, i);
  }

  lemma ElfKeepsDeer(s: State, i: nat, n: Counts)
    requires |n| == 8 && i < |s.elves| && ElfStep(s, i).Some? && DeerTokens(s, n)
    ensures DeerTokens(ElfStep(s, i).value, n)
  {
    var pc := ElfFrame(s, i);
  }

  lemma ElfPieces(s: State, i: nat, m: Counts)
    requires ElfReady(s, i, m) && WakeUps(s, m) && Names(s, m)
    requires forall j :: 0 <= j < |s.elves| ==> m[ElfStage(s.elves[j])] > 0
    ensures var s' := ElfStep(s, i).value;
      var m' := ElfMoved(s, i, m);
      Locks(s') && Counters(s') && ElfTokens(s', m') && WakeUps(s', m') && Names(s', m')
  {
    if ElfStage(s.elves[i]) <= 1 {
      ElfJoiningLocks(s, i, m);
      ElfJoiningTokens(s, i, m);
      ElfJoiningWakeUps(s, i, m);
      ElfJoiningNames(s, i, m);
    } else if ElfStage(s.elves[i]) == 2 {
      ElfAskingLocks(s, i, m);
      ElfAskingTokens(s, i, m);
      ElfAskingWakeUps(s, i, m);
      ElfAskingNames(s, i, m);
    } else if ElfHolds(s.elves[i]) {
      ElfLeavingLocks(s, i, m);
      ElfLeavingTokens(s, i, m);
      ElfLeavingWakeUps(s, i, m);
      ElfLeavingNames(s, i, m);
    } else {
      ElfWaitingLocks(s, i, m);
      ElfWaitingTokens(s, i, m);
      ElfWaitingWakeUps(s, i, m);
      ElfWaitingNames(s, i, m);
    }
  }

  lemma ElfKeeps(s: State, max: int, i: nat)
    requires Inv(s, max) && i < |s.elves| && ElfStep(s, i).Some?
    ensures Inv(ElfStep(s, i).value, max)
  {
    var n, m := DeerCounts(s.deer), ElfCounts(s.elves);
    forall j | 0 <= j < |s.elves|
      ensures m[ElfStage(s.elves[j])] > 0
    {
      ElfCounted(s.elves, j);
    }
    var pc := ElfFrame(s, i);
    ElfMoves(s.elves, i, pc);
    ElfKeepsDeer(s, i, n);
    ElfPieces(s, i, m);
  }

  // --------------------------------------------------------------- every schedule

  lemma NextKeeps(s: State, max: int, who: Actor)
    requires Inv(s, max) && Next(s, max, who).Some?
    ensures Inv(Next(s, max, who).value, max) && |Next(s, max, who).value.deer| == |s.deer|
  {
    match who
    case SantaActs => SantaKeeps(s, max); SantaFrame(s, max);
    case DeerActs(i) => DeerKeeps(s, max, i); var pc := DeerFrame(s, i);
    case ElfActs(i) => ElfKeeps(s, max, i); var pc := ElfFrame(s, i);
  }

  // MAIN: the invariant holds after every schedule, for any number of elves
  // and any r >= 1.
  lemma {:induction false} RunKeeps(s: State, max: int, schedule: seq<Actor>)
    requires Inv(s, max) && Run(s, max, schedule).Some?
    ensures Inv(Run(s, max, schedule).value, max) && |Run(s, max, schedule).value.deer| == |s.deer|
    decreases |schedule|
  {
    if schedule != [] {
      NextKeeps(s, max, schedule[0]);
      RunKeeps(Next(s, max, schedule[0]).value, max, schedule[1..]);
    }
  }

  ghost predicate Reachable(s: State, e: nat, r: nat, max: int) {
    exists schedule :: Run(Init(e, r), max, schedule) == Some(s)
  }

  lemma ReachableInv(s: State, e: nat, r: nat, max: int)
    requires r > 0 && Reachable(s, e, r, max)
    ensures Inv(s, max) && |s.deer| == r
  {
    var schedule :| Run(Init(e, r), max, schedule) == Some(s);
    InitOk(e, r, max);
    RunKeeps(Init(e, r), max, schedule);
  }

  // --------------------------------------------------------------------- safety

  // MAIN: the wake-up tokens, and a Santa who has woken but not chosen yet, are
  // always exactly the full batches waiting; never more than two.
  lemma WakeUpsConserved(s: State, e: nat, r: nat, max: int)
    requires r > 0 && Reachable(s, e, r, max)
    ensures s.sleeping + B(Awake(s)) == B(DeerBatchPending(s)) + B(ElfBatchPending(s, ElfCounts(s.elves)))
    ensures s.sleeping + B(Awake(s)) <= 2
  {
    ReachableInv(s, e, r, max);
  }

  // MAIN: when Santa decides to answer, and until he gives the first answer,
  // exactly three elves wait with a question; waiting_elves names them.
  lemma AnswersExactlyThree(s: State, e: nat, r: nat, max: int)
    requires r > 0 && Reachable(s, e, r, max)
    requires s.santa.UnlockToAnswer? || s.santa.Listening? || s.santa.ReadNames?
    ensures s.elfCount == 3 && |s.waitingElves| == 3
    ensures s.waitingElves[0] != s.waitingElves[1] && s.waitingElves[0] != s.waitingElves[2]
      && s.waitingElves[1] != s.waitingElves[2]
    ensures forall i :: 0 <= i < |s.elves| ==> (Asked(s.elves[i]) <==> i in s.waitingElves)
    ensures forall k :: 0 <= k < 3 ==> 0 <= s.waitingElves[k] < |s.elves|
  {
    ReachableInv(s, e, r, max);
    assert ListMatters(s, ElfCounts(s.elves));
  }

  // At most three elves are ever counted, and nobody joins a batch being served.
  lemma AtMostThreeElves(s: State, e: nat, r: nat, max: int)
    requires r > 0 && Reachable(s, e, r, max)
    ensures s.elfCount <= 3
    ensures s.elfCount == 3 ==> s.elf == 0 && forall i :: 0 <= i < |s.elves| ==> ElfStage(s.elves[i]) != 1
  {
    ReachableInv(s, e, r, max);
    forall i | 0 <= i < |s.elves|
      ensures ElfCounts(s.elves)[ElfStage(s.elves[i])] > 0
    {
      ElfCounted(s.elves, i);
    }
  }

  // MAIN: the sleigh leaves only when all r reindeer are hitched and none has
  // been let go, and the count is reset only when all r are back on vacation.
  lemma DeliveryComplete(s: State, e: nat, r: nat, max: int)
    requires r > 0 && Reachable(s, e, r, max)
    ensures |s.deer| == r
    ensures s.santa.Deliver? ==>
      (forall i :: 0 <= i < r ==> s.deer[i].WaitFlying?) && s.sleigh == s.hitched == s.flying == s.unhitch == 0
    ensures s.santa.ResetCount? ==>
      (forall i :: 0 <= i < r ==> s.deer[i].Vacation?) && s.sleigh == s.hitched == s.flying == s.unhitch == 0
  {
    ReachableInv(s, e, r, max);
    DeerTotal(s.deer);
    if s.santa.Deliver? {
      AllDeerAt(s.deer, 6);
    } else if s.santa.ResetCount? {
      AllDeerAt(s.deer, 0);
    }
  }

  // How often reindeer i hitched itself to the sleigh in a run.
  function Hitches(s: State, max: int, schedule: seq<Actor>, i: nat): nat
    requires i < |s.deer| && Run(s, max, schedule).Some?
    decreases |schedule|
  {
    if schedule == [] then 0
    else
      var s' := Next(s, max, schedule[0]).value;
      if |s'.deer| != |s.deer| then 0
      else B(schedule[0] == DeerActs(i) && s.deer[i].TellHitched?) + Hitches(s', max, schedule[1..], i)
  }

  // A delivery under way, before the sleigh leaves.
  predicate BeforeFlight(s: State) {
    s.santa.UnlockToDeliver? || s.santa.Hitching? || s.santa.WaitHitched? || s.santa.Deliver?
  }

  // The hitchings reindeer i has done so far, read off the state.
  function HitchesDone(s: State, i: nat): nat
    requires i < |s.deer|
  {
    s.delivery + B(BeforeFlight(s) && DeerStage(s.deer[i]) == 6)
  }

  lemma SantaHitchesNobody(s: State, max: int, i: nat)
    requires Inv(s, max) && i < |s.deer| && SantaStep(s, max).Some?
    ensures i < |SantaStep(s, max).value.deer| && HitchesDone(SantaStep(s, max).value, i) == HitchesDone(s, i)
  {
    SantaFrame(s, max);
    DeerTotal(s.deer);
    DeerCounted(s.deer, i);
    if s.santa.Deliver? {
      AllDeerAt(s.deer, 6);
    }
  }

  lemma DeerHitchesItself(s: State, max: int, i: nat, d: nat)
    requires Inv(s, max) && i < |s.deer| && d < |s.deer| && DeerStep(s, d).Some?
    ensures i < |DeerStep(s, d).value.deer|
    ensures HitchesDone(DeerStep(s, d).value, i) == HitchesDone(s, i) + B(d == i && s.deer[i].TellHitched?)
  {
    var pc := DeerFrame(s, d);
    DeerTotal(s.deer);
    DeerCounted(s.deer, d);
  }

  lemma HitchesStep(s: State, max: int, who: Actor, i: nat)
    requires Inv(s, max) && i < |s.deer| && Next(s, max, who).Some?
    ensures var s' := Next(s, max, who).value;
      && |s'.deer| == |s.deer|
      && HitchesDone(s', i) == HitchesDone(s, i) + B(who == DeerActs(i) && s.deer[i].TellHitched?)
  {
    NextKeeps(s, max, who);
    match who
    case SantaActs => SantaHitchesNobody(s, max, i);
    case DeerActs(d) => DeerHitchesItself(s, max, i, d);
    case ElfActs(j) => var pc := ElfFrame(s, j);
  }

  lemma {:induction false} HitchesCounted(s: State, max: int, schedule: seq<Actor>, i: nat)
    requires Inv(s, max) && Run(s, max, schedule).Some? && i < |s.deer|
    ensures i < |Run(s, max, schedule).value.deer|
    ensures HitchesDone(Run(s, max, schedule).value, i) == HitchesDone(s, i) + Hitches(s, max, schedule, i)
    decreases |schedule|
  {
    if schedule != [] {
      NextKeeps(s, max, schedule[0]);
      HitchesStep(s, max, schedule[0], i);
      HitchesCounted(Next(s, max, schedule[0]).value, max, schedule[1..], i);
    }
  }

  // MAIN: over every run, each reindeer hitches itself exactly once in each
  // delivery, before the sleigh leaves.
  lemma HitchedOncePerDelivery(e: nat, r: nat, max: int, schedule: seq<Actor>, i: nat)
    requires i < r && Run(Init(e, r), max, schedule).Some?
    ensures var s := Run(Init(e, r), max, schedule).value;
      var hitches := Hitches(Init(e, r), max, schedule, i);
      && s.delivery <= hitches <= s.delivery + 1
      && (s.santa.Deliver? ==> hitches == s.delivery + 1)
      && (!BeforeFlight(s) ==> hitches == s.delivery)
  {
    InitOk(e, r, max);
    RunKeeps(Init(e, r), max, schedule);
    HitchesCounted(Init(e, r), max, schedule, i);
    var s := Run(Init(e, r), max, schedule).value;
    DeerTotal(s.deer);
    if s.santa.Deliver? {
      AllDeerAt(s.deer, 6);
    }
  }

  // Asked for max >= 0 deliveries, Santa makes one more before he retires.
  lemma RetiresAfterOneMore(s: State, e: nat, r: nat, max: int)
    requires r > 0 && Reachable(s, e, r, max) && max >= 0
    ensures s.delivery <= max + 1
    ensures s.santa.Retired? ==> s.delivery == max + 1
  {
    ReachableInv(s, e, r, max);
  }

  // ------------------------------------------------------------------- progress

  // The counts that the search for a reindeer able to move starts from.
  predicate DeerKnown(s: State, n: Counts) {
    && |n| == 8 && Total(n) == |s.deer| && (forall k :: 0 <= k < 8 ==> n[k] >= 0)
    && Locks(s) && Counters(s) && DeerTokens(s, n) && InsideCounted(s, n)
  }

  // Santa waits to be woken: no full batch has gathered, so some reindeer can
  // leave its vacation or report.
  predicate CanGather(s: State, n: Counts)
    requires |n| == 8
  {
    n[1] > 0 || (n[0] > 0 && s.reindeer > 0)
  }

  lemma GatheringGoesOn(s: State, n: Counts)
    requires DeerKnown(s, n) && s.santa.WaitSleeping? && s.deerCount != |s.deer|
    ensures CanGather(s, n)
  {
  }

  lemma GatheringMoves(s: State, n: Counts) returns (i: nat)
    requires Locks(s) && s.deerLock == Free && n == DeerCounts(s.deer) && CanGather(s, n)
    ensures i < |s.deer| && DeerStep(s, i).Some?
  {
    if n[1] > 0 {
      i := SomeDeerAt(s.deer, 1);
    } else {
      i := SomeDeerAt(s.deer, 0);
    }
  }

  predicate CanHitch(s: State, n: Counts)
    requires |n| == 8
  {
    n[5] > 0 || (n[4] > 0 && s.sleigh > 0) || (n[3] > 0 && s.waitingDeer > 0)
  }

  lemma HitchingGoesOn(s: State, n: Counts)
    requires DeerKnown(s, n) && s.santa.WaitHitched? && s.hitched == 0
    ensures CanHitch(s, n)
  {
  }

  lemma HitchingMoves(s: State, n: Counts) returns (i: nat)
    requires n == DeerCounts(s.deer) && CanHitch(s, n)
    ensures i < |s.deer| && DeerStep(s, i).Some?
  {
    if n[5] > 0 {
      i := SomeDeerAt(s.deer, 5);
    } else if n[4] > 0 && s.sleigh > 0 {
      i := SomeDeerAt(s.deer, 4);
    } else {
      i := SomeDeerAt(s.deer, 3);
    }
  }

  predicate CanUnhitch(s: State, n: Counts)
    requires |n| == 8
  {
    n[7] > 0 || (n[6] > 0 && s.flying > 0)
  }

  lemma UnhitchingGoesOn(s: State, n: Counts)
    requires DeerKnown(s, n) && s.santa.WaitUnhitched? && s.unhitch == 0
    ensures CanUnhitch(s, n)
  {
  }

  lemma UnhitchingMoves(s: State, n: Counts) returns (i: nat)
    requires n == DeerCounts(s.deer) && CanUnhitch(s, n)
    ensures i < |s.deer| && DeerStep(s, i).Some?
  {
    if n[7] > 0 {
      i := SomeDeerAt(s.deer, 7);
    } else {
      i := SomeDeerAt(s.deer, 6);
    }
  }

  // A reindeer in its critical section is never blocked.
  lemma InsideMoves(s: State)
    requires Locks(s) && s.deerLock.ByDeer?
    ensures s.deerLock.deer < |s.deer| && DeerStep(s, s.deerLock.deer).Some?
  {
    assert DeerHolds(s.deer[s.deerLock.deer]);
  }

  // What a blocked Santa waits for.
  lemma WhereSantaBlocks(s: State, max: int)
    requires Locks(s) && !s.santa.Retired? && SantaStep(s, max).None?
    ensures s.deerLock.ByDeer?
      || (s.deerLock == Free && s.santa.WaitSleeping? && s.sleeping == 0)
      || (s.santa.WaitHitched? && s.hitched == 0) || (s.santa.WaitUnhitched? && s.unhitch == 0)
  {
  }

  lemma NotWokenNotFull(s: State, m: Counts)
    requires |m| == 7 && WakeUps(s, m) && s.santa.WaitSleeping? && s.sleeping == 0 && s.deerLock == Free
    ensures s.deerCount != |s.deer|
  {
  }

  // A reindeer that can move, whenever Santa waits for one.
  lemma SomeDeerMoves(s: State, max: int) returns (i: nat)
    requires Inv(s, max) && !s.santa.Retired? && SantaStep(s, max).None?
    ensures i < |s.deer| && DeerStep(s, i).Some?
  {
    var n, m := DeerCounts(s.deer), ElfCounts(s.elves);
    DeerTotal(s.deer);
    InsideIsCounted(s);
    WhereSantaBlocks(s, max);
    if s.deerLock.ByDeer? {
      InsideMoves(s);
      i := s.deerLock.deer;
    } else if s.santa.WaitSleeping? {
      NotWokenNotFull(s, m);
      GatheringGoesOn(s, n);
      i := GatheringMoves(s, n);
    } else if s.santa.WaitHitched? {
      HitchingGoesOn(s, n);
      i := HitchingMoves(s, n);
    } else {
      UnhitchingGoesOn(s, n);
      i := UnhitchingMoves(s, n);
    }
  }

  // MAIN: until Santa retires no reachable state is stuck; if Santa himself is
  // blocked, some reindeer can move, whatever the elves do.
  lemma NeverStuck(s: State, e: nat, r: nat, max: int)
    requires r > 0 && Reachable(s, e, r, max) && !s.santa.Retired?
    ensures SantaStep(s, max).Some? || exists i :: 0 <= i < |s.deer| && DeerStep(s, i).Some?
  {
    ReachableInv(s, e, r, max);
    if SantaStep(s, max).None? {
      var i := SomeDeerMoves(s, max);
    }
  }
}
