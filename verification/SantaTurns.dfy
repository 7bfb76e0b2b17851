// When a full batch of elves can still be answered, and when it waits forever
// because Santa retires first.

module SantaTurns {
  import opened Basics
  import opened Santa
  import opened SantaProofs
  import opened SantaProgress

  // Santa has decided on a delivery and has not made it yet.
  predicate BeforeDelivery(s: State) {
    s.santa.UnlockToDeliver? || s.santa.Hitching? || s.santa.WaitHitched? || s.santa.Deliver?
  }

  // When Santa looks next he finds all reindeer: they are counted, or the last
  // of them is about to be, and he cannot look before.
  predicate AllHere(s: State) {
    s.deerCount == |s.deer| || (s.deerCount == |s.deer| - 1 && DeerInside(s) == Some(Arrive))
  }

  // All the deliveries are made, or the last one is to come before Santa looks
  // for elves again.
  predicate TooLate(s: State, max: int) {
    || s.delivery > max
    || (s.delivery == max && (BeforeDelivery(s) || (!Delivering(s) && !InAnswer(s) && AllHere(s))))
  }

  // ---------------------------------------------------------- too late for good

  lemma SantaStaysLate(s: State, max: int)
    requires Locks(s) && Counters(s) && Deliveries(s, max) && TooLate(s, max) && !InAnswer(s) && SantaStep(s, max).Some?
    ensures TooLate(SantaStep(s, max).value, max) && !InAnswer(SantaStep(s, max).value)
  {
  }

  lemma DeerStaysLate(s: State, max: int, i: nat, n: Counts)
    requires DeerReady(s, i, n) && TooLate(s, max) && !InAnswer(s)
    ensures TooLate(DeerStep(s, i).value, max) && !InAnswer(DeerStep(s, i).value)
  {
    var pc := DeerFrame(s, i);
  }

  lemma ElfStaysLate(s: State, max: int, i: nat)
    requires i < |s.elves| && ElfStep(s, i).Some? && TooLate(s, max) && !InAnswer(s)
    ensures TooLate(ElfStep(s, i).value, max) && !InAnswer(ElfStep(s, i).value)
  {
    var pc := ElfFrame(s, i);
  }

  lemma NextStaysLate(s: State, max: int, who: Actor)
    requires Inv(s, max) && TooLate(s, max) && !InAnswer(s) && Next(s, max, who).Some?
    ensures TooLate(Next(s, max, who).value, max) && !InAnswer(Next(s, max, who).value)
  {
    match who
    case SantaActs => SantaStaysLate(s, max);
    case DeerActs(i) =>
      DeerTotal(s.deer);
      InsideIsCounted(s);
      DeerCounted(s.deer, i);
      DeerStaysLate(s, max, i, DeerCounts(s.deer));
    case ElfActs(i) => ElfStaysLate(s, max, i);
  }

  lemma {:induction false} RunStaysLate(s: State, max: int, schedule: seq<Actor>)
    requires Inv(s, max) && TooLate(s, max) && !InAnswer(s) && Run(s, max, schedule).Some?
    ensures !InAnswer(Run(s, max, schedule).value)
    decreases |schedule|
  {
    if schedule != [] {
      NextStaysLate(s, max, schedule[0]);
      NextKeeps(s, max, schedule[0]);
      RunStaysLate(Next(s, max, schedule[0]).value, max, schedule[1..]);
    }
  }

  // ------------------------------------------------------------------- in time

  lemma SantaInTime(s: State, max: int, n: Counts)
    requires DeerKnown(s, n) && Deliveries(s, max) && !TooLate(s, max) && !InAnswer(s) && SantaStep(s, max).Some?
    ensures !TooLate(SantaStep(s, max).value, max)
  {
  }

  lemma DeerInTime(s: State, max: int, i: nat, n: Counts)
    requires DeerReady(s, i, n) && !TooLate(s, max) && !InAnswer(s) && (s.deerLock.ByDeer? || Delivering(s))
    ensures !TooLate(DeerStep(s, i).value, max)
  {
    var pc := DeerFrame(s, i);
  }

  // Until Santa turns to it the batch waits.
  lemma BatchWaits(s: State, max: int, who: Actor, m: Counts)
    requires |m| == 7 && ElfBatchPending(s, m) && !who.ElfActs? && Next(s, max, who).Some?
    ensures var s' := Next(s, max, who).value; s'.elves == s.elves && (InAnswer(s') || ElfBatchPending(s', m))
  {
    match who
    case SantaActs => SantaFrame(s, max);
    case DeerActs(i) => var pc := DeerFrame(s, i);
  }

  // Santa, if he can move, else a reindeer: the batch waits on, and in time.
  lemma OneTurn(s: State, max: int) returns (who: Actor)
    requires Inv(s, max) && ElfBatchPending(s, ElfCounts(s.elves)) && !TooLate(s, max)
    ensures !who.ElfActs? && Next(s, max, who).Some?
    ensures var s' := Next(s, max, who).value;
      && Inv(s', max) && Nearer(ToGo(s', max), ToGo(s, max))
      && (InAnswer(s') || (ElfBatchPending(s', ElfCounts(s'.elves)) && !TooLate(s', max)))
  {
    var n := DeerCounts(s.deer);
    DeerTotal(s.deer);
    InsideIsCounted(s);
    who := SantaActs;
    if SantaStep(s, max).Some? {
      SantaNearer(s, max);
      SantaInTime(s, max, n);
    } else {
      var i := SomeDeerMoves(s, max);
      who := DeerActs(i);
      WhereSantaBlocks(s, max);
      DeerNearer(s, max, i);
      DeerCounted(s.deer, i);
      DeerInTime(s, max, i, n);
    }
    NextKeeps(s, max, who);
    BatchWaits(s, max, who, ElfCounts(s.elves));
  }

  lemma {:induction false} TurnsToElves(s: State, max: int) returns (schedule: seq<Actor>)
    requires Inv(s, max) && ElfBatchPending(s, ElfCounts(s.elves)) && !TooLate(s, max)
    ensures NoElf(schedule) && Run(s, max, schedule).Some? && InAnswer(Run(s, max, schedule).value)
    decreases ToGo(s, max).deliveries, ToGo(s, max).deer, ToGo(s, max).wakeUps, ToGo(s, max).steps
  {
    var who := OneTurn(s, max);
    var s' := Next(s, max, who).value;
    var rest: seq<Actor> := [];
    if !InAnswer(s') {
      rest := TurnsToElves(s', max);
    }
    schedule := AndThen(s, max, who, rest);
  }

  // MAIN: a full batch of elves that has called Santa can still be answered
  // exactly when it is not too late: when a delivery is left beyond the present
  // one, or the last is not yet bound to come before he looks for elves.  Else
  // the three wait for ever.
  lemma AnsweredIff(s: State, e: nat, r: nat, max: int)
    requires r > 0 && Reachable(s, e, r, max) && ElfBatchPending(s, ElfCounts(s.elves))
    ensures (exists schedule :: Run(s, max, schedule).Some? && InAnswer(Run(s, max, schedule).value)) <==> !TooLate(s, max)
  {
    ReachableInv(s, e, r, max);
    if !TooLate(s, max) {
      var schedule := TurnsToElves(s, max);
    } else {
      forall schedule | Run(s, max, schedule).Some?
        ensures !InAnswer(Run(s, max, schedule).value)
      {
        RunStaysLate(s, max, schedule);
      }
    }
  }
}
