// When a port can wedge: some sender and some receiver asleep, and nobody able to
// step.  It can exactly when there are at least two of each.

module PortProgress {
  import opened Basics
  import opened Ports
  import opened PortProofs

  // ----------------------------------------------------------------------- runs

  lemma NextLengths(p: Port, msgs: seq<int>, who: Actor)
    requires Next(p, msgs, who).Some?
    ensures |Next(p, msgs, who).value.ss| == |p.ss| && |Next(p, msgs, who).value.rs| == |p.rs|
  {
  }

  lemma NextKeeps(p: Port, msgs: seq<int>, who: Actor)
    requires Inv(p, msgs) && Next(p, msgs, who).Some?
    ensures var p' := Next(p, msgs, who).value;
      Inv(p', msgs) && |p'.ss| == |p.ss| && |p'.rs| == |p.rs|
  {
    NextLengths(p, msgs, who);
    match who
    case Sender(i) => SStepKeeps(p, msgs, i);
    case Receiver(j) => RStepKeeps(p, msgs, j);
  }

  lemma {:induction false} RunKeeps(p: Port, msgs: seq<int>, schedule: seq<Actor>)
    requires Inv(p, msgs) && Run(p, msgs, schedule).Some?
    ensures var p' := Run(p, msgs, schedule).value;
      Inv(p', msgs) && |p'.ss| == |p.ss| && |p'.rs| == |p.rs|
    decreases |schedule|
  {
    if schedule != [] {
      NextKeeps(p, msgs, schedule[0]);
      RunKeeps(Next(p, msgs, schedule[0]).value, msgs, schedule[1..]);
    }
  }

  lemma ReachableInv(p: Port, msgs: seq<int>, nr: nat)
    requires Reachable(p, msgs, nr)
    ensures Inv(p, msgs) && |p.ss| == |msgs| && |p.rs| == nr
  {
    var schedule :| Run(Start(|msgs|, nr), msgs, schedule) == Some(p);
    StartInv(msgs, nr);
    RunKeeps(Start(|msgs|, nr), msgs, schedule);
  }

  // MAIN: for any number of threads, the k-th message taken is the k-th placed:
  // each sender's message is placed once, goes to one receiver, and at most one
  // is in the buffer, which then has a receiver to come for it.
  lemma NothingLost(p: Port, msgs: seq<int>, nr: nat)
    requires Reachable(p, msgs, nr)
    ensures |msgs| == |p.ss| && PutIds(p.placedBy, p.ss) && GotIds(p.takenBy, p.rs)
    ensures |p.takenBy| <= |p.placedBy| <= |p.takenBy| + 1
    ensures forall k :: 0 <= k < |p.takenBy| ==> Result(p.rs[p.takenBy[k]]) == msgs[p.placedBy[k]]
    ensures |p.placedBy| > |p.takenBy| ==> !p.bufferEmpty && p.buffer == msgs[p.placedBy[|p.takenBy|]]
    ensures !p.bufferEmpty ==> p.receivers > 0
  {
    ReachableInv(p, msgs, nr);
  }

  // --------------------------------------------------------------- the wedge

  predicate SStill(pc: SPc) {
    pc == SStart || pc == SAsleep(false) || pc == SDone
  }

  predicate RStill(pc: RPc) {
    pc == RStart || pc == RAsleep(false) || pc.RDone?
  }

  // A sender and a receiver sleep, and nobody who has begun can move.
  predicate Stalled(p: Port) {
    && p.lock == Free
    && (forall i :: 0 <= i < |p.ss| ==> SStill(p.ss[i])) && (forall j :: 0 <= j < |p.rs| ==> RStill(p.rs[j]))
    && (exists i :: 0 <= i < |p.ss| && p.ss[i] == SAsleep(false))
    && (exists j :: 0 <= j < |p.rs| && p.rs[j] == RAsleep(false))
  }

  // A sender and a receiver sleep, and no thread can step.
  ghost predicate Wedged(p: Port, msgs: seq<int>) {
    && (forall who :: Next(p, msgs, who) == None)
    && (exists i :: 0 <= i < |p.ss| && p.ss[i] == SAsleep(false))
    && (exists j :: 0 <= j < |p.rs| && p.rs[j] == RAsleep(false))
  }

  // A sender on its way to the buffer, or to the signal after it.
  predicate Moving(pc: SPc) {
    pc == SAsleep(true) || pc.SRelock? || pc.SCount? || pc.STest? || pc.SPut? || pc.SSignal?
  }

  predicate SomeMoving(ss: seq<SPc>) {
    exists i :: 0 <= i < |ss| && Moving(ss[i])
  }

  // With one receiver: while it sleeps unsignalled, a sleeping sender is never
  // the only kind of sender there is.
  predicate OneReceiver(p: Port) {
    && (p.rQueue != [] && !p.bufferEmpty ==> exists i :: 0 <= i < |p.ss| && p.ss[i] == SSignal)
    && (forall i :: 0 <= i < |p.ss| && p.ss[i] == SWait ==> p.rQueue == [])
    && (p.rQueue != [] && p.sQueue != [] ==> SomeMoving(p.ss))
    && (forall j :: 0 <= j < |p.rs| && p.rs[j] == RWait && p.sQueue != [] ==> SomeMoving(p.ss))
  }

  // With one sender: while it sleeps unsignalled, no receiver sleeps.
  predicate OneSender(p: Port) {
    && (forall i :: 0 <= i < |p.ss| && p.ss[i] == SWait ==> p.rQueue == [])
    && (p.sQueue != [] ==> p.rQueue == [] && forall j :: 0 <= j < |p.rs| ==> p.rs[j] != RWait)
  }

  // A sleeping receiver is counted.
  lemma SleeperCounted(p: Port, msgs: seq<int>)
    requires Inv(p, msgs)
    ensures p.rQueue != [] ==> p.receivers > 0
    ensures p.sQueue != [] ==> p.senders > 0
  {
    if p.rQueue != [] {
      assert p.rs[p.rQueue[0]] == RAsleep(false);
      RCounted(p.rs, p.rQueue[0]);
    }
    if p.sQueue != [] {
      assert p.ss[p.sQueue[0]] == SAsleep(false);
      SCounted(p.ss, p.sQueue[0]);
    }
  }

  function At(q: seq<nat>, k: nat): nat {
    if k < |q| then q[k] else 0
  }

  // One thread, one place in the queue.
  lemma ShortQueue(q: seq<nat>, n: nat)
    requires PortProofs.NoRepeat(q) && n <= 1 && (forall k :: 0 <= k < |q| ==> q[k] < n)
    ensures |q| <= 1
  {
    assert At(q, 0) == 0 && At(q, 1) == 0;
  }

  // --------------------------------------------------------- with one receiver

  // A moving sender other than i goes on moving; one that moves now will do.
  lemma MovingStays(ss: seq<SPc>, i: nat, pc: SPc)
    requires i < |ss|
    ensures Moving(pc) ==> SomeMoving(ss[i := pc])
    ensures SomeMoving(ss) && !Moving(ss[i]) ==> SomeMoving(ss[i := pc])
  {
    var ss' := ss[i := pc];
    assert Moving(pc) ==> Moving(ss'[i]);
    if SomeMoving(ss) && !Moving(ss[i]) {
      var w :| 0 <= w < |ss| && Moving(ss[w]);
      assert Moving(ss'[w]);
    }
  }

  // A sender that is not about to sleep, put or signal.
  predicate Quiet(pc: SPc) {
    !pc.SWait? && !pc.SPut? && !pc.SSignal?
  }

  // Such a sender moves on, or was not moving; the queues and the buffer stay.
  lemma QuietStep(p: Port, i: nat, pc: SPc, lock: Holder, senders: nat)
    requires OneReceiver(p) && i < |p.ss| && Quiet(p.ss[i]) && (Moving(pc) || !Moving(p.ss[i])) && pc != SWait
    ensures OneReceiver(p.(lock := lock, senders := senders, ss := p.ss[i := pc]))
  {
    MovingStays(p.ss, i, pc);
    var ss' := p.ss[i := pc];
    if k :| 0 <= k < |p.ss| && p.ss[k] == SSignal {
      assert ss'[k] == SSignal;
    }
  }

  // The one receiver sleeps unsignalled only while the buffer is empty, so a
  // sender that looks finds what it needs.
  lemma TestFinds(p: Port, msgs: seq<int>, i: nat)
    requires Inv(p, msgs) && OneReceiver(p) && i < |p.ss| && p.ss[i] == STest && p.rQueue != []
    ensures p.receivers > 0 && p.bufferEmpty
  {
    SleeperCounted(p, msgs);
    assert p.lock == BySender(i);
  }

  lemma TestStep(p: Port, msgs: seq<int>, i: nat)
    requires Inv(p, msgs) && OneReceiver(p) && i < |p.ss| && p.ss[i] == STest
    ensures OneReceiver(p.(ss := p.ss[i := if p.receivers == 0 || !p.bufferEmpty then SWait else SPut]))
  {
    assert p.lock == BySender(i);
    if p.receivers == 0 || !p.bufferEmpty {
      if p.rQueue != [] {
        TestFinds(p, msgs, i);
      }
      assert forall j :: 0 <= j < |p.rs| ==> p.rs[j] != RWait;
    } else {
      QuietStep(p, i, SPut, p.lock, p.senders);
    }
  }

  lemma WaitStep(p: Port, msgs: seq<int>, i: nat)
    requires Inv(p, msgs) && OneReceiver(p) && i < |p.ss| && p.ss[i] == SWait
    ensures OneReceiver(p.(sQueue := p.sQueue + [i], lock := Free, ss := p.ss[i := SAsleep(false)]))
  {
    assert p.lock == BySender(i);
    assert forall j :: 0 <= j < |p.rs| ==> p.rs[j] != RWait;
  }

  lemma PutStep(p: Port, msgs: seq<int>, i: nat, p': Port)
    requires Inv(p, msgs) && OneReceiver(p) && i < |p.ss| && p.ss[i] == SPut
    requires p' == p.(buffer := p'.buffer, bufferEmpty := false, senders := p'.senders, placedBy := p'.placedBy, ss := p.ss[i := SSignal])
    ensures OneReceiver(p')
  {
    MovingStays(p.ss, i, SSignal);
    assert p'.ss[i] == SSignal;
  }

  // With no receiver asleep or about to be, there is nothing to fear.
  lemma NoneAsleep(p: Port)
    requires p.rQueue == [] && forall j :: 0 <= j < |p.rs| ==> p.rs[j] != RWait
    ensures OneReceiver(p)
  {
  }

  lemma NoneWaits(p: Port, msgs: seq<int>, i: nat)
    requires Inv(p, msgs) && i < |p.ss| && SHolds(p.ss[i])
    ensures forall j :: 0 <= j < |p.rs| ==> p.rs[j] != RWait
    ensures forall j :: 0 <= j < |p.rs| ==> SignalReceiver(p).rs[j] != RWait
  {
    assert p.lock == BySender(i);
  }

  lemma SignalStep(p: Port, msgs: seq<int>, i: nat)
    requires Inv(p, msgs) && OneReceiver(p) && |p.rs| <= 1 && i < |p.ss| && p.ss[i] == SSignal
    ensures OneReceiver(SignalReceiver(p).(ss := p.ss[i := SUnlock]))
  {
    ShortQueue(p.rQueue, |p.rs|);
    NoneWaits(p, msgs, i);
    assert SignalReceiver(p).rQueue == [];
    NoneAsleep(SignalReceiver(p).(ss := p.ss[i := SUnlock]));
  }

  lemma OneReceiverS(p: Port, msgs: seq<int>, i: nat)
    requires Inv(p, msgs) && OneReceiver(p) && |p.rs| <= 1 && i < |p.ss| == |msgs| && SStep(p, i, msgs[i]).Some?
    ensures OneReceiver(SStep(p, i, msgs[i]).value)
  {
    var p' := SStep(p, i, msgs[i]).value;
    match p.ss[i]
    case STest => TestStep(p, msgs, i);
    case SWait => WaitStep(p, msgs, i);
    case SPut => PutStep(p, msgs, i, p');
    case SSignal => SignalStep(p, msgs, i);
    case SStart => QuietStep(p, i, SCount, p'.lock, p'.senders);
    case SCount => QuietStep(p, i, STest, p'.lock, p'.senders);
    case SAsleep(signalled) => QuietStep(p, i, SRelock, p'.lock, p'.senders);
    case SRelock => QuietStep(p, i, STest, p'.lock, p'.senders);
    case SUnlock => QuietStep(p, i, SDone, p'.lock, p'.senders);
  }

  // While the one receiver is awake, none sleeps.
  lemma AwakeAlone(q: seq<nat>, rs: seq<RPc>, j: nat)
    requires RQueued(q, rs) && |rs| <= 1 && j < |rs| && rs[j] != RAsleep(false)
    ensures q == []
  {
    assert q != [] ==> At(q, 0) in q;
  }

  lemma OneReceiverR(p: Port, msgs: seq<int>, j: nat)
    requires Inv(p, msgs) && OneReceiver(p) && |p.rs| <= 1 && j < |p.rs| && RStep(p, j).Some?
    ensures OneReceiver(RStep(p, j).value)
  {
    match p.rs[j]
    case RPoke => PokeStep(p, msgs, j);
    case RWait => SleepStep(p, msgs, j);
    case RTake => AwakeAlone(p.rQueue, p.rs, j);
    case _ =>
  }

  lemma PokeStep(p: Port, msgs: seq<int>, j: nat)
    requires Inv(p, msgs) && OneReceiver(p) && |p.rs| <= 1 && j < |p.rs| && p.rs[j] == RPoke
    ensures OneReceiver(RStep(p, j).value)
  {
    SleeperCounted(p, msgs);
    assert p.lock == ByReceiver(j);
    AwakeAlone(p.rQueue, p.rs, j);
    if p.sQueue != [] {
      SQueuedPop(p.sQueue, p.ss);
      MovingStays(p.ss, p.sQueue[0], SAsleep(true));
    }
  }

  lemma SleepStep(p: Port, msgs: seq<int>, j: nat)
    requires Inv(p, msgs) && OneReceiver(p) && |p.rs| <= 1 && j < |p.rs| && p.rs[j] == RWait
    ensures OneReceiver(RStep(p, j).value)
  {
    assert p.lock == ByReceiver(j);
    assert forall i :: 0 <= i < |p.ss| ==> p.ss[i] != SWait;
  }

  // ----------------------------------------------------------- with one sender

  // The one sender's message is not in the buffer before it has been put there.
  lemma NotYetFull(p: Port, msgs: seq<int>, i: nat)
    requires Inv(p, msgs) && |p.ss| <= 1 && i < |p.ss| && !HasPut(p.ss[i])
    ensures p.bufferEmpty
  {
    assert p.placedBy != [] ==> At(p.placedBy, 0) == i;
  }

  lemma OneSenderS(p: Port, msgs: seq<int>, i: nat)
    requires Inv(p, msgs) && OneSender(p) && |p.ss| <= 1 && i < |p.ss| == |msgs| && SStep(p, i, msgs[i]).Some?
    ensures OneSender(SStep(p, i, msgs[i]).value)
  {
    match p.ss[i]
    case STest =>
      NotYetFull(p, msgs, i);
      SleeperCounted(p, msgs);
    case SWait =>
      assert p.lock == BySender(i);
      assert forall j :: 0 <= j < |p.rs| ==> p.rs[j] != RWait;
    case SSignal =>
      assert p.sQueue != [] ==> At(p.sQueue, 0) == i;
    case _ =>
  }

  lemma OneSenderR(p: Port, msgs: seq<int>, j: nat)
    requires Inv(p, msgs) && OneSender(p) && |p.ss| <= 1 && j < |p.rs| && RStep(p, j).Some?
    ensures OneSender(RStep(p, j).value)
  {
    match p.rs[j]
    case RPoke =>
      SleeperCounted(p, msgs);
      ShortQueue(p.sQueue, |p.ss|);
      if p.sQueue != [] {
        SQueuedPop(p.sQueue, p.ss);
      }
      assert p.lock == ByReceiver(j);
    case RWait =>
      assert p.lock == ByReceiver(j);
      assert forall i :: 0 <= i < |p.ss| ==> p.ss[i] != SWait;
    case _ =>
  }

  // ----------------------------------------------------------------- never wedged

  // Fewer than two of one kind.
  ghost predicate Safe(p: Port, msgs: seq<int>) {
    Inv(p, msgs) && (|p.rs| <= 1 ==> OneReceiver(p)) && (|p.ss| <= 1 ==> OneSender(p))
  }

  lemma NextSafe(p: Port, msgs: seq<int>, who: Actor)
    requires Safe(p, msgs) && Next(p, msgs, who).Some?
    ensures Safe(Next(p, msgs, who).value, msgs)
    ensures |Next(p, msgs, who).value.ss| == |p.ss| && |Next(p, msgs, who).value.rs| == |p.rs|
  {
    NextKeeps(p, msgs, who);
    match who
    case Sender(i) =>
      if |p.rs| <= 1 { OneReceiverS(p, msgs, i); }
      if |p.ss| <= 1 { OneSenderS(p, msgs, i); }
    case Receiver(j) =>
      if |p.rs| <= 1 { OneReceiverR(p, msgs, j); }
      if |p.ss| <= 1 { OneSenderR(p, msgs, j); }
  }

  lemma {:induction false} RunSafe(p: Port, msgs: seq<int>, schedule: seq<Actor>)
    requires Safe(p, msgs) && Run(p, msgs, schedule).Some?
    ensures Safe(Run(p, msgs, schedule).value, msgs)
    decreases |schedule|
  {
    if schedule != [] {
      NextSafe(p, msgs, schedule[0]);
      RunSafe(Next(p, msgs, schedule[0]).value, msgs, schedule[1..]);
    }
  }

  lemma ReachableSafe(p: Port, msgs: seq<int>, nr: nat)
    requires Reachable(p, msgs, nr)
    ensures Safe(p, msgs) && |p.ss| == |msgs| && |p.rs| == nr
  {
    var schedule :| Run(Start(|msgs|, nr), msgs, schedule) == Some(p);
    StartInv(msgs, nr);
    RunSafe(Start(|msgs|, nr), msgs, schedule);
    ReachableInv(p, msgs, nr);
  }

  lemma NotStalled(p: Port, msgs: seq<int>)
    requires Safe(p, msgs) && (|p.ss| <= 1 || |p.rs| <= 1)
    ensures !Stalled(p)
  {
  }

  // ----------------------------------------------------------------- wedged

  // Run is composed of runs.
  lemma {:induction false} RunOn(p: Port, msgs: seq<int>, a: seq<Actor>, b: seq<Actor>)
    requires Run(p, msgs, a).Some?
    ensures Run(p, msgs, a + b) == Run(Run(p, msgs, a).value, msgs, b)
    decreases |a|
  {
    if a == [] {
      assert a + b == b;
    } else {
      assert (a + b)[0] == a[0] && (a + b)[1..] == a[1..] + b;
      RunOn(Next(p, msgs, a[0]).value, msgs, a[1..], b);
    }
  }

  // Three and two steps of one thread.
  lemma Two(p: Port, msgs: seq<int>, who: Actor)
    requires Next(p, msgs, who).Some?
    ensures Run(p, msgs, [who, who]) == Next(Next(p, msgs, who).value, msgs, who)
  {
    var p1 := Next(p, msgs, who).value;
    assert [who, who][1..] == [who] && [who][1..] == [];
    assert Run(p1, msgs, [who]) == Next(p1, msgs, who);
  }

  lemma Three(p: Port, msgs: seq<int>, who: Actor)
    requires Next(p, msgs, who).Some? && Next(Next(p, msgs, who).value, msgs, who).Some?
    ensures Run(p, msgs, [who, who, who]) == Next(Next(Next(p, msgs, who).value, msgs, who).value, msgs, who)
    ensures Run(p, msgs, [who, who]) == Next(Next(p, msgs, who).value, msgs, who)
  {
    Two(p, msgs, who);
    Two(Next(p, msgs, who).value, msgs, who);
    assert [who, who, who][1..] == [who, who];
  }

  // A receiver that finds the buffer empty and no sender counted goes to sleep.
  lemma ReceiverSleeps(p: Port, msgs: seq<int>, j: nat)
    requires j < |p.rs| && p.rs[j] == RStart && p.lock == Free && p.bufferEmpty && p.senders == 0
    ensures Run(p, msgs, [Receiver(j), Receiver(j), Receiver(j)] + [Receiver(j), Receiver(j)])
      == Some(p.(receivers := p.receivers + 1, rQueue := p.rQueue + [j], rs := p.rs[j := RAsleep(false)]))
  {
    var who := Receiver(j);
    var poke := p.(lock := ByReceiver(j), receivers := p.receivers + 1, rs := p.rs[j := RPoke]);
    assert p.rs[j := RCount][j := RTest] == p.rs[j := RTest] && p.rs[j := RTest][j := RPoke] == p.rs[j := RPoke];
    Three(p, msgs, who);
    assert Run(p, msgs, [who, who, who]) == Some(poke);
    assert p.rs[j := RPoke][j := RWait] == p.rs[j := RWait] && p.rs[j := RWait][j := RAsleep(false)] == p.rs[j := RAsleep(false)];
    Three(poke, msgs, who);
    RunOn(p, msgs, [who, who, who], [who, who]);
  }

  // A sender that finds a receiver and an empty buffer puts its message there
  // and signals the first receiver asleep.
  lemma SenderPuts(p: Port, msgs: seq<int>, i: nat)
    requires i < |p.ss| && i < |msgs| && p.ss[i] == SStart && p.lock == Free && p.bufferEmpty && p.receivers > 0
    requires p.rQueue != [] && p.rQueue[0] < |p.rs|
    ensures Run(p, msgs, [Sender(i), Sender(i), Sender(i)] + [Sender(i), Sender(i), Sender(i)])
      == Some(p.(buffer := msgs[i], bufferEmpty := false, placedBy := p.placedBy + [i], ss := p.ss[i := SDone],
                 rQueue := p.rQueue[1..], rs := p.rs[p.rQueue[0] := RAsleep(true)]))
  {
    var who := Sender(i);
    var put := p.(lock := BySender(i), senders := p.senders + 1, ss := p.ss[i := SPut]);
    assert p.ss[i := SCount][i := STest] == p.ss[i := STest] && p.ss[i := STest][i := SPut] == p.ss[i := SPut];
    Three(p, msgs, who);
    assert Run(p, msgs, [who, who, who]) == Some(put);
    assert p.ss[i := SPut][i := SSignal] == p.ss[i := SSignal] && p.ss[i := SSignal][i := SUnlock] == p.ss[i := SUnlock];
    assert p.ss[i := SUnlock][i := SDone] == p.ss[i := SDone];
    Three(put, msgs, who);
    RunOn(p, msgs, [who, who, who], [who, who, who]);
  }

  // A sender that finds the buffer full goes to sleep.
  lemma SenderSleeps(p: Port, msgs: seq<int>, i: nat)
    requires i < |p.ss| && i < |msgs| && p.ss[i] == SStart && p.lock == Free && !p.bufferEmpty
    ensures Run(p, msgs, [Sender(i), Sender(i)] + [Sender(i), Sender(i)])
      == Some(p.(senders := p.senders + 1, sQueue := p.sQueue + [i], ss := p.ss[i := SAsleep(false)]))
  {
    var who := Sender(i);
    var test := p.(lock := BySender(i), senders := p.senders + 1, ss := p.ss[i := STest]);
    assert p.ss[i := SCount][i := STest] == p.ss[i := STest];
    Three(p, msgs, who);
    assert Run(p, msgs, [who, who]) == Some(test);
    assert p.ss[i := STest][i := SWait] == p.ss[i := SWait] && p.ss[i := SWait][i := SAsleep(false)] == p.ss[i := SAsleep(false)];
    Three(test, msgs, who);
    RunOn(p, msgs, [who, who], [who, who]);
  }

  // A signalled receiver that finds the buffer full takes the message.  It
  // signals nobody.
  lemma ReceiverTakes(p: Port, msgs: seq<int>, j: nat)
    requires j < |p.rs| && p.rs[j] == RAsleep(true) && p.lock == Free && !p.bufferEmpty && p.receivers > 0
    ensures Run(p, msgs, [Receiver(j), Receiver(j), Receiver(j)] + [Receiver(j), Receiver(j)])
      == Some(p.(bufferEmpty := true, receivers := p.receivers - 1, takenBy := p.takenBy + [j], rs := p.rs[j := RDone(p.buffer)]))
  {
    var who := Receiver(j);
    var take := p.(lock := ByReceiver(j), rs := p.rs[j := RTake]);
    assert p.rs[j := RRelock][j := RTest] == p.rs[j := RTest] && p.rs[j := RTest][j := RTake] == p.rs[j := RTake];
    Three(p, msgs, who);
    assert Run(p, msgs, [who, who, who]) == Some(take);
    var m := p.buffer;
    assert p.rs[j := RTake][j := RUnlock(m)] == p.rs[j := RUnlock(m)] && p.rs[j := RUnlock(m)][j := RDone(m)] == p.rs[j := RDone(m)];
    Three(take, msgs, who);
    RunOn(p, msgs, [who, who, who], [who, who]);
  }

  ghost predicate Leads(p: Port, msgs: seq<int>, p': Port) {
    exists schedule :: Run(p, msgs, schedule) == Some(p')
  }

  lemma LeadsOn(p: Port, msgs: seq<int>, q: Port, r: Port)
    requires Leads(p, msgs, q) && Leads(q, msgs, r)
    ensures Leads(p, msgs, r)
  {
    var a :| Run(p, msgs, a) == Some(q);
    var b :| Run(q, msgs, b) == Some(r);
    RunOn(p, msgs, a, b);
  }

  // Receivers 0 to k - 1 have gone to sleep.
  predicate Asleep(p: Port, ns: nat, nr: nat, k: nat) {
    && p.lock == Free && p.bufferEmpty && p.senders == 0 && p.receivers == k == |p.rQueue|
    && |p.ss| == ns && |p.rs| == nr && (k > 0 ==> p.rQueue[0] == 0)
    && (forall i :: 0 <= i < ns ==> p.ss[i] == SStart)
    && (forall j :: 0 <= j < nr ==> p.rs[j] == if j < k then RAsleep(false) else RStart)
  }

  lemma {:induction false} ReceiversSleep(msgs: seq<int>, nr: nat, k: nat) returns (p: Port)
    requires k <= nr
    ensures Leads(Start(|msgs|, nr), msgs, p) && Asleep(p, |msgs|, nr, k)
    decreases k
  {
    var start := Start(|msgs|, nr);
    if k == 0 {
      p := start;
      assert Run(start, msgs, []) == Some(start);
    } else {
      var q := ReceiversSleep(msgs, nr, k - 1);
      ReceiverSleeps(q, msgs, k - 1);
      p := q.(receivers := q.receivers + 1, rQueue := q.rQueue + [k - 1], rs := q.rs[k - 1 := RAsleep(false)]);
      assert Leads(q, msgs, p);
      LeadsOn(start, msgs, q, p);
    }
  }

  // Senders 1 to k - 1 find the buffer full and go to sleep.
  lemma {:induction false} SendersSleep(p: Port, msgs: seq<int>, k: nat) returns (p': Port)
    requires 1 <= k <= |p.ss| == |msgs| && p.lock == Free && !p.bufferEmpty
    requires forall i :: 1 <= i < |p.ss| ==> p.ss[i] == SStart
    ensures Leads(p, msgs, p') && p' == p.(senders := p'.senders, sQueue := p'.sQueue, ss := p'.ss) && |p'.ss| == |p.ss|
    ensures forall i :: 0 <= i < |p.ss| ==> p'.ss[i] == if 1 <= i < k then SAsleep(false) else p.ss[i]
    decreases k
  {
    if k == 1 {
      p' := p;
      assert Run(p, msgs, []) == Some(p);
    } else {
      var q := SendersSleep(p, msgs, k - 1);
      SenderSleeps(q, msgs, k - 1);
      p' := q.(senders := q.senders + 1, sQueue := q.sQueue + [k - 1], ss := q.ss[k - 1 := SAsleep(false)]);
      assert Leads(q, msgs, p');
      LeadsOn(p, msgs, q, p');
    }
  }

  // Sender 0 sends and wakes receiver 0.
  lemma FirstSends(p: Port, msgs: seq<int>, nr: nat) returns (q: Port)
    requires |msgs| > 0 && nr > 0 && Asleep(p, |msgs|, nr, nr)
    ensures Leads(p, msgs, q) && q.lock == Free && !q.bufferEmpty && q.receivers > 0
    ensures q.ss == p.ss[0 := SDone] && q.rs == p.rs[0 := RAsleep(true)]
  {
    SenderPuts(p, msgs, 0);
    q := Run(p, msgs, [Sender(0), Sender(0), Sender(0)] + [Sender(0), Sender(0), Sender(0)]).value;
  }

  // And then receiver 0 takes the message and signals nobody.
  lemma FirstReceives(p: Port, msgs: seq<int>) returns (q: Port)
    requires p.rs != [] && p.rs[0] == RAsleep(true) && p.lock == Free && !p.bufferEmpty && p.receivers > 0
    ensures Leads(p, msgs, q) && q.lock == Free && q.ss == p.ss && q.rs == p.rs[0 := RDone(p.buffer)]
  {
    ReceiverTakes(p, msgs, 0);
    q := Run(p, msgs, [Receiver(0), Receiver(0), Receiver(0)] + [Receiver(0), Receiver(0)]).value;
  }

  // Every thread is done or asleep.
  predicate AllRest(p: Port) {
    && (forall i :: 0 <= i < |p.ss| ==> p.ss[i] == if i == 0 then SDone else SAsleep(false))
    && (forall j :: 0 <= j < |p.rs| ==> if j == 0 then p.rs[j].RDone? else p.rs[j] == RAsleep(false))
  }

  lemma RestWedged(p: Port, msgs: seq<int>)
    requires AllRest(p) && |p.ss| >= 2 && |p.rs| >= 2
    ensures Wedged(p, msgs)
  {
    assert p.ss[1] == SAsleep(false) && p.rs[1] == RAsleep(false);
    forall who
      ensures Next(p, msgs, who) == None
    {
    }
  }

  lemma ThenRest(msgs: seq<int>, nr: nat, p: Port) returns (q: Port)
    requires |msgs| > 0 && nr > 0 && Asleep(p, |msgs|, nr, nr)
    ensures Leads(p, msgs, q) && AllRest(q) && |q.ss| == |msgs| && |q.rs| == nr
  {
    var p2 := FirstSends(p, msgs, nr);
    var p3 := SendersSleep(p2, msgs, |msgs|);
    q := FirstReceives(p3, msgs);
    LeadsOn(p, msgs, p2, p3);
    LeadsOn(p, msgs, p3, q);
  }

  // All receivers go to sleep; sender 0 sends and wakes receiver 0; the other
  // senders find the buffer full and go to sleep; receiver 0 takes the message.
  lemma ThenWedges(msgs: seq<int>, nr: nat) returns (p: Port)
    requires |msgs| >= 2 && nr >= 2
    ensures Reachable(p, msgs, nr) && Wedged(p, msgs) && AllRest(p) && |p.ss| == |msgs| && |p.rs| == nr
  {
    var start := Start(|msgs|, nr);
    var asleep := ReceiversSleep(msgs, nr, nr);
    p := ThenRest(msgs, nr, asleep);
    LeadsOn(start, msgs, asleep, p);
    RestWedged(p, msgs);
  }

  // A thread that holds the lock can go on.
  lemma HolderGoesOn(p: Port, msgs: seq<int>) returns (who: Actor)
    requires Inv(p, msgs) && p.lock != Free
    ensures Next(p, msgs, who).Some?
  {
    match p.lock
    case BySender(i) =>
      who := Sender(i);
      if p.ss[i] == SPut {
        SCounted(p.ss, i);
      }
    case ByReceiver(j) =>
      who := Receiver(j);
      if p.rs[j] == RTake {
        RCounted(p.rs, j);
      }
  }

  lemma WedgedIsStalled(p: Port, msgs: seq<int>)
    requires Inv(p, msgs) && |p.ss| == |msgs| && Wedged(p, msgs)
    ensures Stalled(p)
  {
    if p.lock != Free {
      var _ := HolderGoesOn(p, msgs);
    }
    forall i | 0 <= i < |p.ss|
      ensures SStill(p.ss[i])
    {
      assert Next(p, msgs, Sender(i)) == None;
    }
    forall j | 0 <= j < |p.rs|
      ensures RStill(p.rs[j])
    {
      assert Next(p, msgs, Receiver(j)) == None;
    }
  }

  // MAIN: a port can get stuck, with no thread able to step while a sender and a
  // receiver sleep, exactly when there are at least two of each.
  lemma WedgesIff(msgs: seq<int>, nr: nat)
    ensures (exists p :: Reachable(p, msgs, nr) && Wedged(p, msgs)) <==> |msgs| >= 2 && nr >= 2
  {
    if p :| Reachable(p, msgs, nr) && Wedged(p, msgs) {
      ReachableInv(p, msgs, nr);
      ReachableSafe(p, msgs, nr);
      WedgedIsStalled(p, msgs);
      if |msgs| <= 1 || nr <= 1 {
        NotStalled(p, msgs);
      }
    }
    if |msgs| >= 2 && nr >= 2 {
      var p := ThenWedges(msgs, nr);
    }
  }

  // ------------------------------------------------------------- one to one: Join

  // MAIN: a parent that joins and a child that finishes are never stuck, and
  // when both are through the parent has the child's status.
  lemma JoinReturnsStatus(p: Port, status: int)
    requires Reachable(p, [status], 1)
    ensures |p.ss| == |p.rs| == 1
    ensures p.ss[0] == SDone && p.rs[0].RDone? ==> p.rs[0] == RDone(status)
    ensures (p.ss[0] == SDone && p.rs[0].RDone?) || SStep(p, 0, status).Some? || RStep(p, 0).Some?
  {
    ReachableSafe(p, [status], 1);
    OneToOne(p, status);
  }

  // A thread that holds the lock can always go on.
  lemma HolderMoves(p: Port, status: int)
    requires Inv(p, [status]) && |p.ss| == |p.rs| == 1 && p.lock != Free
    ensures SStep(p, 0, status).Some? || RStep(p, 0).Some?
  {
    if p.ss[0] == SPut {
      SCounted(p.ss, 0);
    }
  }

  lemma DoneTogether(p: Port, status: int)
    requires Safe(p, [status]) && |p.ss| == |p.rs| == 1
    ensures p.rs[0].RDone? ==> p.rs[0] == RDone(status) && HasPut(p.ss[0])
    ensures HasPut(p.ss[0]) && !HasGot(p.rs[0]) ==> !p.bufferEmpty
    ensures p.ss[0] == SDone ==> p.rs[0] != RAsleep(false)
  {
    assert p.takenBy != [] ==> At(p.takenBy, 0) == 0;
    assert p.placedBy != [] ==> At(p.placedBy, 0) == 0;
  }

  lemma OneToOne(p: Port, status: int)
    requires Safe(p, [status]) && |p.ss| == |p.rs| == 1
    ensures p.rs[0].RDone? ==> p.rs[0] == RDone(status) && HasPut(p.ss[0])
    ensures (p.ss[0] == SDone && p.rs[0].RDone?) || SStep(p, 0, status).Some? || RStep(p, 0).Some?
  {
    DoneTogether(p, status);
    NotStalled(p, [status]);
    if p.lock != Free {
      HolderMoves(p, status);
    } else {
      assert p.ss[0] == SAsleep(false) && p.rs[0] == RAsleep(false) ==> Stalled(p);
    }
  }
}
