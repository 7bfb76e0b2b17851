// What the port delivers, for any number of senders and receivers, and when it
// can get stuck.

module PortProofs {
  import opened Basics
  import opened Ports

  // ------------------------------------------------------------------ invariant

  predicate SHolds(pc: SPc) {
    pc.SCount? || pc.STest? || pc.SWait? || pc.SPut? || pc.SSignal? || pc.SUnlock?
  }

  predicate RHolds(pc: RPc) {
    pc.RCount? || pc.RTest? || pc.RPoke? || pc.RWait? || pc.RTake? || pc.RUnlock?
  }

  // The lock's holder is the one thread inside a critical section.
  predicate Locked(lock: Holder, ss: seq<SPc>, rs: seq<RPc>) {
    && (forall i :: 0 <= i < |ss| ==> (SHolds(ss[i]) <==> lock == BySender(i)))
    && (forall j :: 0 <= j < |rs| ==> (RHolds(rs[j]) <==> lock == ByReceiver(j)))
    && (lock.BySender? ==> lock.i < |ss|) && (lock.ByReceiver? ==> lock.j < |rs|)
  }

  predicate NoRepeat(s: seq<nat>) {
    forall i, j :: 0 <= i < j < |s| ==> s[i] != s[j]
  }

  // Each condition's queue holds exactly the threads asleep on it without a signal.
  predicate SQueued(q: seq<nat>, ss: seq<SPc>) {
    && NoRepeat(q) && (forall k :: 0 <= k < |q| ==> q[k] < |ss|)
    && (forall i :: 0 <= i < |ss| ==> (i in q <==> ss[i] == SAsleep(false)))
  }

  predicate RQueued(q: seq<nat>, rs: seq<RPc>) {
    && NoRepeat(q) && (forall k :: 0 <= k < |q| ==> q[k] < |rs|)
    && (forall j :: 0 <= j < |rs| ==> (j in q <==> rs[j] == RAsleep(false)))
  }

  predicate Counted(p: Port) {
    p.senders == SendersIn(p.ss) && p.receivers == ReceiversIn(p.rs)
  }

  // What a branch has tested still holds while its thread keeps the lock; and a
  // full buffer has a receiver to come for it.
  predicate Tested(receivers: nat, bufferEmpty: bool, ss: seq<SPc>, rs: seq<RPc>) {
    && (forall i :: 0 <= i < |ss| && ss[i] == SPut ==> receivers > 0 && bufferEmpty)
    && (forall i :: 0 <= i < |ss| && ss[i] == SWait ==> receivers == 0 || !bufferEmpty)
    && (forall j :: 0 <= j < |rs| && rs[j] == RTake ==> !bufferEmpty)
    && (forall j :: 0 <= j < |rs| && (rs[j] == RPoke || rs[j] == RWait) ==> bufferEmpty)
    && (!bufferEmpty ==> receivers > 0)
  }

  function Result(pc: RPc): int {
    match pc case RUnlock(m) => m case RDone(m) => m case _ => 0
  }

  // placedBy lists, once each, the senders that have put their message.
  predicate PutIds(ids: seq<nat>, ss: seq<SPc>) {
    && NoRepeat(ids) && (forall k :: 0 <= k < |ids| ==> ids[k] < |ss| && HasPut(ss[ids[k]]))
    && (forall i :: 0 <= i < |ss| && HasPut(ss[i]) ==> i in ids)
  }

  predicate GotIds(ids: seq<nat>, rs: seq<RPc>) {
    && NoRepeat(ids) && (forall k :: 0 <= k < |ids| ==> ids[k] < |rs| && HasGot(rs[ids[k]]))
    && (forall j :: 0 <= j < |rs| && HasGot(rs[j]) ==> j in ids)
  }

  // Sender placedBy[k]'s message went to receiver takenBy[k]; one more may be in
  // the buffer.
  predicate Matched(placedBy: seq<nat>, takenBy: seq<nat>, rs: seq<RPc>, msgs: seq<int>, buffer: int, bufferEmpty: bool)
    requires forall k :: 0 <= k < |placedBy| ==> placedBy[k] < |msgs|
    requires forall k :: 0 <= k < |takenBy| ==> takenBy[k] < |rs|
  {
    && |placedBy| == |takenBy| + B(!bufferEmpty)
    && (forall k :: 0 <= k < |takenBy| ==> Result(rs[takenBy[k]]) == msgs[placedBy[k]])
    && (!bufferEmpty ==> buffer == msgs[placedBy[|takenBy|]])
  }

  predicate History(p: Port, msgs: seq<int>) {
    && |msgs| == |p.ss| && PutIds(p.placedBy, p.ss) && GotIds(p.takenBy, p.rs)
    && Matched(p.placedBy, p.takenBy, p.rs, msgs, p.buffer, p.bufferEmpty)
  }

  predicate Inv(p: Port, msgs: seq<int>) {
    && Locked(p.lock, p.ss, p.rs) && SQueued(p.sQueue, p.ss) && RQueued(p.rQueue, p.rs)
    && Counted(p) && Tested(p.receivers, p.bufferEmpty, p.ss, p.rs) && History(p, msgs)
  }

  lemma StartInv(msgs: seq<int>, nr: nat)
    ensures Inv(Start(|msgs|, nr), msgs)
  {
    NobodyIn(|msgs|, nr);
  }

  // ------------------------------------------------------- one piece at a time

  // A sender that changes its program counter, and what it may do to the lock.
  predicate LockMove(lock: Holder, held: bool, holds: bool, me: Holder, lock': Holder) {
    || (lock' == lock && holds == held)
    || (lock == Free && lock' == me && holds)
    || (lock == me && lock' == Free && !holds)
  }

  lemma LockedS(lock: Holder, ss: seq<SPc>, rs: seq<RPc>, i: nat, pc: SPc, lock': Holder)
    requires Locked(lock, ss, rs) && i < |ss| && LockMove(lock, SHolds(ss[i]), SHolds(pc), BySender(i), lock')
    ensures Locked(lock', ss[i := pc], rs)
  {
  }

  lemma LockedR(lock: Holder, ss: seq<SPc>, rs: seq<RPc>, j: nat, pc: RPc, lock': Holder)
    requires Locked(lock, ss, rs) && j < |rs| && LockMove(lock, RHolds(rs[j]), RHolds(pc), ByReceiver(j), lock')
    ensures Locked(lock', ss, rs[j := pc])
  {
  }

  lemma SQueuedMove(q: seq<nat>, ss: seq<SPc>, i: nat, pc: SPc)
    requires SQueued(q, ss) && i < |ss| && ss[i] != SAsleep(false) && pc != SAsleep(false)
    ensures SQueued(q, ss[i := pc])
  {
  }

  lemma SQueuedPush(q: seq<nat>, ss: seq<SPc>, i: nat)
    requires SQueued(q, ss) && i < |ss| && ss[i] != SAsleep(false)
    ensures SQueued(q + [i], ss[i := SAsleep(false)])
  {
  }

  lemma SQueuedPop(q: seq<nat>, ss: seq<SPc>)
    requires SQueued(q, ss) && q != []
    ensures q[0] < |ss| && ss[q[0]] == SAsleep(false) && SQueued(q[1..], ss[q[0] := SAsleep(true)])
  {
    assert q == [q[0]] + q[1..];
  }

  lemma RQueuedMove(q: seq<nat>, rs: seq<RPc>, j: nat, pc: RPc)
    requires RQueued(q, rs) && j < |rs| && rs[j] != RAsleep(false) && pc != RAsleep(false)
    ensures RQueued(q, rs[j := pc])
  {
  }

  lemma RQueuedPush(q: seq<nat>, rs: seq<RPc>, j: nat)
    requires RQueued(q, rs) && j < |rs| && rs[j] != RAsleep(false)
    ensures RQueued(q + [j], rs[j := RAsleep(false)])
  {
  }

  lemma RQueuedPop(q: seq<nat>, rs: seq<RPc>)
    requires RQueued(q, rs) && q != []
    ensures q[0] < |rs| && rs[q[0]] == RAsleep(false) && RQueued(q[1..], rs[q[0] := RAsleep(true)])
  {
    assert q == [q[0]] + q[1..];
  }

  // Nothing but a program counter that has no part in History has changed.
  lemma HistoryS(p: Port, msgs: seq<int>, i: nat, pc: SPc)
    requires History(p, msgs) && i < |p.ss| && HasPut(pc) == HasPut(p.ss[i])
    ensures History(p.(ss := p.ss[i := pc]), msgs)
  {
  }

  lemma HistoryR(p: Port, msgs: seq<int>, j: nat, pc: RPc)
    requires History(p, msgs) && j < |p.rs| && HasGot(pc) == HasGot(p.rs[j]) && Result(pc) == Result(p.rs[j])
    ensures History(p.(rs := p.rs[j := pc]), msgs)
  {
  }

  lemma HistoryPut(p: Port, msgs: seq<int>, i: nat)
    requires History(p, msgs) && i < |p.ss| && !HasPut(p.ss[i]) && p.bufferEmpty
    ensures History(p.(buffer := msgs[i], bufferEmpty := false, placedBy := p.placedBy + [i], ss := p.ss[i := SSignal]), msgs)
  {
  }

  lemma GotIdsPush(ids: seq<nat>, rs: seq<RPc>, j: nat, pc: RPc)
    requires GotIds(ids, rs) && j < |rs| && !HasGot(rs[j]) && HasGot(pc)
    ensures j !in ids && GotIds(ids + [j], rs[j := pc])
  {
  }

  lemma HistoryTake(p: Port, msgs: seq<int>, j: nat)
    requires History(p, msgs) && j < |p.rs| && !HasGot(p.rs[j]) && !p.bufferEmpty
    ensures History(p.(bufferEmpty := true, takenBy := p.takenBy + [j], rs := p.rs[j := RUnlock(p.buffer)]), msgs)
  {
    GotIdsPush(p.takenBy, p.rs, j, RUnlock(p.buffer));
    var ids, rs := p.takenBy + [j], p.rs[j := RUnlock(p.buffer)];
    forall k | 0 <= k < |ids|
      ensures Result(rs[ids[k]]) == msgs[p.placedBy[k]]
    {
      if k < |p.takenBy| {
        assert ids[k] != j;
      }
    }
  }

  // Nobody else is inside a critical section with sender i, or receiver j.
  lemma TestedS(p: Port, i: nat, pc: SPc, bufferEmpty: bool)
    requires Locked(p.lock, p.ss, p.rs) && Tested(p.receivers, p.bufferEmpty, p.ss, p.rs) && i < |p.ss|
    requires p.bufferEmpty == bufferEmpty || p.lock == BySender(i)
    requires pc == SPut ==> p.receivers > 0 && bufferEmpty
    requires pc == SWait ==> p.receivers == 0 || !bufferEmpty
    requires !bufferEmpty ==> p.receivers > 0
    ensures Tested(p.receivers, bufferEmpty, p.ss[i := pc], p.rs)
  {
  }

  lemma TestedR(p: Port, j: nat, pc: RPc, receivers: nat, bufferEmpty: bool)
    requires Locked(p.lock, p.ss, p.rs) && Tested(p.receivers, p.bufferEmpty, p.ss, p.rs) && j < |p.rs|
    requires (p.bufferEmpty == bufferEmpty && p.receivers == receivers) || p.lock == ByReceiver(j)
    requires pc == RTake ==> !bufferEmpty
    requires pc == RPoke || pc == RWait ==> bufferEmpty
    requires !bufferEmpty ==> receivers > 0
    ensures Tested(receivers, bufferEmpty, p.ss, p.rs[j := pc])
  {
  }

  // ------------------------------------------------------------- whole steps

  // A sender's step that touches no queue and no buffer.
  lemma PlainS(p: Port, msgs: seq<int>, i: nat, pc: SPc, lock: Holder, senders: nat)
    requires Inv(p, msgs) && i < |p.ss| && HasPut(pc) == HasPut(p.ss[i])
    requires LockMove(p.lock, SHolds(p.ss[i]), SHolds(pc), BySender(i), lock)
    requires p.ss[i] != SAsleep(false) && pc != SAsleep(false)
    requires senders + B(SIn(p.ss[i])) == p.senders + B(SIn(pc))
    requires pc == SPut ==> p.receivers > 0 && p.bufferEmpty
    requires pc == SWait ==> p.receivers == 0 || !p.bufferEmpty
    ensures Inv(p.(lock := lock, senders := senders, ss := p.ss[i := pc]), msgs)
  {
    SMoves(p.ss, i, pc);
    LockedS(p.lock, p.ss, p.rs, i, pc, lock);
    SQueuedMove(p.sQueue, p.ss, i, pc);
    TestedS(p, i, pc, p.bufferEmpty);
    HistoryS(p, msgs, i, pc);
  }

  lemma PutS(p: Port, msgs: seq<int>, i: nat)
    requires Inv(p, msgs) && i < |p.ss| == |msgs| && p.ss[i] == SPut && SStep(p, i, msgs[i]).Some?
    ensures Inv(SStep(p, i, msgs[i]).value, msgs)
  {
    SMoves(p.ss, i, SSignal);
    LockedS(p.lock, p.ss, p.rs, i, SSignal, p.lock);
    SQueuedMove(p.sQueue, p.ss, i, SSignal);
    TestedS(p, i, SSignal, false);
    HistoryPut(p, msgs, i);
  }

  lemma WaitS(p: Port, msgs: seq<int>, i: nat)
    requires Inv(p, msgs) && i < |p.ss| == |msgs| && p.ss[i] == SWait && SStep(p, i, msgs[i]).Some?
    ensures Inv(SStep(p, i, msgs[i]).value, msgs)
  {
    SMoves(p.ss, i, SAsleep(false));
    LockedS(p.lock, p.ss, p.rs, i, SAsleep(false), Free);
    SQueuedPush(p.sQueue, p.ss, i);
    TestedS(p, i, SAsleep(false), p.bufferEmpty);
    HistoryS(p, msgs, i, SAsleep(false));
  }

  // A signal changes nothing but the queue and its first thread.
  lemma SignalReceiverKeeps(p: Port, msgs: seq<int>)
    requires Inv(p, msgs)
    ensures Inv(SignalReceiver(p), msgs)
    ensures SignalReceiver(p) == p.(rQueue := SignalReceiver(p).rQueue, rs := SignalReceiver(p).rs)
  {
    if p.rQueue != [] {
      RQueuedPop(p.rQueue, p.rs);
      var j := p.rQueue[0];
      RMoves(p.rs, j, RAsleep(true));
      LockedR(p.lock, p.ss, p.rs, j, RAsleep(true), p.lock);
      TestedR(p, j, RAsleep(true), p.receivers, p.bufferEmpty);
      HistoryR(p, msgs, j, RAsleep(true));
    }
  }

  lemma SignalSenderKeeps(p: Port, msgs: seq<int>)
    requires Inv(p, msgs)
    ensures Inv(SignalSender(p), msgs)
    ensures SignalSender(p) == p.(sQueue := SignalSender(p).sQueue, ss := SignalSender(p).ss)
  {
    if p.sQueue != [] {
      SQueuedPop(p.sQueue, p.ss);
      var i := p.sQueue[0];
      SMoves(p.ss, i, SAsleep(true));
      LockedS(p.lock, p.ss, p.rs, i, SAsleep(true), p.lock);
      TestedS(p, i, SAsleep(true), p.bufferEmpty);
      HistoryS(p, msgs, i, SAsleep(true));
    }
  }

  lemma SignalS(p: Port, msgs: seq<int>, i: nat)
    requires Inv(p, msgs) && i < |p.ss| == |msgs| && p.ss[i] == SSignal && SStep(p, i, msgs[i]).Some?
    ensures Inv(SStep(p, i, msgs[i]).value, msgs)
  {
    SignalReceiverKeeps(p, msgs);
    PlainS(SignalReceiver(p), msgs, i, SUnlock, p.lock, p.senders);
  }

  predicate EntersS(pc: SPc) {
    pc.SStart? || pc.SCount? || pc.STest?
  }

  lemma EnterS(p: Port, msgs: seq<int>, i: nat)
    requires Inv(p, msgs) && i < |p.ss| == |msgs| && EntersS(p.ss[i]) && SStep(p, i, msgs[i]).Some?
    ensures Inv(SStep(p, i, msgs[i]).value, msgs)
  {
    match p.ss[i]
    case SStart => PlainS(p, msgs, i, SCount, BySender(i), p.senders);
    case SCount => PlainS(p, msgs, i, STest, p.lock, p.senders + 1);
    case STest => PlainS(p, msgs, i, if p.receivers == 0 || !p.bufferEmpty then SWait else SPut, p.lock, p.senders);
  }

  lemma RestS(p: Port, msgs: seq<int>, i: nat)
    requires Inv(p, msgs) && i < |p.ss| == |msgs| && (p.ss[i].SAsleep? || p.ss[i].SRelock? || p.ss[i].SUnlock?)
    requires SStep(p, i, msgs[i]).Some?
    ensures Inv(SStep(p, i, msgs[i]).value, msgs)
  {
    match p.ss[i]
    case SAsleep(signalled) => PlainS(p, msgs, i, SRelock, p.lock, p.senders);
    case SRelock => PlainS(p, msgs, i, STest, BySender(i), p.senders);
    case SUnlock => PlainS(p, msgs, i, SDone, Free, p.senders);
  }

  lemma SStepKeeps(p: Port, msgs: seq<int>, i: nat)
    requires Inv(p, msgs) && i < |p.ss| == |msgs| && SStep(p, i, msgs[i]).Some?
    ensures Inv(SStep(p, i, msgs[i]).value, msgs)
  {
    if p.ss[i].SWait? {
      WaitS(p, msgs, i);
    } else if p.ss[i].SPut? {
      PutS(p, msgs, i);
    } else if p.ss[i].SSignal? {
      SignalS(p, msgs, i);
    } else if EntersS(p.ss[i]) {
      EnterS(p, msgs, i);
    } else {
      RestS(p, msgs, i);
    }
  }

  // A receiver's step that touches no queue and no buffer.
  lemma PlainR(p: Port, msgs: seq<int>, j: nat, pc: RPc, lock: Holder, receivers: nat)
    requires Inv(p, msgs) && j < |p.rs| && HasGot(pc) == HasGot(p.rs[j]) && Result(pc) == Result(p.rs[j])
    requires LockMove(p.lock, RHolds(p.rs[j]), RHolds(pc), ByReceiver(j), lock)
    requires p.rs[j] != RAsleep(false) && pc != RAsleep(false)
    requires receivers + B(RIn(p.rs[j])) == p.receivers + B(RIn(pc)) && (receivers != p.receivers ==> p.lock == ByReceiver(j))
    requires pc == RTake ==> !p.bufferEmpty
    requires pc == RPoke || pc == RWait ==> p.bufferEmpty
    requires !p.bufferEmpty ==> receivers > 0
    ensures Inv(p.(lock := lock, receivers := receivers, rs := p.rs[j := pc]), msgs)
  {
    RMoves(p.rs, j, pc);
    LockedR(p.lock, p.ss, p.rs, j, pc, lock);
    RQueuedMove(p.rQueue, p.rs, j, pc);
    TestedR(p, j, pc, receivers, p.bufferEmpty);
    HistoryR(p, msgs, j, pc);
  }

  lemma WaitR(p: Port, msgs: seq<int>, j: nat)
    requires Inv(p, msgs) && j < |p.rs| && p.rs[j] == RWait && RStep(p, j).Some?
    ensures Inv(RStep(p, j).value, msgs)
  {
    RMoves(p.rs, j, RAsleep(false));
    LockedR(p.lock, p.ss, p.rs, j, RAsleep(false), Free);
    RQueuedPush(p.rQueue, p.rs, j);
    TestedR(p, j, RAsleep(false), p.receivers, p.bufferEmpty);
    HistoryR(p, msgs, j, RAsleep(false));
  }

  lemma TakeR(p: Port, msgs: seq<int>, j: nat)
    requires Inv(p, msgs) && j < |p.rs| && p.rs[j] == RTake && RStep(p, j).Some?
    ensures Inv(RStep(p, j).value, msgs)
  {
    RMoves(p.rs, j, RUnlock(p.buffer));
    LockedR(p.lock, p.ss, p.rs, j, RUnlock(p.buffer), p.lock);
    RQueuedMove(p.rQueue, p.rs, j, RUnlock(p.buffer));
    TestedR(p, j, RUnlock(p.buffer), p.receivers - 1, true);
    HistoryTake(p, msgs, j);
  }

  lemma PokeR(p: Port, msgs: seq<int>, j: nat)
    requires Inv(p, msgs) && j < |p.rs| && p.rs[j] == RPoke && RStep(p, j).Some?
    ensures Inv(RStep(p, j).value, msgs)
  {
    SignalSenderKeeps(p, msgs);
    PlainR(if p.senders > 0 then SignalSender(p) else p, msgs, j, RWait, p.lock, p.receivers);
  }

  predicate EntersR(pc: RPc) {
    pc.RStart? || pc.RCount? || pc.RTest?
  }

  lemma EnterR(p: Port, msgs: seq<int>, j: nat)
    requires Inv(p, msgs) && j < |p.rs| && EntersR(p.rs[j]) && RStep(p, j).Some?
    ensures Inv(RStep(p, j).value, msgs)
  {
    match p.rs[j]
    case RStart => PlainR(p, msgs, j, RCount, ByReceiver(j), p.receivers);
    case RCount => PlainR(p, msgs, j, RTest, p.lock, p.receivers + 1);
    case RTest => PlainR(p, msgs, j, if p.bufferEmpty then RPoke else RTake, p.lock, p.receivers);
  }

  lemma RestR(p: Port, msgs: seq<int>, j: nat)
    requires Inv(p, msgs) && j < |p.rs| && (p.rs[j].RAsleep? || p.rs[j].RRelock? || p.rs[j].RUnlock?) && RStep(p, j).Some?
    ensures Inv(RStep(p, j).value, msgs)
  {
    match p.rs[j]
    case RAsleep(signalled) => PlainR(p, msgs, j, RRelock, p.lock, p.receivers);
    case RRelock => PlainR(p, msgs, j, RTest, ByReceiver(j), p.receivers);
    case RUnlock(m) => PlainR(p, msgs, j, RDone(m), Free, p.receivers);
  }

  lemma RStepKeeps(p: Port, msgs: seq<int>, j: nat)
    requires Inv(p, msgs) && j < |p.rs| && RStep(p, j).Some?
    ensures Inv(RStep(p, j).value, msgs)
  {
    if p.rs[j].RWait? {
      WaitR(p, msgs, j);
    } else if p.rs[j].RTake? {
      TakeR(p, msgs, j);
    } else if p.rs[j].RPoke? {
      PokeR(p, msgs, j);
    } else if EntersR(p.rs[j]) {
      EnterR(p, msgs, j);
    } else {
      RestR(p, msgs, j);
    }
  }
}
