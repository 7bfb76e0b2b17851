// The rendezvous port: any number of senders and receivers around a one-place
// buffer, a lock and two condition variables.  A step is one statement of one
// thread; Wait puts the thread on the condition's queue and releases the lock
// in one step, because nobody else can see the state between the two.

module Ports {
  import opened Basics

  datatype SPc =
    | SStart                      // lock->Acquire()
    | SCount                      // senders++
    | STest                       // while (receivers == 0 || !bufferEmpty)
    | SWait                       // senderCondition->Wait(lock)
    | SAsleep(signalled: bool)    // ci->sem->P()
    | SRelock                     // conditionLock->Acquire()
    | SPut                        // buffer = msg; bufferEmpty = false; senders--
    | SSignal                     // receiverCondition->Signal(lock)
    | SUnlock                     // lock->Release()
    | SDone

  datatype RPc =
    | RStart
    | RCount                      // receivers++
    | RTest                       // while (bufferEmpty)
    | RPoke                       // if (senders > 0) senderCondition->Signal(lock)
    | RWait                       // receiverCondition->Wait(lock)
    | RAsleep(signalled: bool)
    | RRelock
    | RTake                       // msg = buffer; bufferEmpty = true; receivers--
    | RUnlock(msg: int)
    | RDone(msg: int)

  datatype Holder = Free | BySender(i: nat) | ByReceiver(j: nat)

  // placedBy and takenBy are the history of the buffer: who filled and who
  // emptied it, in order.
  datatype Port = Port(lock: Holder, buffer: int, bufferEmpty: bool, senders: nat, receivers: nat,
                       sQueue: seq<nat>, rQueue: seq<nat>, ss: seq<SPc>, rs: seq<RPc>, placedBy: seq<nat>, takenBy: seq<nat>)

  function Start(ns: nat, nr: nat): Port {
    Port(Free, 0, true, 0, 0, [], [], seq(ns, _ => SStart), seq(nr, _ => RStart), [], [])
  }

  // ------------------------------------------------------------------ the steps

  // Signal: the first waiting thread's semaphore is raised.
  function SignalReceiver(p: Port): Port {
    if p.rQueue == [] || p.rQueue[0] >= |p.rs| then p
    else p.(rQueue := p.rQueue[1..], rs := p.rs[p.rQueue[0] := RAsleep(true)])
  }

  function SignalSender(p: Port): Port {
    if p.sQueue == [] || p.sQueue[0] >= |p.ss| then p
    else p.(sQueue := p.sQueue[1..], ss := p.ss[p.sQueue[0] := SAsleep(true)])
  }

  function SStep(p: Port, i: nat, msg: int): Option<Port>
    requires i < |p.ss|
  {
    match p.ss[i]
    case SStart => if p.lock == Free then Some(p.(lock := BySender(i), ss := p.ss[i := SCount])) else None
    case SCount => Some(p.(senders := p.senders + 1, ss := p.ss[i := STest]))
    case STest => Some(p.(ss := p.ss[i := if p.receivers == 0 || !p.bufferEmpty then SWait else SPut]))
    case SWait => Some(p.(sQueue := p.sQueue + [i], lock := Free, ss := p.ss[i := SAsleep(false)]))
    case SAsleep(signalled) => if signalled then Some(p.(ss := p.ss[i := SRelock])) else None
    case SRelock => if p.lock == Free then Some(p.(lock := BySender(i), ss := p.ss[i := STest])) else None
    case SPut => if p.senders > 0 then Some(p.(buffer := msg, bufferEmpty := false, senders := p.senders - 1,
                                               placedBy := p.placedBy + [i], ss := p.ss[i := SSignal])) else None
    case SSignal => var q := SignalReceiver(p); Some(q.(ss := p.ss[i := SUnlock]))
    case SUnlock => Some(p.(lock := Free, ss := p.ss[i := SDone]))
    case SDone => None
  }

  function RStep(p: Port, j: nat): Option<Port>
    requires j < |p.rs|
  {
    match p.rs[j]
    case RStart => if p.lock == Free then Some(p.(lock := ByReceiver(j), rs := p.rs[j := RCount])) else None
    case RCount => Some(p.(receivers := p.receivers + 1, rs := p.rs[j := RTest]))
    case RTest => Some(p.(rs := p.rs[j := if p.bufferEmpty then RPoke else RTake]))
    case RPoke => var q := if p.senders > 0 then SignalSender(p) else p; Some(q.(rs := p.rs[j := RWait]))
    case RWait => Some(p.(rQueue := p.rQueue + [j], lock := Free, rs := p.rs[j := RAsleep(false)]))
    case RAsleep(signalled) => if signalled then Some(p.(rs := p.rs[j := RRelock])) else None
    case RRelock => if p.lock == Free then Some(p.(lock := ByReceiver(j), rs := p.rs[j := RTest])) else None
    case RTake => if p.receivers > 0 then Some(p.(bufferEmpty := true, receivers := p.receivers - 1,
                                                  takenBy := p.takenBy + [j], rs := p.rs[j := RUnlock(p.buffer)])) else None
    case RUnlock(msg) => Some(p.(lock := Free, rs := p.rs[j := RDone(msg)]))
    case RDone(_) => None
  }

  datatype Actor = Sender(i: nat) | Receiver(j: nat)

  // msgs[i] is what sender i sends.
  function Next(p: Port, msgs: seq<int>, who: Actor): Option<Port> {
    match who
    case Sender(i) => if i < |p.ss| && i < |msgs| then SStep(p, i, msgs[i]) else None
    case Receiver(j) => if j < |p.rs| then RStep(p, j) else None
  }

  function Run(p: Port, msgs: seq<int>, schedule: seq<Actor>): Option<Port>
    decreases |schedule|
  {
    if schedule == [] then Some(p)
    else
      var p' := Next(p, msgs, schedule[0]);
      if p'.None? then None else Run(p'.value, msgs, schedule[1..])
  }

  ghost predicate Reachable(p: Port, msgs: seq<int>, nr: nat) {
    exists schedule :: Run(Start(|msgs|, nr), msgs, schedule) == Some(p)
  }

  // ------------------------------------------------------------------- counting

  predicate SIn(pc: SPc) {
    pc.STest? || pc.SWait? || pc.SAsleep? || pc.SRelock? || pc.SPut?
  }

  predicate RIn(pc: RPc) {
    pc.RTest? || pc.RPoke? || pc.RWait? || pc.RAsleep? || pc.RRelock? || pc.RTake?
  }

  // Senders, and receivers, between counting themselves in and out.
  function SendersIn(ss: seq<SPc>): nat {
    if ss == [] then 0 else SendersIn(ss[..|ss| - 1]) + B(SIn(ss[|ss| - 1]))
  }

  function ReceiversIn(rs: seq<RPc>): nat {
    if rs == [] then 0 else ReceiversIn(rs[..|rs| - 1]) + B(RIn(rs[|rs| - 1]))
  }

  predicate HasPut(pc: SPc) {
    pc.SSignal? || pc.SUnlock? || pc.SDone?
  }

  predicate HasGot(pc: RPc) {
    pc.RUnlock? || pc.RDone?
  }

  lemma {:induction false} SMoves(ss: seq<SPc>, i: nat, pc: SPc)
    requires i < |ss|
    ensures SendersIn(ss[i := pc]) + B(SIn(ss[i])) == SendersIn(ss) + B(SIn(pc))
    decreases |ss|
  {
    var n := |ss| - 1;
    if i < n {
      SMoves(ss[..n], i, pc);
      assert ss[i := pc][..n] == ss[..n][i := pc];
    } else {
      assert ss[i := pc][..n] == ss[..n];
    }
  }

  lemma {:induction false} RMoves(rs: seq<RPc>, j: nat, pc: RPc)
    requires j < |rs|
    ensures ReceiversIn(rs[j := pc]) + B(RIn(rs[j])) == ReceiversIn(rs) + B(RIn(pc))
    decreases |rs|
  {
    var n := |rs| - 1;
    if j < n {
      RMoves(rs[..n], j, pc);
      assert rs[j := pc][..n] == rs[..n][j := pc];
    } else {
      assert rs[j := pc][..n] == rs[..n];
    }
  }

  lemma {:induction false} SCounted(ss: seq<SPc>, i: nat)
    requires i < |ss| && SIn(ss[i])
    ensures SendersIn(ss) > 0
    decreases |ss|
  {
    if i < |ss| - 1 {
      SCounted(ss[..|ss| - 1], i);
    }
  }

  lemma {:induction false} RCounted(rs: seq<RPc>, j: nat)
    requires j < |rs| && RIn(rs[j])
    ensures ReceiversIn(rs) > 0
    decreases |rs|
  {
    if j < |rs| - 1 {
      RCounted(rs[..|rs| - 1], j);
    }
  }

  lemma {:induction false} NobodyIn(ns: nat, nr: nat)
    ensures SendersIn(seq(ns, _ => SStart)) == 0 && ReceiversIn(seq(nr, _ => RStart)) == 0
    decreases ns + nr
  {
    if ns > 0 {
      NobodyIn(ns - 1, nr);
      assert seq(ns, _ => SStart)[..ns - 1] == seq(ns - 1, _ => SStart);
    } else if nr > 0 {
      NobodyIn(ns, nr - 1);
      assert seq(nr, _ => RStart)[..nr - 1] == seq(nr - 1, _ => RStart);
    }
  }
}
