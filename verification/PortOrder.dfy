// The conditions of the port serve in order: nobody who waits is overtaken by one
// who began to wait later.

module PortOrder {
  import opened Basics
  import opened Ports
  import opened PortProofs
  import opened PortProgress

  // x began to wait before y, and both still do.
  predicate Ahead(q: seq<nat>, x: nat, y: nat) {
    exists i, j :: 0 <= i < j < |q| && q[i] == x && q[j] == y
  }

  // A queue gets a thread at its end or loses the first.
  predicate Queues(q: seq<nat>, q': seq<nat>) {
    q' == q || (|q'| == |q| + 1 && q'[..|q|] == q) || (q != [] && q' == q[1..])
  }

  lemma StillAhead(q: seq<nat>, q': seq<nat>, x: nat, y: nat)
    requires Queues(q, q') && Ahead(q, x, y) && x in q' && NoRepeat(q)
    ensures Ahead(q', x, y)
  {
    var i, j :| 0 <= i < j < |q| && q[i] == x && q[j] == y;
    if q != [] && q' == q[1..] {
      assert q[0] !in q[1..];
      assert i > 0 && q'[i - 1] == x && q'[j - 1] == y;
    } else {
      assert q'[i] == x && q'[j] == y;
    }
  }

  // -------------------------------------------------------------------- senders

  lemma SQueues(p: Port, msgs: seq<int>, who: Actor)
    requires Next(p, msgs, who).Some?
    ensures Queues(p.sQueue, Next(p, msgs, who).value.sQueue)
  {
    match who
    case Sender(i) => assert Queues(p.sQueue, SStep(p, i, msgs[i]).value.sQueue);
    case Receiver(j) => assert Queues(p.sQueue, RStep(p, j).value.sQueue);
  }

  // The others leave a sender where it is, or signal it.
  lemma SenderLeft(p: Port, msgs: seq<int>, who: Actor, x: nat)
    requires Next(p, msgs, who).Some? && who != Sender(x) && x < |p.ss|
    ensures var p' := Next(p, msgs, who).value;
      x < |p'.ss| && (p'.ss[x] == p.ss[x] || p'.ss[x] == SAsleep(true))
  {
    match who
    case Sender(i) => assert SStep(p, i, msgs[i]).value.ss == p.ss[i := SStep(p, i, msgs[i]).value.ss[i]];
    case Receiver(j) =>
  }

  lemma {:induction false} SignalledWaits(p: Port, msgs: seq<int>, schedule: seq<Actor>, x: nat)
    requires x < |p.ss| && p.ss[x] == SAsleep(true)
    requires Sender(x) !in schedule && Run(p, msgs, schedule).Some?
    ensures x < |Run(p, msgs, schedule).value.ss| && Run(p, msgs, schedule).value.ss[x] == SAsleep(true)
    decreases |schedule|
  {
    if schedule != [] {
      assert schedule[0] in schedule;
      SenderLeft(p, msgs, schedule[0], x);
      SignalledWaits(Next(p, msgs, schedule[0]).value, msgs, schedule[1..], x);
    }
  }

  // MAIN: as long as a sender waits unsignalled, so does every sender that began
  // to wait after it, whatever the others do.
  lemma {:induction false} SendersInOrder(p: Port, msgs: seq<int>, schedule: seq<Actor>, x: nat, y: nat)
    requires Inv(p, msgs) && Ahead(p.sQueue, x, y) && Sender(x) !in schedule && Run(p, msgs, schedule).Some?
    ensures var p' := Run(p, msgs, schedule).value;
      && x < |p'.ss| && y < |p'.ss|
      && (p'.ss[x] == SAsleep(false) ==> p'.ss[y] == SAsleep(false))
    decreases |schedule|
  {
    assert x in p.sQueue && y in p.sQueue;
    if schedule != [] {
      var p' := Next(p, msgs, schedule[0]).value;
      assert schedule[0] in schedule;
      NextKeeps(p, msgs, schedule[0]);
      SenderLeft(p, msgs, schedule[0], x);
      if p'.ss[x] == SAsleep(true) {
        SignalledWaits(p', msgs, schedule[1..], x);
        RunKeeps(p', msgs, schedule[1..]);
      } else {
        SQueues(p, msgs, schedule[0]);
        StillAhead(p.sQueue, p'.sQueue, x, y);
        SendersInOrder(p', msgs, schedule[1..], x, y);
      }
    }
  }

  // ------------------------------------------------------------------ receivers

  lemma RQueues(p: Port, msgs: seq<int>, who: Actor)
    requires Next(p, msgs, who).Some?
    ensures Queues(p.rQueue, Next(p, msgs, who).value.rQueue)
  {
    match who
    case Sender(i) => assert Queues(p.rQueue, SStep(p, i, msgs[i]).value.rQueue);
    case Receiver(j) => assert Queues(p.rQueue, RStep(p, j).value.rQueue);
  }

  lemma ReceiverLeft(p: Port, msgs: seq<int>, who: Actor, x: nat)
    requires Next(p, msgs, who).Some? && who != Receiver(x) && x < |p.rs|
    ensures var p' := Next(p, msgs, who).value;
      x < |p'.rs| && (p'.rs[x] == p.rs[x] || p'.rs[x] == RAsleep(true))
  {
    match who
    case Sender(i) =>
    case Receiver(j) => assert RStep(p, j).value.rs == p.rs[j := RStep(p, j).value.rs[j]];
  }

  lemma {:induction false} SignalledReceiverWaits(p: Port, msgs: seq<int>, schedule: seq<Actor>, x: nat)
    requires x < |p.rs| && p.rs[x] == RAsleep(true)
    requires Receiver(x) !in schedule && Run(p, msgs, schedule).Some?
    ensures x < |Run(p, msgs, schedule).value.rs| && Run(p, msgs, schedule).value.rs[x] == RAsleep(true)
    decreases |schedule|
  {
    if schedule != [] {
      assert schedule[0] in schedule;
      ReceiverLeft(p, msgs, schedule[0], x);
      SignalledReceiverWaits(Next(p, msgs, schedule[0]).value, msgs, schedule[1..], x);
    }
  }

  // MAIN: and the same for receivers.
  lemma {:induction false} ReceiversInOrder(p: Port, msgs: seq<int>, schedule: seq<Actor>, x: nat, y: nat)
    requires Inv(p, msgs) && Ahead(p.rQueue, x, y) && Receiver(x) !in schedule && Run(p, msgs, schedule).Some?
    ensures var p' := Run(p, msgs, schedule).value;
      && x < |p'.rs| && y < |p'.rs|
      && (p'.rs[x] == RAsleep(false) ==> p'.rs[y] == RAsleep(false))
    decreases |schedule|
  {
    assert x in p.rQueue && y in p.rQueue;
    if schedule != [] {
      var p' := Next(p, msgs, schedule[0]).value;
      assert schedule[0] in schedule;
      NextKeeps(p, msgs, schedule[0]);
      ReceiverLeft(p, msgs, schedule[0], x);
      if p'.rs[x] == RAsleep(true) {
        SignalledReceiverWaits(p', msgs, schedule[1..], x);
        RunKeeps(p', msgs, schedule[1..]);
      } else {
        RQueues(p, msgs, schedule[0]);
        StillAhead(p.rQueue, p'.rQueue, x, y);
        ReceiversInOrder(p', msgs, schedule[1..], x, y);
      }
    }
  }
}
