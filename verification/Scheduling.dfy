// The ready queue: threads wait in a list sorted by priority, smallest first.

module Scheduling {
  import opened Basics
  import opened Lists

  datatype Status = JustCreated | Running | Ready | Blocked

  class Thread {
    var status: Status
    var priority: nat

    constructor (priority: nat)
      ensures this.priority == priority && status == JustCreated
    {
      this.priority := priority;
      status := JustCreated;
    }

    method SetStatus(st: Status)
      modifies this`status
      ensures status == st
    {
      status := st;
    }
  }

  class Scheduler {
    const readyList: List<Thread>

    ghost predicate Valid()
      reads readyList, readyList.Repr
    {
      readyList.Valid()
    }

    // The waiting threads with the priorities they had when they became ready.
    ghost function Waiting(): seq<Keyed<Thread>>
      reads readyList
    {
      readyList.Contents()
    }

    constructor ()
      ensures Valid() && Waiting() == [] && fresh(readyList)
    {
      readyList := new List<Thread>();
    }

    method ReadyToRun(thread: Thread)
      requires Valid() && thread !in readyList.Repr
      modifies thread`status, readyList.Repr
      ensures Valid() && thread.status == Ready && fresh(readyList.Repr - old(readyList.Repr))
      ensures Waiting() == Inserted(old(Waiting()), Keyed(thread.priority, thread))
    {
      thread.SetStatus(Ready);
      readyList.SortedInsert(thread, thread.priority);
    }

    // None when no thread is ready.
    method FindNextToRun() returns (next: Option<Thread>)
      requires Valid()
      modifies readyList
      ensures Valid()
      ensures if old(Waiting()) == [] then next == None && Waiting() == []
              else next == Some(old(Waiting())[0].item) && Waiting() == old(Waiting())[1..]
    {
      if readyList.IsEmpty() {
        return None;
      }
      var removed := readyList.SortedRemove();
      return Some(removed.value.item);
    }
  }

  // ---------------------------------------------------------------------- runs

  // Threads numbered in the order in which they became ready.
  datatype Event = BecomeReady(priority: nat) | Dispatch

  // The queue after a run, and how many threads have become ready.
  datatype Queue = Queue(waiting: seq<Keyed<nat>>, arrived: nat)

  function Step(q: Queue, e: Event): Queue {
    match e
    case BecomeReady(priority) => Queue(Inserted(q.waiting, Keyed(priority, q.arrived)), q.arrived + 1)
    case Dispatch => if q.waiting == [] then q else q.(waiting := q.waiting[1..])
  }

  function Run(events: seq<Event>): Queue {
    if events == [] then Queue([], 0) else Step(Run(events[..|events| - 1]), events[|events| - 1])
  }

  // Waits before: a smaller priority number, or the same and ready earlier.
  predicate Before(a: Keyed<nat>, b: Keyed<nat>) {
    a.key < b.key || (a.key == b.key && a.item < b.item)
  }

  predicate InOrder(q: Queue) {
    && (forall i :: 0 <= i < |q.waiting| ==> q.waiting[i].item < q.arrived)
    && (forall i, j :: 0 <= i < j < |q.waiting| ==> Before(q.waiting[i], q.waiting[j]))
  }

  lemma StepInOrder(q: Queue, e: Event)
    requires InOrder(q)
    ensures InOrder(Step(q, e))
  {
    if e.BecomeReady? {
      var new_ := Keyed(e.priority, q.arrived);
      var p := Place(q.waiting, e.priority);
      var s := Step(q, e).waiting;
      forall i, j | 0 <= i < j < |s|
        ensures Before(s[i], s[j])
      {
        if i == p {
          assert p == j - 1 || Before(q.waiting[p], q.waiting[j - 1]);
        }
      }
    }
  }

  lemma {:induction false} RunInOrder(events: seq<Event>)
    ensures InOrder(Run(events))
    decreases |events|
  {
    if events != [] {
      RunInOrder(events[..|events| - 1]);
      StepInOrder(Run(events[..|events| - 1]), events[|events| - 1]);
    }
  }

  // MAIN: in every run the thread dispatched has the smallest stored priority
  // of all that wait, and among those became ready first.
  lemma DispatchesFirstOfSmallest(events: seq<Event>, k: nat)
    requires 0 < k < |Run(events).waiting|
    ensures Before(Run(events).waiting[0], Run(events).waiting[k])
  {
    RunInOrder(events);
  }

  // The numbers of the threads dispatched in a run, in order.
  function Dispatched(events: seq<Event>): seq<nat> {
    if events == [] then []
    else
      var before, waiting := Dispatched(events[..|events| - 1]), Run(events[..|events| - 1]).waiting;
      if events[|events| - 1] == Dispatch && waiting != [] then before + [waiting[0].item] else before
  }

  function Ids(waiting: seq<Keyed<nat>>): (s: seq<nat>)
    ensures |s| == |waiting|
  {
    seq(|waiting|, i requires 0 <= i < |waiting| => waiting[i].item)
  }

  function UpTo(n: nat): (s: seq<nat>)
    ensures |s| == n
  {
    seq(n, i => i)
  }

  lemma IdsInserted(waiting: seq<Keyed<nat>>, e: Keyed<nat>)
    ensures multiset(Ids(Inserted(waiting, e))) == multiset(Ids(waiting)) + multiset{e.item}
  {
    var p := Place(waiting, e.key);
    assert Ids(Inserted(waiting, e)) == Ids(waiting)[..p] + [e.item] + Ids(waiting)[p..];
    assert Ids(waiting) == Ids(waiting)[..p] + Ids(waiting)[p..];
  }

  predicate Accounts(dispatched: seq<nat>, q: Queue) {
    multiset(dispatched) + multiset(Ids(q.waiting)) == multiset(UpTo(q.arrived))
  }

  lemma ArrivalAccounts(dispatched: seq<nat>, q: Queue, priority: nat)
    requires Accounts(dispatched, q)
    ensures Accounts(dispatched, Step(q, BecomeReady(priority)))
  {
    IdsInserted(q.waiting, Keyed(priority, q.arrived));
    assert UpTo(q.arrived + 1) == UpTo(q.arrived) + [q.arrived];
  }

  lemma DispatchAccounts(dispatched: seq<nat>, q: Queue)
    requires Accounts(dispatched, q) && q.waiting != []
    ensures Accounts(dispatched + [q.waiting[0].item], Step(q, Dispatch))
  {
    assert Ids(q.waiting) == [q.waiting[0].item] + Ids(q.waiting[1..]);
  }

  lemma {:induction false} RunAccounts(events: seq<Event>)
    ensures Accounts(Dispatched(events), Run(events))
    decreases |events|
  {
    if events == [] {
      assert Ids([]) == [] && UpTo(0) == [];
    } else {
      var before, last := events[..|events| - 1], events[|events| - 1];
      RunAccounts(before);
      if last.BecomeReady? {
        ArrivalAccounts(Dispatched(before), Run(before), last.priority);
      } else if Run(before).waiting != [] {
        DispatchAccounts(Dispatched(before), Run(before));
      }
    }
  }

  // MAIN: no thread is lost and none is dispatched twice: over every run those
  // dispatched and those that wait are all that became ready, each once.
  lemma DispatchTakesOne(events: seq<Event>)
    ensures multiset(Dispatched(events)) + multiset(Ids(Run(events).waiting)) == multiset(UpTo(Run(events).arrived))
    ensures forall i, j :: 0 <= i < j < |Dispatched(events)| ==> Dispatched(events)[i] != Dispatched(events)[j]
  {
    RunAccounts(events);
    var d := Dispatched(events);
    forall i, j | 0 <= i < j < |d|
      ensures d[i] != d[j]
    {
      OnceIn(Run(events).arrived, d[i]);
      Twice(d, i, j);
    }
  }

  lemma {:induction false} OnceIn(n: nat, x: nat)
    ensures multiset(UpTo(n))[x] <= 1 && (x >= n ==> multiset(UpTo(n))[x] == 0)
    decreases n
  {
    if n > 0 {
      OnceIn(n - 1, x);
      assert UpTo(n) == UpTo(n - 1) + [n - 1];
    }
  }

  lemma Twice(s: seq<nat>, i: nat, j: nat)
    requires i < j < |s|
    ensures s[i] == s[j] ==> multiset(s)[s[i]] >= 2
  {
    assert s == s[..j] + [s[j]] + s[j + 1..];
    assert s[..j][i] in multiset(s[..j]);
  }

  // The priorities of the threads, in the order in which they became ready.
  function Arrivals(events: seq<Event>): seq<nat> {
    if events == [] then []
    else
      var before, last := Arrivals(events[..|events| - 1]), events[|events| - 1];
      if last.BecomeReady? then before + [last.priority] else before
  }

  ghost predicate KeysAre(waiting: seq<Keyed<nat>>, priorities: seq<nat>) {
    forall k :: 0 <= k < |waiting| ==> waiting[k].item < |priorities| && waiting[k].key == priorities[waiting[k].item]
  }

  lemma {:induction false} KeysAreArrivals(events: seq<Event>)
    ensures Run(events).arrived == |Arrivals(events)| && KeysAre(Run(events).waiting, Arrivals(events))
    decreases |events|
  {
    if events != [] {
      var before, last := events[..|events| - 1], events[|events| - 1];
      KeysAreArrivals(before);
      if last.BecomeReady? {
        var q, p := Run(before), Place(Run(before).waiting, last.priority);
        var s := Run(events).waiting;
        assert forall k :: 0 <= k < |s| ==>
          s[k] == if k < p then q.waiting[k] else if k == p then Keyed(last.priority, q.arrived) else q.waiting[k - 1];
      }
    }
  }

  // Those that became ready and were not dispatched wait.
  lemma NotDispatchedWaits(events: seq<Event>, u: nat) returns (k: nat)
    requires u < |Arrivals(events)| && u !in Dispatched(events)
    ensures k < |Run(events).waiting| && Run(events).waiting[k].item == u
  {
    RunAccounts(events);
    KeysAreArrivals(events);
    var waiting := Run(events).waiting;
    assert UpTo(|Arrivals(events)|)[u] == u;
    assert u in multiset(Dispatched(events)) + multiset(Ids(waiting));
    assert u in Ids(waiting);
    k :| 0 <= k < |waiting| && Ids(waiting)[k] == u;
  }

  // MAIN: a dispatch after any run takes, of the threads that became ready and
  // were not dispatched, the one with the smallest priority number, and of those
  // the one that became ready first; it takes none only if there is none.
  lemma DispatchesBest(events: seq<Event>, u: nat)
    requires u < |Arrivals(events)| && u !in Dispatched(events)
    ensures var p, x := Arrivals(events), Dispatched(events + [Dispatch]);
      && |x| == |Dispatched(events)| + 1 && x[..|x| - 1] == Dispatched(events)
      && var best := x[|x| - 1];
      && best < |p| && best !in Dispatched(events)
      && (p[best] < p[u] || (p[best] == p[u] && best <= u))
  {
    var k := NotDispatchedWaits(events, u);
    var waiting := Run(events).waiting;
    KeysAreArrivals(events);
    RunInOrder(events);
    assert (events + [Dispatch])[..|events|] == events;
    DispatchTakesOne(events + [Dispatch]);
    assert k > 0 ==> Before(waiting[0], waiting[k]);
  }
}
