// Safety, the result, and progress of the systolic program under every schedule.

module SystolicProofs {
  import opened Basics
  import opened Systolic

  // ----------------------------------------- messages that passed each channel

  // How many values a processor has received from above and from the left, and
  // sent right and down.
  function Ups(c: Cell): nat {
    c.round + B(!c.pc.RecvUp?)
  }

  function Lefts(c: Cell): nat {
    c.round + B(!c.pc.RecvUp? && !c.pc.RecvLeft?)
  }

  function Rights(c: Cell): nat {
    c.round + B(!c.pc.RecvUp? && !c.pc.RecvLeft? && !c.pc.SendRight?)
  }

  function Downs(c: Cell): nat {
    c.round + B(c.pc.Accumulate? || c.pc.WriteOutput? || c.pc.Done?)
  }

  ghost predicate Whole(s: Net, n: nat) {
    && (forall p :: p in s.cells <==> p.i < n && p.j < n)
    && |s.cols| == n && |s.rows| == n
  }

  // A synchronous channel holds nothing: what was sent was received.
  ghost predicate AboveAgrees(s: Net, n: nat, p: Pos)
    requires Whole(s, n) && p in s.cells
  {
    if p.i == 0 then s.cols[p.j] == Ups(s.cells[p])
    else
      Downs(s.cells[Pos(p.i - 1, p.j)]) == Ups(s.cells[p])
  }

  ghost predicate LeftAgrees(s: Net, n: nat, p: Pos)
    requires Whole(s, n) && p in s.cells
  {
    if p.j == 0 then s.rows[p.i] == Lefts(s.cells[p])
    else
      Rights(s.cells[Pos(p.i, p.j - 1)]) == Lefts(s.cells[p])
  }

  ghost predicate Balanced(s: Net, n: nat) {
    && Whole(s, n)
    && (forall p {:trigger AboveAgrees(s, n, p)} :: p in s.cells ==> AboveAgrees(s, n, p))
    && (forall p {:trigger LeftAgrees(s, n, p)} :: p in s.cells ==> LeftAgrees(s, n, p))
  }

  lemma StartBalanced(n: nat)
    ensures Balanced(Start(n), n)
  {
  }

  lemma DownBalanced(s: Net, a: Matrix, n: nat, p: Pos)
    requires Balanced(s, n) && NextDown(s, a, p).Some?
    ensures Balanced(NextDown(s, a, p).value, n)
  {
    var s' := NextDown(s, a, p).value;
    assert Whole(s', n);
    forall o | o in s'.cells
      ensures AboveAgrees(s', n, o) && LeftAgrees(s', n, o)
    {
      assert AboveAgrees(s, n, o) && LeftAgrees(s, n, o);
    }
  }

  lemma AcrossBalanced(s: Net, a: Matrix, b: Matrix, n: nat, p: Pos)
    requires Balanced(s, n) && NextAcross(s, a, b, p).Some?
    ensures Balanced(NextAcross(s, a, b, p).value, n)
  {
    var s' := NextAcross(s, a, b, p).value;
    assert Whole(s', n);
    forall o | o in s'.cells
      ensures AboveAgrees(s', n, o) && LeftAgrees(s', n, o)
    {
      assert AboveAgrees(s, n, o) && LeftAgrees(s, n, o);
    }
  }

  lemma OwnBalanced(s: Net, n: nat, p: Pos)
    requires Balanced(s, n) && NextOwn(s, n, p).Some?
    ensures Balanced(NextOwn(s, n, p).value, n)
  {
    var s' := NextOwn(s, n, p).value;
    assert Whole(s', n);
    forall o | o in s'.cells
      ensures AboveAgrees(s', n, o) && LeftAgrees(s', n, o)
    {
      assert AboveAgrees(s, n, o) && LeftAgrees(s, n, o);
    }
  }

  // ------------------------------------------------ what a processor has seen

  // The number in in1, and every one before it, in the first row; likewise the
  // first column.  Nothing is assumed about the entries.
  ghost predicate SeenAbove(c: Cell, a: Matrix, j: nat) {
    && (!c.pc.RecvUp? ==> c.in1 == FromAbove(a, c.round, j))
    && (forall m: nat :: m < c.round ==> FromAbove(a, m, j) != EOD)
  }

  ghost predicate SeenLeft(c: Cell, b: Matrix, i: nat) {
    && (!c.pc.RecvUp? && !c.pc.RecvLeft? ==> c.in2 == FromLeft(b, i, c.round))
    && (forall m: nat :: m < c.round ==> FromLeft(b, i, m) != EOD)
  }

  // The branch a processor has taken, and what it has written out.
  ghost predicate Branch(c: Cell, output: map<Pos, int>, p: Pos) {
    && (c.pc.Accumulate? ==> !Ended(c))
    && (c.pc.WriteOutput? || c.pc.Done? ==> Ended(c))
    && (p in output <==> c.pc.Done?)
    && (c.pc.Done? ==> output[p] == c.storage)
  }

  ghost predicate Sees(s: Net, a: Matrix, b: Matrix, p: Pos)
    requires p in s.cells
  {
    && Branch(s.cells[p], s.output, p)
    && (p.i == 0 ==> SeenAbove(s.cells[p], a, p.j))
    && (p.j == 0 ==> SeenLeft(s.cells[p], b, p.i))
  }

  ghost predicate Readers(s: Net, q: nat) {
    && (forall j :: 0 <= j < |s.cols| ==> s.cols[j] <= q + 1)
    && (forall i :: 0 <= i < |s.rows| ==> s.rows[i] <= q + 1)
  }

  ghost predicate Inv(s: Net, a: Matrix, b: Matrix, n: nat, q: nat) {
    && Balanced(s, n) && Readers(s, q)
    && (forall p {:trigger Sees(s, a, b, p)} :: p in s.cells ==> Sees(s, a, b, p))
  }

  lemma StartInv(a: Matrix, b: Matrix, n: nat, q: nat)
    ensures Inv(Start(n), a, b, n, q)
  {
    StartBalanced(n);
  }

  // Only the processors that take part in a step change, and they keep Sees.
  lemma DownSees(s: Net, a: Matrix, b: Matrix, n: nat, q: nat, p: Pos)
    requires Inv(s, a, b, n, q) && |a| == q && NextDown(s, a, p).Some?
    ensures Inv(NextDown(s, a, p).value, a, b, n, q)
  {
    var s' := NextDown(s, a, p).value;
    DownBalanced(s, a, n, p);
    assert AboveAgrees(s, n, p);
    forall o | o in s'.cells
      ensures Sees(s', a, b, o)
    {
      assert Sees(s, a, b, o);
    }
  }

  lemma AcrossSees(s: Net, a: Matrix, b: Matrix, n: nat, q: nat, p: Pos)
    requires Inv(s, a, b, n, q) && |a| == q && NextAcross(s, a, b, p).Some?
    ensures Inv(NextAcross(s, a, b, p).value, a, b, n, q)
  {
    var s' := NextAcross(s, a, b, p).value;
    AcrossBalanced(s, a, b, n, p);
    assert LeftAgrees(s, n, p);
    forall o | o in s'.cells
      ensures Sees(s', a, b, o)
    {
      assert Sees(s, a, b, o);
    }
  }

  lemma OwnSees(s: Net, a: Matrix, b: Matrix, n: nat, q: nat, p: Pos)
    requires Inv(s, a, b, n, q) && NextOwn(s, n, p).Some?
    ensures Inv(NextOwn(s, n, p).value, a, b, n, q)
  {
    var s' := NextOwn(s, n, p).value;
    OwnBalanced(s, n, p);
    forall o | o in s'.cells
      ensures Sees(s', a, b, o)
    {
      assert Sees(s, a, b, o);
    }
  }

  lemma NextInv(s: Net, a: Matrix, b: Matrix, n: nat, q: nat, e: Event)
    requires Inv(s, a, b, n, q) && |a| == q && Next(s, a, b, n, e).Some?
    ensures Inv(Next(s, a, b, n, e).value, a, b, n, q)
  {
    match e
    case Down(p) => DownSees(s, a, b, n, q, p);
    case Across(p) => AcrossSees(s, a, b, n, q, p);
    case Own(p) => OwnSees(s, a, b, n, q, p);
  }

  // ------------------------------------------------------- the sum in storage

  // After k pairs a processor holds the sum of the first k products, and the
  // pair in hand is the k-th.
  ghost predicate Holds(c: Cell, a: Matrix, b: Matrix, q: nat, p: Pos) {
    && c.round <= q
    && (!c.pc.RecvUp? ==> c.in1 == FromAbove(a, c.round, p.j))
    && (!c.pc.RecvUp? && !c.pc.RecvLeft? ==> c.in2 == FromLeft(b, p.i, c.round))
    && c.storage == Dot(a, b, p.i, p.j, c.round)
  }

  ghost predicate AllHold(s: Net, a: Matrix, b: Matrix, q: nat) {
    forall p {:trigger Holds(s.cells[p], a, b, q, p)} :: p in s.cells ==> Holds(s.cells[p], a, b, q, p)
  }

  // In a matrix without -1 a processor meets the end marker in round q only,
  // and then on both sides.
  lemma EndedMeansLast(c: Cell, a: Matrix, b: Matrix, n: nat, q: nat, p: Pos)
    requires Shaped(a, b, n, q) && NoMarker(a, b) && p.i < n && p.j < n
    requires Holds(c, a, b, q, p) && !c.pc.RecvUp? && !c.pc.RecvLeft?
    ensures Ended(c) <==> c.round == q
    ensures c.round == q ==> c.in1 == c.in2 == EOD
  {
    if c.round < q {
      assert FromAbove(a, c.round, p.j) == a[c.round][p.j];
      assert FromLeft(b, p.i, c.round) == b[p.i][c.round];
    }
  }

  lemma DownHolds(s: Net, a: Matrix, b: Matrix, n: nat, q: nat, p: Pos)
    requires Shaped(a, b, n, q) && NoMarker(a, b) && Inv(s, a, b, n, q) && AllHold(s, a, b, q)
    requires NextDown(s, a, p).Some?
    ensures AllHold(NextDown(s, a, p).value, a, b, q)
  {
    var s' := NextDown(s, a, p).value;
    assert AboveAgrees(s, n, p);
    assert Holds(s.cells[p], a, b, q, p);
    if p.i > 0 {
      var up := Pos(p.i - 1, p.j);
      assert Holds(s.cells[up], a, b, q, up);
      EndedMeansLast(s.cells[up], a, b, n, q, up);
    }
    forall o | o in s'.cells
      ensures Holds(s'.cells[o], a, b, q, o)
    {
      assert Holds(s.cells[o], a, b, q, o);
    }
  }

  lemma AcrossHolds(s: Net, a: Matrix, b: Matrix, n: nat, q: nat, p: Pos)
    requires Shaped(a, b, n, q) && NoMarker(a, b) && Inv(s, a, b, n, q) && AllHold(s, a, b, q)
    requires NextAcross(s, a, b, p).Some?
    ensures AllHold(NextAcross(s, a, b, p).value, a, b, q)
  {
    var s' := NextAcross(s, a, b, p).value;
    assert LeftAgrees(s, n, p);
    assert Holds(s.cells[p], a, b, q, p);
    if p.j > 0 {
      var left := Pos(p.i, p.j - 1);
      assert Holds(s.cells[left], a, b, q, left);
      EndedMeansLast(s.cells[left], a, b, n, q, left);
    }
    forall o | o in s'.cells
      ensures Holds(s'.cells[o], a, b, q, o)
    {
      assert Holds(s.cells[o], a, b, q, o);
    }
  }

  lemma OwnHolds(s: Net, a: Matrix, b: Matrix, n: nat, q: nat, p: Pos)
    requires Shaped(a, b, n, q) && NoMarker(a, b) && Inv(s, a, b, n, q) && AllHold(s, a, b, q)
    requires NextOwn(s, n, p).Some?
    ensures AllHold(NextOwn(s, n, p).value, a, b, q)
  {
    var s' := NextOwn(s, n, p).value;
    var c := s.cells[p];
    assert Holds(c, a, b, q, p);
    assert Sees(s, a, b, p);
    if !c.pc.RecvUp? && !c.pc.RecvLeft? {
      EndedMeansLast(c, a, b, n, q, p);
    }
    forall o | o in s'.cells
      ensures Holds(s'.cells[o], a, b, q, o)
    {
      assert Holds(s.cells[o], a, b, q, o);
    }
  }

  lemma NextHolds(s: Net, a: Matrix, b: Matrix, n: nat, q: nat, e: Event)
    requires Shaped(a, b, n, q) && NoMarker(a, b) && Inv(s, a, b, n, q) && AllHold(s, a, b, q)
    requires Next(s, a, b, n, e).Some?
    ensures AllHold(Next(s, a, b, n, e).value, a, b, q)
  {
    match e
    case Down(p) => DownHolds(s, a, b, n, q, p);
    case Across(p) => AcrossHolds(s, a, b, n, q, p);
    case Own(p) => OwnHolds(s, a, b, n, q, p);
  }

  // ------------------------------------------------------------ every schedule

  lemma {:induction false} RunInv(s: Net, a: Matrix, b: Matrix, n: nat, q: nat, events: seq<Event>)
    requires Inv(s, a, b, n, q) && |a| == q && Run(s, a, b, n, events).Some?
    ensures Inv(Run(s, a, b, n, events).value, a, b, n, q)
    ensures Shaped(a, b, n, q) && NoMarker(a, b) && AllHold(s, a, b, q) ==>
      AllHold(Run(s, a, b, n, events).value, a, b, q)
    decreases |events|
  {
    if events != [] {
      NextInv(s, a, b, n, q, events[0]);
      if Shaped(a, b, n, q) && NoMarker(a, b) && AllHold(s, a, b, q) {
        NextHolds(s, a, b, n, q, events[0]);
      }
      RunInv(Next(s, a, b, n, events[0]).value, a, b, n, q, events[1..]);
    }
  }

  lemma ReachableInv(s: Net, a: Matrix, b: Matrix, n: nat, q: nat)
    requires Shaped(a, b, n, q) && Reachable(s, a, b, n)
    ensures Inv(s, a, b, n, q) && (NoMarker(a, b) ==> AllHold(s, a, b, q))
  {
    var events :| Run(Start(n), a, b, n, events) == Some(s);
    StartInv(a, b, n, q);
    RunInv(Start(n), a, b, n, q, events);
  }

  // MAIN: under every schedule, after k pairs processor (i, j) holds the sum
  // over m < k of b[i][m] * a[m][j].
  lemma PartialSums(s: Net, a: Matrix, b: Matrix, n: nat, q: nat, p: Pos)
    requires Shaped(a, b, n, q) && NoMarker(a, b) && Reachable(s, a, b, n) && p.i < n && p.j < n
    ensures p in s.cells && s.cells[p].round <= q
    ensures s.cells[p].storage == Dot(a, b, p.i, p.j, s.cells[p].round)
  {
    ReachableInv(s, a, b, n, q);
    assert Holds(s.cells[p], a, b, q, p);
  }

  // MAIN: whatever a processor writes out is its entry of the product b * a.
  lemma OutputIsProduct(s: Net, a: Matrix, b: Matrix, n: nat, q: nat, p: Pos)
    requires Shaped(a, b, n, q) && NoMarker(a, b) && Reachable(s, a, b, n) && p.i < n && p.j < n
    ensures p in s.cells && (p in s.output <==> s.cells[p].pc == Done)
    ensures p in s.output ==> s.output[p] == Dot(a, b, p.i, p.j, q)
  {
    ReachableInv(s, a, b, n, q);
    assert Sees(s, a, b, p);
    assert Holds(s.cells[p], a, b, q, p);
    if s.cells[p].pc == Done {
      EndedMeansLast(s.cells[p], a, b, n, q, p);
    }
  }

  // ------------------------------------------------------------------ progress

  // When a processor's next channel operation is due in a timetable where every
  // rendezvous has one time and each thread meets its own in increasing order.
  function Due(c: Cell, p: Pos): nat {
    4 * c.round + 3 * p.i + p.j
      + match c.pc case RecvUp => 0 case RecvLeft => 1 case SendRight => 2 case _ => 3
  }

  ghost predicate Sound(s: Net, a: Matrix, b: Matrix, n: nat, q: nat) {
    Shaped(a, b, n, q) && NoMarker(a, b) && Inv(s, a, b, n, q) && AllHold(s, a, b, q)
  }

  // Following whom a blocked processor waits for goes back in the timetable,
  // so it ends at a step that can be taken.
  lemma {:induction false} Unblocked(s: Net, a: Matrix, b: Matrix, n: nat, q: nat, p: Pos) returns (e: Event)
    requires Sound(s, a, b, n, q) && p in s.cells && s.cells[p].pc != Done
    ensures Next(s, a, b, n, e).Some?
    decreases Due(s.cells[p], p)
  {
    var c := s.cells[p];
    assert Holds(c, a, b, q, p);
    match c.pc
    case RecvUp =>
      assert AboveAgrees(s, n, p);
      if p.i == 0 {
        e := Down(p);
      } else {
        DoneIsLast(s, a, b, n, q, Pos(p.i - 1, p.j));
        e := WaitFor(s, a, b, n, q, p, Pos(p.i - 1, p.j), Down(p));
      }
    case RecvLeft =>
      assert LeftAgrees(s, n, p);
      if p.j == 0 {
        e := Across(p);
      } else {
        DoneIsLast(s, a, b, n, q, Pos(p.i, p.j - 1));
        e := WaitFor(s, a, b, n, q, p, Pos(p.i, p.j - 1), Across(p));
      }
    case SendRight =>
      if p.j + 1 < n {
        assert LeftAgrees(s, n, Pos(p.i, p.j + 1));
        DoneIsLast(s, a, b, n, q, Pos(p.i, p.j + 1));
        e := WaitFor(s, a, b, n, q, p, Pos(p.i, p.j + 1), Across(Pos(p.i, p.j + 1)));
      } else {
        e := Own(p);
      }
    case SendDown =>
      if p.i + 1 < n {
        assert AboveAgrees(s, n, Pos(p.i + 1, p.j));
        DoneIsLast(s, a, b, n, q, Pos(p.i + 1, p.j));
        e := WaitFor(s, a, b, n, q, p, Pos(p.i + 1, p.j), Down(Pos(p.i + 1, p.j)));
      } else {
        e := Own(p);
      }
    case _ => e := Own(p);
  }

  lemma DoneIsLast(s: Net, a: Matrix, b: Matrix, n: nat, q: nat, p: Pos)
    requires Sound(s, a, b, n, q) && p in s.cells
    ensures s.cells[p].pc.Done? || s.cells[p].pc.WriteOutput? ==> s.cells[p].round == q
  {
    assert Sees(s, a, b, p);
    assert Holds(s.cells[p], a, b, q, p);
    if s.cells[p].pc.Done? || s.cells[p].pc.WriteOutput? {
      EndedMeansLast(s.cells[p], a, b, n, q, p);
    }
  }

  // p waits for its partner o: either both are ready, or o is behind.
  lemma {:induction false} WaitFor(s: Net, a: Matrix, b: Matrix, n: nat, q: nat, p: Pos, o: Pos, meet: Event) returns (e: Event)
    requires Sound(s, a, b, n, q) && p in s.cells && o in s.cells && s.cells[p].pc != Done
    requires Next(s, a, b, n, meet).Some? || (Due(s.cells[o], o) < Due(s.cells[p], p) && s.cells[o].pc != Done)
    ensures Next(s, a, b, n, e).Some?
    decreases Due(s.cells[p], p), 0
  {
    if Next(s, a, b, n, meet).Some? {
      e := meet;
    } else {
      e := Unblocked(s, a, b, n, q, o);
    }
  }

  lemma ReaderUnblocked(s: Net, a: Matrix, b: Matrix, n: nat, q: nat) returns (e: Event)
    requires Sound(s, a, b, n, q) && !Finished(s, n, q)
    ensures Next(s, a, b, n, e).Some?
  {
    if p :| p in s.cells && s.cells[p].pc != Done {
      e := Unblocked(s, a, b, n, q, p);
    } else if j: nat :| j < n && s.cols[j] != q + 1 {
      var p := Pos(0, j);
      assert AboveAgrees(s, n, p);
      DoneIsLast(s, a, b, n, q, p);
      assert false;
    } else {
      var i: nat :| i < n && s.rows[i] != q + 1;
      var p := Pos(i, 0);
      assert LeftAgrees(s, n, p);
      DoneIsLast(s, a, b, n, q, p);
      assert false;
    }
  }

  // MAIN: before every thread has finished, the network cannot deadlock.
  lemma NeverStuck(s: Net, a: Matrix, b: Matrix, n: nat, q: nat)
    requires Shaped(a, b, n, q) && NoMarker(a, b) && Reachable(s, a, b, n)
    ensures Finished(s, n, q) || exists e :: Next(s, a, b, n, e).Some?
  {
    ReachableInv(s, a, b, n, q);
    if !Finished(s, n, q) {
      var e := ReaderUnblocked(s, a, b, n, q);
    }
  }

  // --------------------------------------------------------------- termination

  // Steps a processor has taken.
  function Work(c: Cell): nat {
    5 * c.round
      + match c.pc
        case RecvUp => 0 case RecvLeft => 1 case SendRight => 2 case SendDown => 3
        case Accumulate => 4 case WriteOutput => 4 case Done => 5
  }

  function WorkAt(s: Net, p: Pos): nat {
    if p in s.cells then Work(s.cells[p]) else 0
  }

  function RowWork(s: Net, i: nat, j: nat): nat {
    if j == 0 then 0 else RowWork(s, i, j - 1) + WorkAt(s, Pos(i, j - 1))
  }

  function AllWork(s: Net, n: nat, i: nat): nat
    decreases i
  {
    if i == 0 then 0 else AllWork(s, n, i - 1) + RowWork(s, i - 1, n)
  }

  ghost predicate Grew(s: Net, s': Net, p: Pos) {
    && WorkAt(s', p) > WorkAt(s, p)
    && (forall o :: WorkAt(s', o) >= WorkAt(s, o))
  }

  lemma {:induction false} RowGrows(s: Net, s': Net, p: Pos, i: nat, j: nat)
    requires Grew(s, s', p)
    ensures RowWork(s', i, j) >= RowWork(s, i, j) + B(p.i == i && p.j < j)
    decreases j
  {
    if j > 0 {
      RowGrows(s, s', p, i, j - 1);
      assert WorkAt(s', Pos(i, j - 1)) >= WorkAt(s, Pos(i, j - 1));
    }
  }

  lemma {:induction false} AllGrows(s: Net, s': Net, p: Pos, n: nat, i: nat)
    requires Grew(s, s', p) && p.j < n
    ensures AllWork(s', n, i) >= AllWork(s, n, i) + B(p.i < i)
    decreases i
  {
    if i > 0 {
      AllGrows(s, s', p, n, i - 1);
      RowGrows(s, s', p, i - 1, n);
    }
  }

  function Place(e: Event): Pos {
    match e case Down(p) => p case Across(p) => p case Own(p) => p
  }

  lemma NextGrows(s: Net, a: Matrix, b: Matrix, n: nat, e: Event)
    requires Whole(s, n) && Next(s, a, b, n, e).Some?
    ensures Grew(s, Next(s, a, b, n, e).value, Place(e)) && Place(e).i < n && Place(e).j < n
  {
  }

  // A processor receives at most what its reader sent.
  lemma {:induction false} UpsBound(s: Net, a: Matrix, b: Matrix, n: nat, q: nat, p: Pos)
    requires Inv(s, a, b, n, q) && p in s.cells
    ensures Ups(s.cells[p]) <= q + 1
    decreases p.i
  {
    assert AboveAgrees(s, n, p);
    if p.i > 0 {
      UpsBound(s, a, b, n, q, Pos(p.i - 1, p.j));
    }
  }

  lemma OneMore(k: int, c: int)
    ensures (k + 1) * c == k * c + c
  {
  }

  lemma {:induction false} RowBound(s: Net, a: Matrix, b: Matrix, n: nat, q: nat, i: nat, j: nat, most: nat)
    requires Inv(s, a, b, n, q) && i < n && j <= n && most == 5 * q + 5
    ensures RowWork(s, i, j) <= j * most
    decreases j
  {
    if j > 0 {
      UpsBound(s, a, b, n, q, Pos(i, j - 1));
      RowBound(s, a, b, n, q, i, j - 1, most);
      OneMore(j - 1, most);
    }
  }

  lemma {:induction false} AllBound(s: Net, a: Matrix, b: Matrix, n: nat, q: nat, i: nat, most: nat, row: nat)
    requires Inv(s, a, b, n, q) && i <= n && most == 5 * q + 5 && row == n * most
    ensures AllWork(s, n, i) <= i * row
    decreases i
  {
    if i > 0 {
      RowBound(s, a, b, n, q, i - 1, n, most);
      AllBound(s, a, b, n, q, i - 1, most, row);
      OneMore(i - 1, row);
    }
  }

  lemma {:induction false} RunGrows(s: Net, a: Matrix, b: Matrix, n: nat, q: nat, events: seq<Event>)
    requires Inv(s, a, b, n, q) && |a| == q && Run(s, a, b, n, events).Some?
    ensures AllWork(s, n, n) + |events| <= AllWork(Run(s, a, b, n, events).value, n, n)
    decreases |events|
  {
    if events != [] {
      var s' := Next(s, a, b, n, events[0]).value;
      NextGrows(s, a, b, n, events[0]);
      AllGrows(s, s', Place(events[0]), n, n);
      NextInv(s, a, b, n, q, events[0]);
      RunGrows(s', a, b, n, q, events[1..]);
    }
  }

  // A bound on the steps of any run.
  function MostSteps(n: nat, q: nat): nat {
    n * (n * (5 * q + 5))
  }

  lemma WorkBound(s: Net, a: Matrix, b: Matrix, n: nat, q: nat)
    requires Inv(s, a, b, n, q)
    ensures AllWork(s, n, n) <= MostSteps(n, q)
  {
    AllBound(s, a, b, n, q, n, 5 * q + 5, n * (5 * q + 5));
  }

  // No run is longer than n * n * (5q + 5) steps, whatever the entries are.
  lemma RunsAreShort(a: Matrix, b: Matrix, n: nat, q: nat, events: seq<Event>)
    requires Shaped(a, b, n, q) && Run(Start(n), a, b, n, events).Some?
    ensures |events| <= MostSteps(n, q)
  {
    StartInv(a, b, n, q);
    RunGrows(Start(n), a, b, n, q, events);
    RunInv(Start(n), a, b, n, q, events);
    WorkBound(Run(Start(n), a, b, n, events).value, a, b, n, q);
  }

  // --------------------------------------------------------------- completion

  lemma {:induction false} RunMore(s: Net, a: Matrix, b: Matrix, n: nat, events: seq<Event>, e: Event)
    requires Run(s, a, b, n, events).Some? && Next(Run(s, a, b, n, events).value, a, b, n, e).Some?
    ensures Run(s, a, b, n, events + [e]) == Next(Run(s, a, b, n, events).value, a, b, n, e)
    decreases |events|
  {
    if events == [] {
      assert Run(Next(s, a, b, n, e).value, a, b, n, []) == Next(s, a, b, n, e);
      assert (events + [e])[1..] == [];
    } else {
      RunMore(Next(s, a, b, n, events[0]).value, a, b, n, events[1..], e);
      assert (events + [e])[1..] == events[1..] + [e];
    }
  }

  // Any run can be carried on until every thread has finished.
  lemma {:induction false} Completes(a: Matrix, b: Matrix, n: nat, q: nat, events: seq<Event>) returns (all: seq<Event>)
    requires Shaped(a, b, n, q) && NoMarker(a, b) && Run(Start(n), a, b, n, events).Some?
    ensures events <= all && Run(Start(n), a, b, n, all).Some?
    ensures Finished(Run(Start(n), a, b, n, all).value, n, q)
    decreases MostSteps(n, q) - |events|
  {
    var s := Run(Start(n), a, b, n, events).value;
    if Finished(s, n, q) {
      all := events;
    } else {
      ReachableInv(s, a, b, n, q);
      var e := ReaderUnblocked(s, a, b, n, q);
      RunMore(Start(n), a, b, n, events, e);
      RunsAreShort(a, b, n, q, events + [e]);
      all := Completes(a, b, n, q, events + [e]);
    }
  }

  // If all threads finish, then no reader met the marker among its numbers.
  lemma FinishedMeansNoMarker(s: Net, a: Matrix, b: Matrix, n: nat, q: nat)
    requires Shaped(a, b, n, q) && Reachable(s, a, b, n) && Finished(s, n, q)
    ensures NoMarker(a, b)
  {
    ReachableInv(s, a, b, n, q);
    forall k: nat, j: nat | k < q && j < n
      ensures a[k][j] != EOD
    {
      var p := Pos(0, j);
      assert AboveAgrees(s, n, p) && Sees(s, a, b, p);
      assert FromAbove(a, k, j) == a[k][j];
    }
    forall i: nat, k: nat | i < n && k < q
      ensures b[i][k] != EOD
    {
      var p := Pos(i, 0);
      assert LeftAgrees(s, n, p) && Sees(s, a, b, p);
      assert FromLeft(b, i, k) == b[i][k];
    }
  }

  // MAIN: the program can run to its end exactly when no entry is -1; then
  // every run can be carried on to the end, and no run goes on for ever.
  lemma FinishesIffNoMarker(a: Matrix, b: Matrix, n: nat, q: nat)
    requires Shaped(a, b, n, q)
    ensures (exists s :: Reachable(s, a, b, n) && Finished(s, n, q)) <==> NoMarker(a, b)
  {
    if s :| Reachable(s, a, b, n) && Finished(s, n, q) {
      FinishedMeansNoMarker(s, a, b, n, q);
    }
    if NoMarker(a, b) {
      var all := Completes(a, b, n, q, []);
      var s := Run(Start(n), a, b, n, all).value;
      assert Reachable(s, a, b, n) && Finished(s, n, q);
    }
  }

  // MAIN: a run that cannot be carried on has written the whole product b * a.
  lemma EndsWithProduct(s: Net, a: Matrix, b: Matrix, n: nat, q: nat)
    requires Shaped(a, b, n, q) && NoMarker(a, b) && Reachable(s, a, b, n)
    requires forall e :: Next(s, a, b, n, e).None?
    ensures Finished(s, n, q)
    ensures forall i: nat, j: nat :: i < n && j < n ==>
      Pos(i, j) in s.output && s.output[Pos(i, j)] == Dot(a, b, i, j, q)
  {
    NeverStuck(s, a, b, n, q);
    forall i: nat, j: nat | i < n && j < n
      ensures Pos(i, j) in s.output && s.output[Pos(i, j)] == Dot(a, b, i, j, q)
    {
      OutputIsProduct(s, a, b, n, q, Pos(i, j));
    }
  }

  // A finished network takes no further step.
  lemma FinishedRests(s: Net, a: Matrix, b: Matrix, n: nat, q: nat, e: Event)
    requires Shaped(a, b, n, q) && Reachable(s, a, b, n) && Finished(s, n, q)
    ensures Next(s, a, b, n, e).None?
  {
    ReachableInv(s, a, b, n, q);
  }

  // The documentation promises a * b.

  // MAIN: for square matrices the program ends with a * b exactly when the two
  // products are equal.
  lemma OtherProductIff(s: Net, a: Matrix, b: Matrix, n: nat)
    requires Shaped(a, b, n, n) && NoMarker(a, b) && Reachable(s, a, b, n)
    requires forall e :: Next(s, a, b, n, e).None?
    ensures forall i: nat, j: nat :: i < n && j < n ==> Pos(i, j) in s.output
    ensures (forall i: nat, j: nat :: i < n && j < n ==> s.output[Pos(i, j)] == Dot(b, a, i, j, n))
        <==> (forall i: nat, j: nat :: i < n && j < n ==> Dot(a, b, i, j, n) == Dot(b, a, i, j, n))
  {
    EndsWithProduct(s, a, b, n, n);
    if forall i: nat, j: nat :: i < n && j < n ==> s.output[Pos(i, j)] == Dot(b, a, i, j, n) {
      forall i: nat, j: nat | i < n && j < n
        ensures Dot(a, b, i, j, n) == Dot(b, a, i, j, n)
      {
        assert s.output[Pos(i, j)] == Dot(b, a, i, j, n);
      }
    }
  }

  // There is a run to the end.
  lemma SomeEnd(a: Matrix, b: Matrix, n: nat, q: nat) returns (s: Net)
    requires Shaped(a, b, n, q) && NoMarker(a, b)
    ensures Reachable(s, a, b, n) && Finished(s, n, q)
    ensures forall i: nat, j: nat :: i < n && j < n ==> Pos(i, j) in s.output && s.output[Pos(i, j)] == Dot(a, b, i, j, q)
  {
    var all := Completes(a, b, n, q, []);
    s := Run(Start(n), a, b, n, all).value;
    assert Reachable(s, a, b, n);
    forall e
      ensures Next(s, a, b, n, e).None?
    {
      FinishedRests(s, a, b, n, q, e);
    }
    EndsWithProduct(s, a, b, n, q);
  }

  // One entry of each product of these two matrices.
  lemma TwoProducts(a: Matrix, b: Matrix)
    requires a == [[1, 1], [0, 1]] && b == [[1, 0], [1, 1]]
    ensures Dot(a, b, 0, 0, 2) == 1 && Dot(b, a, 0, 0, 2) == 2
  {
    assert Dot(a, b, 0, 0, 1) == 1 && Dot(b, a, 0, 0, 1) == 1;
  }

  // A run of the program that ends with another matrix than the one promised.
  lemma NotTheOtherProduct(a: Matrix, b: Matrix, n: nat) returns (s: Net)
    requires a == [[1, 1], [0, 1]] && b == [[1, 0], [1, 1]] && n == 2
    ensures Shaped(a, b, n, n) && NoMarker(a, b) && Reachable(s, a, b, n) && Finished(s, n, n)
    ensures Pos(0, 0) in s.output && s.output[Pos(0, 0)] != Dot(b, a, 0, 0, n)
  {
    s := SomeEnd(a, b, n, n);
    TwoProducts(a, b);
  }
}
