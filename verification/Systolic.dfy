// The systolic matrix program: an n x n grid of processor threads joined by
// synchronous channels, fed by a reader thread per row and per column.  A step
// is one rendezvous, or one statement of one processor that no other thread
// can see.  The readers send q numbers each and then the end marker -1.

module Systolic {
  import opened Basics

  // One program counter per channel operation or assignment of the loop body.
  datatype Pc = RecvUp | RecvLeft | SendRight | SendDown | Accumulate | WriteOutput | Done

  // A processor thread.  round counts the pairs already added to storage; it
  // is history, no step tests it.
  datatype Cell = Cell(pc: Pc, in1: int, in2: int, storage: int, round: nat)

  datatype Pos = Pos(i: nat, j: nat)

  type Matrix = seq<seq<int>>

  const EOD := -1

  // cols[j] and rows[i] are how many numbers each reader has sent.
  datatype Net = Net(cells: map<Pos, Cell>, cols: seq<nat>, rows: seq<nat>, output: map<Pos, int>)

  // What main() reads: a has q rows of n numbers, b has n rows of q.  The
  // output array has q rows of q places and is written at n x n of them.
  predicate Shaped(a: Matrix, b: Matrix, n: nat, q: nat) {
    && 0 < n <= q
    && |a| == q && (forall k :: 0 <= k < q ==> |a[k]| == n)
    && |b| == n && (forall i :: 0 <= i < n ==> |b[i]| == q)
  }

  // The k-th number that column reader j sends, and that row reader i sends.
  function FromAbove(a: Matrix, k: nat, j: nat): int {
    if k < |a| && j < |a[k]| then a[k][j] else EOD
  }

  function FromLeft(b: Matrix, i: nat, k: nat): int {
    if i < |b| && k < |b[i]| then b[i][k] else EOD
  }

  function Start(n: nat): Net {
    Net(map p | p in Grid(n) :: Cell(RecvUp, -2, -2, 0, 0),
        seq(n, _ => 0), seq(n, _ => 0), map[])
  }

  function Grid(n: nat): set<Pos> {
    set i, j | 0 <= i < n && 0 <= j < n :: Pos(i, j)
  }

  // -------------------------------------------------------------- one processor

  predicate Ended(c: Cell) {
    c.in1 == EOD || c.in2 == EOD
  }

  // The end marker goes on in both directions, swapped; a number goes straight on.
  function ToRight(c: Cell): int {
    if Ended(c) then c.in1 else c.in2
  }

  function ToBelow(c: Cell): int {
    if Ended(c) then c.in2 else c.in1
  }

  function GotUp(c: Cell, v: int): Cell {
    c.(in1 := v, pc := RecvLeft)
  }

  function GotLeft(c: Cell, v: int): Cell {
    c.(in2 := v, pc := SendRight)
  }

  function SentRight(c: Cell): Cell {
    c.(pc := SendDown)
  }

  function SentDown(c: Cell): Cell {
    c.(pc := if Ended(c) then WriteOutput else Accumulate)
  }

  function Added(c: Cell): Cell {
    c.(storage := c.storage + c.in1 * c.in2, round := c.round + 1, pc := RecvUp)
  }

  // ------------------------------------------------------------------ the network

  datatype Event =
    | Down(p: Pos)      // rendezvous on the channel that enters p from above
    | Across(p: Pos)    // rendezvous on the channel that enters p from the left
    | Own(p: Pos)       // a statement of p alone

  predicate At(s: Net, p: Pos, pc: Pc) {
    p in s.cells && s.cells[p].pc == pc
  }

  function NextDown(s: Net, a: Matrix, p: Pos): Option<Net> {
    if !At(s, p, RecvUp) then None
    else if p.i == 0 then
      if p.j < |s.cols| && s.cols[p.j] <= |a|
      then Some(s.(cells := s.cells[p := GotUp(s.cells[p], FromAbove(a, s.cols[p.j], p.j))],
                   cols := s.cols[p.j := s.cols[p.j] + 1]))
      else None
    else
      var up := Pos(p.i - 1, p.j);
      if At(s, up, SendDown)
      then Some(s.(cells := s.cells[p := GotUp(s.cells[p], ToBelow(s.cells[up]))][up := SentDown(s.cells[up])]))
      else None
  }

  function NextAcross(s: Net, a: Matrix, b: Matrix, p: Pos): Option<Net> {
    if !At(s, p, RecvLeft) then None
    else if p.j == 0 then
      if p.i < |s.rows| && s.rows[p.i] <= |a|
      then Some(s.(cells := s.cells[p := GotLeft(s.cells[p], FromLeft(b, p.i, s.rows[p.i]))],
                   rows := s.rows[p.i := s.rows[p.i] + 1]))
      else None
    else
      var left := Pos(p.i, p.j - 1);
      if At(s, left, SendRight)
      then Some(s.(cells := s.cells[p := GotLeft(s.cells[p], ToRight(s.cells[left]))][left := SentRight(s.cells[left])]))
      else None
  }

  // A processor at the right or lower edge has no channel to send on and goes on.
  function NextOwn(s: Net, n: nat, p: Pos): Option<Net> {
    if p !in s.cells then None
    else
      var c := s.cells[p];
      match c.pc
      case SendRight => if p.j + 1 < n then None else Some(s.(cells := s.cells[p := SentRight(c)]))
      case SendDown => if p.i + 1 < n then None else Some(s.(cells := s.cells[p := SentDown(c)]))
      case Accumulate => Some(s.(cells := s.cells[p := Added(c)]))
      case WriteOutput => Some(s.(cells := s.cells[p := c.(pc := Done)], output := s.output[p := c.storage]))
      case _ => None
  }

  function Next(s: Net, a: Matrix, b: Matrix, n: nat, e: Event): Option<Net> {
    match e
    case Down(p) => NextDown(s, a, p)
    case Across(p) => NextAcross(s, a, b, p)
    case Own(p) => NextOwn(s, n, p)
  }

  function Run(s: Net, a: Matrix, b: Matrix, n: nat, events: seq<Event>): Option<Net>
    decreases |events|
  {
    if events == [] then Some(s)
    else
      var s' := Next(s, a, b, n, events[0]);
      if s'.None? then None else Run(s'.value, a, b, n, events[1..])
  }

  ghost predicate Reachable(s: Net, a: Matrix, b: Matrix, n: nat) {
    exists events :: Run(Start(n), a, b, n, events) == Some(s)
  }

  // Every thread has called Exit().
  predicate Finished(s: Net, n: nat, q: nat) {
    && (forall p :: p in s.cells ==> s.cells[p].pc == Done)
    && (forall j :: 0 <= j < |s.cols| ==> s.cols[j] == q + 1)
    && (forall i :: 0 <= i < |s.rows| ==> s.rows[i] == q + 1)
  }

  // ------------------------------------------------------------ matrix product

  // Sum over m < k of b[i][m] * a[m][j].
  function Dot(a: Matrix, b: Matrix, i: nat, j: nat, k: nat): int {
    if k == 0 then 0 else Dot(a, b, i, j, k - 1) + FromLeft(b, i, k - 1) * FromAbove(a, k - 1, j)
  }

  // No entry looks like the end marker.
  predicate NoMarker(a: Matrix, b: Matrix) {
    && (forall k, j :: 0 <= k < |a| && 0 <= j < |a[k]| ==> a[k][j] != EOD)
    && (forall i, k :: 0 <= i < |b| && 0 <= k < |b[i]| ==> b[i][k] != EOD)
  }
}
