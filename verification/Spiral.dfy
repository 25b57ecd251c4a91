/** The greedy spiral fill of an n x n matrix: one loop, at most one turn per step,
    and no check of the cell reached after the turn. */
module Spiral {

  /** Matrix coordinates: `row` grows downwards, `col` to the right. */
  datatype Cell = Cell(row: int, col: int)

  /** A position on the spiral: the ring counted from outside, the side walked
      (0 right, 1 down, 2 left, 3 up) and the offset from that side's first cell. */
  datatype Place = Place(ring: int, side: int, off: int)

  predicate InGrid(n: nat, c: Cell) {
    0 <= c.row < n && 0 <= c.col < n
  }

  function Move(c: Cell, dir: int): Cell {
    if dir == 0 then Cell(c.row, c.col + 1)
    else if dir == 1 then Cell(c.row + 1, c.col)
    else if dir == 2 then Cell(c.row, c.col - 1)
    else Cell(c.row - 1, c.col)
  }

  predicate Adjacent(c: Cell, d: Cell) {
    (c.row == d.row && (c.col == d.col + 1 || d.col == c.col + 1)) ||
    (c.col == d.col && (c.row == d.row + 1 || d.row == c.row + 1))
  }

  // ----- geometry of the rings

  /** The side length of ring `r`. */
  function Side(n: nat, r: int): int { n - 2 * r }

  predicate OnSpiral(n: nat, p: Place) {
    var m := Side(n, p.ring);
    && 0 <= p.ring && 1 <= m
    && if m == 1 then p.side == 0 && p.off == 0 else 0 <= p.side < 4 && 0 <= p.off < m - 1
  }

  function CellOf(n: nat, p: Place): Cell {
    var lo, hi := p.ring, n - 1 - p.ring;
    if p.side == 0 then Cell(lo, lo + p.off)
    else if p.side == 1 then Cell(lo + p.off, hi)
    else if p.side == 2 then Cell(hi, hi - p.off)
    else Cell(hi - p.off, lo)
  }

  function Min(a: int, b: int): int { if a <= b then a else b }

  function RingOf(n: nat, c: Cell): int {
    Min(Min(c.row, c.col), Min(n - 1 - c.row, n - 1 - c.col))
  }

  function PlaceOf(n: nat, c: Cell): Place {
    var r := RingOf(n, c);
    var hi := n - 1 - r;
    if c.row == r && (c.col < hi || r == hi) then Place(r, 0, c.col - r)
    else if c.col == hi && c.row < hi then Place(r, 1, c.row - r)
    else if c.row == hi && r < c.col then Place(r, 2, hi - c.col)
    else Place(r, 3, hi - c.row)
  }

  /** How many cells lie outside ring `r`. */
  function Outside(n: nat, r: int): int {
    if r <= 0 then 0 else Outside(n, r - 1) + 4 * (Side(n, r - 1) - 1)
  }

  /** How many cells a square of side `m` has, ring by ring. */
  function Cells(m: int): int {
    if m <= 0 then 0 else if m == 1 then 1 else 4 * (m - 1) + Cells(m - 2)
  }

  /** The number the spiral gives to place `p`, counting from 1. */
  function NumberAt(n: nat, p: Place): int {
    var m := Side(n, p.ring);
    Outside(n, p.ring) + p.off + 1 +
    (if p.side <= 0 then 0 else if p.side == 1 then m - 1 else if p.side == 2 then 2 * (m - 1) else 3 * (m - 1))
  }

  /** The number the finished matrix holds in cell `c`. */
  function Number(n: nat, c: Cell): int { NumberAt(n, PlaceOf(n, c)) }

  function Next(n: nat, p: Place): Place {
    var m := Side(n, p.ring);
    if p.off + 1 < m - 1 then p.(off := p.off + 1)
    else if p.side < 3 then Place(p.ring, p.side + 1, 0)
    else Place(p.ring + 1, 0, 0)
  }

  /** The direction the walk has when it arrives at `p`. */
  function EntryDir(p: Place): int {
    if p.off > 0 || p.side == 0 then p.side else p.side - 1
  }

  const START := Place(0, 0, 0)

  /** The place numbered `k`, found by walking from the corner. */
  function PlaceNumbered(n: nat, k: nat): (p: Place)
    requires 1 <= k <= Cells(n)
    ensures OnSpiral(n, p) && NumberAt(n, p) == k
    decreases k
  {
    if k == 1 then
      START
    else
      var q := PlaceNumbered(n, k - 1);
      NextIsSuccessor(n, q);
      Next(n, q)
  }

  function CellNumbered(n: nat, k: nat): (c: Cell)
    requires 1 <= k <= Cells(n)
    ensures InGrid(n, c) && Number(n, c) == k
  {
    var p := PlaceNumbered(n, k);
    PlaceCellRoundTrip(n, p);
    CellOf(n, p)
  }

  // ----- places and cells are in bijection

  lemma PlaceCellRoundTrip(n: nat, p: Place)
    requires OnSpiral(n, p)
    ensures InGrid(n, CellOf(n, p)) && PlaceOf(n, CellOf(n, p)) == p
  {
  }

  lemma CellPlaceRoundTrip(n: nat, c: Cell)
    requires InGrid(n, c)
    ensures OnSpiral(n, PlaceOf(n, c)) && CellOf(n, PlaceOf(n, c)) == c
  {
  }

  // ----- places and numbers are in bijection

  lemma {:induction false} CellsIsSquare(m: nat)
    ensures Cells(m) == m * m
  {
    if m >= 2 {
      CellsIsSquare(m - 2);
      assert m * m == (m - 2) * (m - 2) + 4 * (m - 1);
    }
  }

  lemma {:induction false} OutsideAndInside(n: nat, r: nat)
    requires 0 <= Side(n, r)
    ensures Outside(n, r) + Cells(Side(n, r)) == Cells(n)
    ensures 0 <= Outside(n, r)
  {
    if r > 0 {
      OutsideAndInside(n, r - 1);
    }
  }

  lemma {:induction false} OutsideMonotone(n: nat, r: nat, s: nat)
    requires r <= s && Side(n, s) >= 1
    ensures Outside(n, r) <= Outside(n, s)
  {
    if r < s {
      OutsideMonotone(n, r, s - 1);
    }
  }

  lemma {:induction false} OutsideClosedForm(n: nat, r: nat)
    ensures Outside(n, r) == 4 * r * (n - r)
  {
    if r > 0 {
      OutsideClosedForm(n, r - 1);
      assert (r - 1) * (n - (r - 1)) == r * (n - r) - n + 2 * r - 1;
    }
  }

  lemma NumberRange(n: nat, p: Place)
    requires OnSpiral(n, p)
    ensures 1 <= NumberAt(n, p) <= Cells(n)
    ensures Outside(n, p.ring) < NumberAt(n, p)
    ensures NumberAt(n, p) <= Outside(n, p.ring) + Cells(Side(n, p.ring)) - Cells(Side(n, p.ring) - 2)
    ensures NumberAt(n, p) == Cells(n) <==> Side(n, p.ring) == 1 || (Side(n, p.ring) == 2 && p.side == 3)
  {
    OutsideAndInside(n, p.ring);
    CellsNonNegative(Side(n, p.ring) - 2);
  }

  lemma {:induction false} CellsNonNegative(m: int)
    ensures Cells(m) >= 0 && (Cells(m) == 0 <==> m <= 0)
  {
    if m >= 2 {
      CellsNonNegative(m - 2);
    }
  }

  lemma NextIsSuccessor(n: nat, p: Place)
    requires OnSpiral(n, p) && NumberAt(n, p) < Cells(n)
    ensures OnSpiral(n, Next(n, p)) && NumberAt(n, Next(n, p)) == NumberAt(n, p) + 1
  {
    NumberRange(n, p);
  }

  lemma NumbersInjective(n: nat, p: Place, q: Place)
    requires OnSpiral(n, p) && OnSpiral(n, q) && NumberAt(n, p) == NumberAt(n, q)
    ensures p == q
  {
    NumberRange(n, p);
    NumberRange(n, q);
    if p.ring < q.ring {
        OutsideMonotone(n, p.ring + 1, q.ring);
    } else if q.ring < p.ring {
      OutsideMonotone(n, q.ring + 1, p.ring);
    }
  }

  // ----- the greedy rule follows the spiral

  /** Going straight on reaches the next place, except at a corner, where the cell ahead
      is outside the grid, in the ring outside, or the first cell of this ring. */
  lemma StraightOrCorner(n: nat, p: Place)
    requires OnSpiral(n, p) && Side(n, p.ring) > 1 && !(Side(n, p.ring) == 2 && p.side == 3)
    ensures var c, d, q := CellOf(n, p), EntryDir(p), Next(n, p);
            var ahead, turned := Move(c, d), (d + 1) % 4;
            || (CellOf(n, q) == ahead && EntryDir(q) == d)
            || (&& CellOf(n, q) == Move(c, turned) && EntryDir(q) == turned
                && (InGrid(n, ahead) ==>
                      RingOf(n, ahead) == p.ring - 1 || PlaceOf(n, ahead) == Place(p.ring, 0, 0)))
  {
  }

  /** What the loop finds in front of it once the numbers 1..k are written. */
  predicate Blocked(n: nat, k: int, c: Cell) {
    !InGrid(n, c) || Number(n, c) <= k
  }

  /** One greedy step, with at most one turn and no second check, goes from each
      number's cell to its successor's, which lies in the grid and is still free. */
  lemma GreedyStepIsNext(n: nat, p: Place)
    requires OnSpiral(n, p) && NumberAt(n, p) < Cells(n)
    ensures var c, d, q := CellOf(n, p), EntryDir(p), Next(n, p);
            var turned := if Blocked(n, NumberAt(n, p), Move(c, d)) then (d + 1) % 4 else d;
            && EntryDir(q) == turned && CellOf(n, q) == Move(c, turned)
            && !Blocked(n, NumberAt(n, p), CellOf(n, q))
  {
    var q, ahead := Next(n, p), Move(CellOf(n, p), EntryDir(p));
    NumberRange(n, p);
    NextIsSuccessor(n, p);
    PlaceCellRoundTrip(n, q);
    StraightOrCorner(n, p);
    if CellOf(n, q) == ahead {
      assert !Blocked(n, NumberAt(n, p), ahead);
    } else if InGrid(n, ahead) {
      CellPlaceRoundTrip(n, ahead);
      EarlierRingIsSmaller(n, PlaceOf(n, ahead), p);
      assert Blocked(n, NumberAt(n, p), ahead);
    }
  }

  lemma EarlierRingIsSmaller(n: nat, a: Place, p: Place)
    requires OnSpiral(n, a) && OnSpiral(n, p)
    requires a.ring == p.ring - 1 || a == Place(p.ring, 0, 0)
    ensures NumberAt(n, a) <= NumberAt(n, p)
  {
    NumberRange(n, a);
    NumberRange(n, p);
  }

  // ----- the finished matrix, without the closed form

  /** Every cell gets a number in 1..n*n, and no two cells get the same one. */
  lemma NumbersDistinctInRange(n: nat, c: Cell, d: Cell)
    requires InGrid(n, c) && InGrid(n, d)
    ensures 1 <= Number(n, c) <= Cells(n)
    ensures Number(n, c) == Number(n, d) <==> c == d
  {
    CellPlaceRoundTrip(n, c);
    CellPlaceRoundTrip(n, d);
    NumberRange(n, PlaceOf(n, c));
    if Number(n, c) == Number(n, d) {
      NumbersInjective(n, PlaceOf(n, c), PlaceOf(n, d));
    }
  }

  /** Every number in 1..n*n is used by exactly one cell. */
  lemma EachNumberOnce(n: nat, k: nat)
    requires 1 <= k <= Cells(n)
    ensures exists c :: InGrid(n, c) && Number(n, c) == k && forall d :: InGrid(n, d) && Number(n, d) == k ==> d == c
  {
    var c := CellNumbered(n, k);
    forall d | InGrid(n, d) && Number(n, d) == k ensures d == c {
      NumbersDistinctInRange(n, c, d);
    }
  }

  lemma NextIsAdjacent(n: nat, p: Place)
    requires OnSpiral(n, p) && NumberAt(n, p) < Cells(n)
    ensures Adjacent(CellOf(n, p), CellOf(n, Next(n, p)))
  {
    assert Side(n, p.ring) > 1 && !(Side(n, p.ring) == 2 && p.side == 3) by {
      NumberRange(n, p);
    }
    StepIsAdjacent(n, p);
  }

  lemma StepIsAdjacent(n: nat, p: Place)
    requires OnSpiral(n, p) && Side(n, p.ring) > 1 && !(Side(n, p.ring) == 2 && p.side == 3)
    ensures Adjacent(CellOf(n, p), CellOf(n, Next(n, p)))
  {
  }

  /** Consecutive numbers lie in cells that share an edge. */
  lemma ConsecutiveNumbersAdjacent(n: nat, c: Cell, d: Cell)
    requires InGrid(n, c) && InGrid(n, d) && Number(n, d) == Number(n, c) + 1
    ensures Adjacent(c, d)
  {
    CellPlaceRoundTrip(n, c);
    CellPlaceRoundTrip(n, d);
    AdjacentPlaces(n, PlaceOf(n, c), PlaceOf(n, d));
  }

  lemma AdjacentPlaces(n: nat, p: Place, q: Place)
    requires OnSpiral(n, p) && OnSpiral(n, q) && NumberAt(n, q) == NumberAt(n, p) + 1
    ensures Adjacent(CellOf(n, p), CellOf(n, q))
  {
    NumberRange(n, q);
    NextIsSuccessor(n, p);
    NumbersInjective(n, q, Next(n, p));
    NextIsAdjacent(n, p);
  }

  /** Ring `r` starts on the diagonal, with 4r(n-r)+1. */
  lemma RingStart(n: nat, r: nat)
    requires 2 * r < n
    ensures Number(n, Cell(r, r)) == 4 * r * (n - r) + 1
  {
    PlaceCellRoundTrip(n, Place(r, 0, 0));
    OutsideClosedForm(n, r);
  }

  /** And goes right from there: its upper side is numbered from left to right. */
  lemma RingGoesRight(n: nat, r: nat, j: nat)
    requires 2 * r + 1 < n && r + j < n - r
    ensures Number(n, Cell(r, r + j)) == 4 * r * (n - r) + 1 + j
  {
    OutsideClosedForm(n, r);
    if r + j < n - 1 - r {
      PlaceCellRoundTrip(n, Place(r, 0, j));
    } else {
      PlaceCellRoundTrip(n, Place(r, 1, 0));
    }
  }

  // ----- the loop

  /** `t` lists the number of every cell of the grid. */
  ghost predicate Lists(n: nat, t: map<Cell, int>) {
    && (forall c :: c in t <==> InGrid(n, c))
    && (forall c {:trigger Number(n, c)} :: InGrid(n, c) ==> t[c] == Number(n, c))
  }

  /** The heading after looking at the cell ahead, once the numbers 1..k are written. */
  function Turn(t: map<Cell, int>, k: int, c: Cell, dir: int): int {
    var ahead := Move(c, dir);
    if ahead !in t || t[ahead] <= k then (dir + 1) % 4 else dir
  }

  /** `c` is the one cell with number `k`. */
  ghost predicate DueOnly(t: map<Cell, int>, c: Cell, k: int) {
    c in t && t[c] == k && forall i, j :: Cell(i, j) in t && t[Cell(i, j)] == k ==> Cell(i, j) == c
  }

  /** Step `k` of the walk obeys the greedy rule. */
  ghost predicate FollowsRule(t: map<Cell, int>, cells: seq<Cell>, dirs: seq<int>, k: nat)
    requires k + 1 < |cells| == |dirs|
  {
    && dirs[k + 1] == Turn(t, k + 1, cells[k], dirs[k])
    && cells[k + 1] == Move(cells[k], dirs[k + 1])
  }

  /** The greedy rule, applied to the table of numbers, visits `cells` in order with headings `dirs`. */
  ghost predicate GreedyWalk(t: map<Cell, int>, cells: seq<Cell>, dirs: seq<int>) {
    && |cells| == |dirs|
    && (|cells| > 0 ==> cells[0] == Cell(0, 0) && dirs[0] == 0)
    && (forall k :: 0 <= k < |cells| ==> DueOnly(t, cells[k], k + 1))
    && (forall k {:trigger FollowsRule(t, cells, dirs, k)} ::
          0 <= k < |cells| - 1 ==> FollowsRule(t, cells, dirs, k))
  }

  lemma ListNumbers(n: nat) returns (t: map<Cell, int>)
    ensures Lists(n, t)
  {
    t := map i, j | 0 <= i < n && 0 <= j < n :: Cell(i, j) := Number(n, Cell(i, j));
    forall c ensures c in t <==> InGrid(n, c) {
      assert c == Cell(c.row, c.col);
    }
  }

  lemma NumbersInRange(n: nat, t: map<Cell, int>)
    requires Lists(n, t)
    ensures forall i, j :: Cell(i, j) in t <==> 0 <= i < n && 0 <= j < n
    ensures forall i, j :: Cell(i, j) in t ==> 1 <= t[Cell(i, j)] <= Cells(n)
  {
    forall i, j ensures Cell(i, j) in t <==> 0 <= i < n && 0 <= j < n {
      assert InGrid(n, Cell(i, j)) <==> 0 <= i < n && 0 <= j < n;
    }
    forall i, j | Cell(i, j) in t ensures 1 <= t[Cell(i, j)] <= Cells(n) {
      NumbersDistinctInRange(n, Cell(i, j), Cell(i, j));
    }
  }

  lemma PlaceIsDue(n: nat, t: map<Cell, int>, p: Place)
    requires Lists(n, t) && OnSpiral(n, p)
    ensures DueOnly(t, CellOf(n, p), NumberAt(n, p))
  {
    var c := CellOf(n, p);
    PlaceCellRoundTrip(n, p);
    assert Number(n, c) == NumberAt(n, p);
    forall i, j | Cell(i, j) in t && t[Cell(i, j)] == NumberAt(n, p) ensures Cell(i, j) == c {
      NumbersDistinctInRange(n, c, Cell(i, j));
    }
  }

  lemma PlaceTurns(n: nat, t: map<Cell, int>, p: Place)
    requires Lists(n, t) && OnSpiral(n, p) && NumberAt(n, p) < Cells(n)
    ensures var q := Next(n, p);
            && EntryDir(q) == Turn(t, NumberAt(n, p), CellOf(n, p), EntryDir(p))
            && CellOf(n, q) == Move(CellOf(n, p), EntryDir(q))
  {
    TurnIs(n, t, NumberAt(n, p), CellOf(n, p), EntryDir(p));
    GreedyStepIsNext(n, p);
  }

  lemma TurnIs(n: nat, t: map<Cell, int>, k: int, c: Cell, dir: int)
    requires Lists(n, t)
    ensures Turn(t, k, c, dir) == if Blocked(n, k, Move(c, dir)) then (dir + 1) % 4 else dir
  {
    var ahead := Move(c, dir);
    assert ahead in t <==> InGrid(n, ahead);
    assert InGrid(n, ahead) ==> t[ahead] == Number(n, ahead);
  }

  lemma WalkGrows(t: map<Cell, int>, cells: seq<Cell>, dirs: seq<int>, c: Cell, dir: int)
    requires GreedyWalk(t, cells, dirs) && |cells| > 0 && DueOnly(t, c, |cells| + 1)
    requires dir == Turn(t, |cells|, cells[|cells| - 1], dirs[|cells| - 1]) && c == Move(cells[|cells| - 1], dir)
    ensures GreedyWalk(t, cells + [c], dirs + [dir])
  {
    var cells', dirs' := cells + [c], dirs + [dir];
    forall k {:trigger FollowsRule(t, cells', dirs', k)} | 0 <= k < |cells'| - 1
      ensures FollowsRule(t, cells', dirs', k)
    {
      assert k < |cells| - 1 ==> FollowsRule(t, cells, dirs, k);
    }
  }

  /** The walk stands at the place `p`. */
  ghost predicate StandsAt(n: nat, cells: seq<Cell>, dirs: seq<int>, p: Place) {
    && OnSpiral(n, p) && NumberAt(n, p) == |cells| == |dirs| && |cells| > 0
    && cells[|cells| - 1] == CellOf(n, p) && dirs[|cells| - 1] == EntryDir(p)
  }

  lemma WalkStart(n: nat, t: map<Cell, int>)
    requires Lists(n, t) && Cells(n) > 0
    ensures GreedyWalk(t, [Cell(0, 0)], [0]) && StandsAt(n, [Cell(0, 0)], [0], START)
  {
    assert n >= 1 by {
      CellsNonNegative(n);
    }
    StartIsCorner(n);
    PlaceIsDue(n, t, START);
    WalkOfOne(t);
  }

  lemma StartIsCorner(n: nat)
    requires n >= 1
    ensures OnSpiral(n, START) && NumberAt(n, START) == 1 && CellOf(n, START) == Cell(0, 0) && EntryDir(START) == 0
  {
  }

  lemma WalkOfOne(t: map<Cell, int>)
    requires DueOnly(t, Cell(0, 0), 1)
    ensures GreedyWalk(t, [Cell(0, 0)], [0])
  {
  }

  lemma WalkStep(n: nat, t: map<Cell, int>, cells: seq<Cell>, dirs: seq<int>, q: Place)
    requires Lists(n, t) && GreedyWalk(t, cells, dirs) && StandsAt(n, cells, dirs, q) && |cells| < Cells(n)
    ensures var p := Next(n, q);
            && StandsAt(n, cells + [CellOf(n, p)], dirs + [EntryDir(p)], p)
            && GreedyWalk(t, cells + [CellOf(n, p)], dirs + [EntryDir(p)])
  {
    var p := Next(n, q);
    NextIsSuccessor(n, q);
    PlaceTurns(n, t, q);
    PlaceIsDue(n, t, p);
    WalkGrows(t, cells, dirs, CellOf(n, p), EntryDir(p));
  }

  /** The first `k` steps of the walk end at the place numbered `k`. */
  lemma {:induction false} WalkTo(n: nat, t: map<Cell, int>, k: nat)
    returns (cells: seq<Cell>, dirs: seq<int>, p: Place)
    requires Lists(n, t) && 1 <= k <= Cells(n)
    ensures GreedyWalk(t, cells, dirs) && |cells| == k && StandsAt(n, cells, dirs, p)
  {
    if k == 1 {
      WalkStart(n, t);
      cells, dirs, p := [Cell(0, 0)], [0], START;
    } else {
      var q;
      cells, dirs, q := WalkTo(n, t, k - 1);
      WalkStep(n, t, cells, dirs, q);
      p := Next(n, q);
      cells, dirs := cells + [CellOf(n, p)], dirs + [EntryDir(p)];
    }
  }

  /** Write number `k` is in the grid, and to no cell written before. */
  ghost predicate WrittenAt(n: nat, written: seq<Cell>, k: nat)
    requires k < |written|
  {
    InGrid(n, written[k]) && Number(n, written[k]) == k + 1 && written[k] !in written[..k]
  }

  /** As many cells as the grid has, in the order of their numbers. */
  ghost predicate EachOnce(n: nat, written: seq<Cell>) {
    |written| == n * n && forall k :: 0 <= k < |written| ==> WrittenAt(n, written, k)
  }

  lemma WalkVisitsEachOnce(n: nat, t: map<Cell, int>, cells: seq<Cell>, dirs: seq<int>)
    requires Lists(n, t) && GreedyWalk(t, cells, dirs) && |cells| == Cells(n)
    ensures EachOnce(n, cells)
  {
    CellsIsSquare(n);
    forall k | 0 <= k < |cells| ensures WrittenAt(n, cells, k) {
      assert DueOnly(t, cells[k], k + 1);
      forall i | 0 <= i < k ensures cells[i] != cells[k] {
        assert DueOnly(t, cells[i], i + 1);
      }
      assert InGrid(n, cells[k]) && t[cells[k]] == Number(n, cells[k]);
    }
  }

  lemma TheWalk(n: nat) returns (t: map<Cell, int>, cells: seq<Cell>, dirs: seq<int>)
    ensures GreedyWalk(t, cells, dirs) && |cells| == Cells(n) && EachOnce(n, cells)
    ensures forall i, j :: Cell(i, j) in t <==> 0 <= i < n && 0 <= j < n
    ensures forall i, j :: Cell(i, j) in t ==> 1 <= t[Cell(i, j)] <= Cells(n)
    ensures forall i, j {:trigger Number(n, Cell(i, j))} ::
              0 <= i < n && 0 <= j < n ==> Cell(i, j) in t && t[Cell(i, j)] == Number(n, Cell(i, j))
  {
    t := ListNumbers(n);
    NumbersInRange(n, t);
    CellsNonNegative(n);
    if Cells(n) == 0 {
      cells, dirs := [], [];
    } else {
      var p;
      cells, dirs, p := WalkTo(n, t, Cells(n));
    }
    WalkVisitsEachOnce(n, t, cells, dirs);
  }

  /** The loop bound `size * size`. */
  method CellCount(size: nat) returns (total: nat)
    ensures total == Cells(size)
  {
    CellsIsSquare(size);
    total := size * size;
  }

  /** The loop of `main`; `written` are the cells in the order in which it writes them, each of them
      in the grid, and none of them twice, so that each is still 0 when it is written. */
  method Fill(size: nat) returns (matrix: array2<int>, ghost written: seq<Cell>)
    ensures matrix.Length0 == matrix.Length1 == size
    ensures forall i, j :: 0 <= i < size && 0 <= j < size ==> matrix[i, j] == Number(size, Cell(i, j))
    ensures EachOnce(size, written)
  {
    matrix := new int[size, size]((_, _) => 0);
    var dir, x, y, num := 0, 0, 0, 1;
    ghost var t, cells, dirs := TheWalk(size);
    var total := CellCount(size);
    written := [];
    for k := 0 to total
      invariant num == k + 1
      invariant written == cells[..k]
      invariant k < total ==> cells[k] == Cell(x, y) && dirs[k] == dir
      invariant forall i, j :: 0 <= i < size && 0 <= j < size ==>
                                 matrix[i, j] == if t[Cell(i, j)] <= k then t[Cell(i, j)] else 0
    {
      assert DueOnly(t, cells[k], k + 1);
      assert matrix[x, y] == 0;
      matrix[x, y] := num;
      written := written + [Cell(x, y)];
      num := num + 1;
      ghost var turned := Turn(t, k + 1, Cell(x, y), dir);
      var step := Move(Cell(x, y), dir);
      var nx, ny := step.row, step.col;
      if nx < 0 || nx >= size || ny < 0 || ny >= size || matrix[nx, ny] != 0 {
        dir := (dir + 1) % 4;
        nx, ny := Move(Cell(x, y), dir).row, Move(Cell(x, y), dir).col;
      }
      assert dir == turned;
      assert k + 1 < total ==> FollowsRule(t, cells, dirs, k);
      x, y := nx, ny;
    }
    assert written == cells;
  }
}
