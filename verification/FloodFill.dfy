/**
 Flood fill without a work list: as many raster sweeps over the grid as it has cells, each cell of
 the replacement colour painting those of its eight neighbours that have the target colour.
 */
module FloodFill {

  type Grid = seq<seq<nat>>
  type Cell = (int, int)

  ghost predicate Rectangular(g: Grid, rows: nat, columns: nat) {
    |g| == rows && forall r :: 0 <= r < rows ==> |g[r]| == columns
  }

  ghost predicate Inside(g: Grid, c: Cell) {
    0 <= c.0 < |g| && 0 <= c.1 < |g[c.0]|
  }

  ghost predicate HasColour(g: Grid, c: Cell, colour: nat) {
    Inside(g, c) && g[c.0][c.1] == colour
  }

  // ---- Connectivity, the reference ----

  ghost predicate Adjacent(c: Cell, d: Cell) {
    -1 <= c.0 - d.0 <= 1 && -1 <= c.1 - d.1 <= 1 && c != d
  }

  // A walk of adjacent cells, all but the first of the given colour.
  ghost predicate IsWalk(g: Grid, colour: nat, walk: seq<Cell>) {
    |walk| > 0 && forall i :: 0 < i < |walk| ==> Adjacent(walk[i - 1], walk[i]) && HasColour(g, walk[i], colour)
  }

  ghost predicate Leads(g: Grid, colour: nat, walk: seq<Cell>, c: Cell, d: Cell) {
    IsWalk(g, colour, walk) && walk[0] == c && walk[|walk| - 1] == d
  }

  ghost predicate Connected(g: Grid, colour: nat, c: Cell, d: Cell) {
    exists walk :: Leads(g, colour, walk, c, d)
  }

  // The colour to be replaced: that of the chosen cell, and 0 when the cell is not in the grid.
  ghost function Target(g: Grid, start: Cell): nat {
    if Inside(g, start) then g[start.0][start.1] else 0
  }

  // The sources of the flood: the chosen cell and every cell that has the replacement colour already.
  ghost predicate IsSource(g: Grid, start: Cell, replacement: nat, c: Cell) {
    Inside(g, c) && (c == start || HasColour(g, c, replacement))
  }

  ghost predicate Flooded(g: Grid, start: Cell, replacement: nat, d: Cell) {
    exists c :: IsSource(g, start, replacement, c) && Connected(g, Target(g, start), c, d)
  }

  // With a new colour the flooded cells are those connected to the start within its own colour.
  lemma NewColour(g: Grid, start: Cell, replacement: nat, d: Cell)
    requires Inside(g, start) && forall c :: Inside(g, c) ==> !HasColour(g, c, replacement)
    ensures Flooded(g, start, replacement, d) <==> Connected(g, g[start.0][start.1], start, d)
  {
    assert IsSource(g, start, replacement, start);
  }

  // A start outside a grid without zeros changes nothing.
  lemma StartOutside(g: Grid, start: Cell, replacement: nat, d: Cell)
    requires !Inside(g, start) && forall c :: Inside(g, c) ==> !HasColour(g, c, 0)
    ensures Flooded(g, start, replacement, d) <==> HasColour(g, d, replacement)
  {
    if Flooded(g, start, replacement, d) {
      var c :| IsSource(g, start, replacement, c) && Connected(g, 0, c, d);
      var walk :| Leads(g, 0, walk, c, d);
      assert |walk| > 1 ==> HasColour(g, walk[1], 0);
    }
    if HasColour(g, d, replacement) {
      assert IsSource(g, start, replacement, d);
      assert Leads(g, 0, [d], d, d);
    }
  }

  lemma ConnectedToItself(g: Grid, colour: nat, c: Cell)
    ensures Connected(g, colour, c, c)
  {
    assert Leads(g, colour, [c], c, c);
  }

  lemma ConnectedNext(g: Grid, colour: nat, c: Cell, d: Cell)
    requires Adjacent(c, d) && HasColour(g, d, colour)
    ensures Connected(g, colour, c, d)
  {
    assert Leads(g, colour, [c, d], c, d);
  }

  lemma ConnectedOn(g: Grid, colour: nat, b: Cell, c: Cell, d: Cell)
    requires Connected(g, colour, b, c) && Connected(g, colour, c, d)
    ensures Connected(g, colour, b, d)
  {
    var walk :| Leads(g, colour, walk, b, c);
    var more :| Leads(g, colour, more, c, d);
    assert Leads(g, colour, walk + more[1..], b, d);
  }

  // A walk of more than one cell begins with a step into the colour.
  lemma FirstStep(g: Grid, colour: nat, c: Cell, d: Cell) returns (e: Cell)
    requires Connected(g, colour, c, d) && c != d
    ensures Adjacent(c, e) && HasColour(g, e, colour) && Connected(g, colour, e, d)
  {
    var walk :| Leads(g, colour, walk, c, d);
    e := walk[1];
    assert Leads(g, colour, walk[1..], e, d);
  }

  // Every cell of the target colour next to a cell of the replacement colour is connected to the start.
  ghost predicate TouchesOnlyStart(g: Grid, start: Cell, replacement: nat) {
    forall c, d :: HasColour(g, c, replacement) && Adjacent(c, d) && HasColour(g, d, Target(g, start)) ==>
      Connected(g, Target(g, start), start, d)
  }

  // What a flood from the start alone leaves in the replacement colour.
  ghost predicate Filled(g: Grid, start: Cell, replacement: nat, d: Cell) {
    Connected(g, Target(g, start), start, d) || HasColour(g, d, replacement)
  }

  // Only cells connected to the start are painted exactly when old cells of the colour touch no
  // others of the target colour, or the colours are the same.
  lemma OnlyFromStart(g: Grid, start: Cell, replacement: nat)
    requires Inside(g, start)
    ensures (forall d :: Inside(g, d) ==> (Flooded(g, start, replacement, d) <==> Filled(g, start, replacement, d)))
      <==> replacement == Target(g, start) || TouchesOnlyStart(g, start, replacement)
  {
    hide Connected;
    forall d | Filled(g, start, replacement, d) ensures Flooded(g, start, replacement, d) {
      FilledIsFlooded(g, start, replacement, d);
    }
    if replacement == Target(g, start) || TouchesOnlyStart(g, start, replacement) {
      forall d | Flooded(g, start, replacement, d) ensures Filled(g, start, replacement, d) {
        FloodedIsFilled(g, start, replacement, d);
      }
    } else {
      var c, d :| HasColour(g, c, replacement) && Adjacent(c, d) && HasColour(g, d, Target(g, start))
        && !Connected(g, Target(g, start), start, d);
      ConnectedNext(g, Target(g, start), c, d);
      assert IsSource(g, start, replacement, c);
      assert Flooded(g, start, replacement, d) && !Filled(g, start, replacement, d);
    }
  }

  lemma FilledIsFlooded(g: Grid, start: Cell, replacement: nat, d: Cell)
    requires Inside(g, start) && Filled(g, start, replacement, d)
    ensures Flooded(g, start, replacement, d)
  {
    hide Connected;
    ConnectedToItself(g, Target(g, start), d);
    assert IsSource(g, start, replacement, start);
    assert HasColour(g, d, replacement) ==> IsSource(g, start, replacement, d);
  }

  lemma FloodedIsFilled(g: Grid, start: Cell, replacement: nat, d: Cell)
    requires replacement == Target(g, start) || TouchesOnlyStart(g, start, replacement)
    requires Inside(g, start) && Flooded(g, start, replacement, d)
    ensures Filled(g, start, replacement, d)
  {
    hide Connected;
    var colour := Target(g, start);
    var c :| IsSource(g, start, replacement, c) && Connected(g, colour, c, d);
    if c != start && c != d {
      if replacement == colour {
        LastStep(g, colour, c, d);
      } else {
        var e := FirstStep(g, colour, c, d);
        ConnectedOn(g, colour, start, e, d);
      }
    }
  }

  lemma LastStep(g: Grid, colour: nat, c: Cell, d: Cell)
    requires Connected(g, colour, c, d) && c != d
    ensures HasColour(g, d, colour)
  {
    var walk :| Leads(g, colour, walk, c, d);
    var l := |walk| - 1;
    assert Adjacent(walk[l - 1], walk[l]) && HasColour(g, walk[l], colour);
  }

  ghost predicate TouchesZero(g: Grid, replacement: nat) {
    exists c, d :: HasColour(g, c, replacement) && Adjacent(c, d) && HasColour(g, d, 0)
  }

  // A start outside the grid changes nothing exactly when no zero lies next to a cell that has the
  // replacement colour, or that colour is zero.
  lemma StartOutsideExactly(g: Grid, start: Cell, replacement: nat)
    requires !Inside(g, start)
    ensures (forall d :: Flooded(g, start, replacement, d) <==> HasColour(g, d, replacement))
      <==> replacement == 0 || !TouchesZero(g, replacement)
  {
    hide Connected;
    forall d | HasColour(g, d, replacement) ensures Flooded(g, start, replacement, d) {
      ConnectedToItself(g, 0, d);
      assert IsSource(g, start, replacement, d);
    }
    if replacement == 0 || !TouchesZero(g, replacement) {
      forall d | Flooded(g, start, replacement, d) ensures HasColour(g, d, replacement) {
        var c :| IsSource(g, start, replacement, c) && Connected(g, 0, c, d);
        if c != d {
          var e := FirstStep(g, 0, c, d);
          LastStep(g, 0, c, d);
        }
      }
    } else {
      var c, d :| HasColour(g, c, replacement) && Adjacent(c, d) && HasColour(g, d, 0);
      ConnectedNext(g, 0, c, d);
      assert IsSource(g, start, replacement, c);
      assert Flooded(g, start, replacement, d) && !HasColour(g, d, replacement);
    }
  }

  // A cell that already has the replacement colour floods its own surroundings as well: here the
  // last cell is painted, although a cell of another colour separates it from the start.
  lemma OldColourFloodsToo()
    ensures var g := [[1, 2, 3, 1]];
            Flooded(g, (0, 0), 3, (0, 3)) && !Connected(g, 1, (0, 0), (0, 3))
  {
    var g: Grid := [[1, 2, 3, 1]];
    assert Leads(g, 1, [(0, 2), (0, 3)], (0, 2), (0, 3));
    assert IsSource(g, (0, 0), 3, (0, 2));
    forall walk ensures !Leads(g, 1, walk, (0, 0), (0, 3)) {
      if IsWalk(g, 1, walk) && walk[0] == (0, 0) {
        StaysLeft(g, walk);
      }
    }
  }

  lemma {:induction false} StaysLeft(g: Grid, walk: seq<Cell>)
    requires g == [[1, 2, 3, 1]] && IsWalk(g, 1, walk) && walk[0] == (0, 0)
    ensures walk[|walk| - 1] == (0, 0)
  {
    var l := |walk| - 1;
    if l > 0 {
      StaysLeft(g, walk[..l]);
      assert Adjacent(walk[l - 1], walk[l]) && HasColour(g, walk[l], 1);
    }
  }

  // ---- One cell spreads to its neighbours ----

  const ROW: seq<int> := [-1, -1, -1, 0, 0, 1, 1, 1]
  const COL: seq<int> := [-1, 0, 1, -1, 1, -1, 0, 1]

  ghost function Neighbour(c: Cell, k: nat): Cell
    requires k < 8
  {
    (c.0 + ROW[k], c.1 + COL[k])
  }

  ghost function Spread(g: Grid, colour: nat, c: Cell, k: nat): set<Cell>
    requires k <= 8
  {
    if k == 0 then {}
    else Spread(g, colour, c, k - 1) + if HasColour(g, Neighbour(c, k - 1), colour) then {Neighbour(c, k - 1)} else {}
  }

  lemma {:induction false} SpreadIsAdjacent(g: Grid, colour: nat, c: Cell, k: nat)
    requires k <= 8
    ensures forall d :: d in Spread(g, colour, c, k) <==>
      HasColour(g, d, colour) && exists i :: 0 <= i < k && d == Neighbour(c, i)
  {
    if k > 0 {
      SpreadIsAdjacent(g, colour, c, k - 1);
    }
  }

  lemma AdjacentIsNeighbour(c: Cell, d: Cell)
    ensures Adjacent(c, d) <==> exists i :: 0 <= i < 8 && d == Neighbour(c, i)
  {
    if Adjacent(c, d) {
      var i := if d.0 < c.0 then d.1 - c.1 + 1 else if d.0 > c.0 then d.1 - c.1 + 6 else if d.1 < c.1 then 3 else 4;
      assert d == Neighbour(c, i);
    }
  }

  lemma SpreadAll(g: Grid, colour: nat, c: Cell, d: Cell)
    ensures d in Spread(g, colour, c, 8) <==> HasColour(g, d, colour) && Adjacent(c, d)
  {
    SpreadIsAdjacent(g, colour, c, 8);
    AdjacentIsNeighbour(c, d);
  }

  // ---- What the sweeps keep ----

  // The painted cells: all sources, and only cells that the flood should reach.
  ghost predicate Sound(g: Grid, start: Cell, replacement: nat, painted: set<Cell>) {
    && (forall c :: IsSource(g, start, replacement, c) ==> c in painted)
    && (forall c :: c in painted ==> Inside(g, c) && Flooded(g, start, replacement, c))
  }

  ghost predicate Closed(g: Grid, colour: nat, painted: set<Cell>) {
    forall c :: c in painted ==> Spread(g, colour, c, 8) <= painted
  }

  lemma FloodsNeighbour(g: Grid, start: Cell, replacement: nat, c: Cell, d: Cell)
    requires Flooded(g, start, replacement, c) && HasColour(g, d, Target(g, start)) && Adjacent(c, d)
    ensures Flooded(g, start, replacement, d)
  {
    var colour := Target(g, start);
    var s :| IsSource(g, start, replacement, s) && Connected(g, colour, s, c);
    var walk :| Leads(g, colour, walk, s, c);
    assert Leads(g, colour, walk + [d], s, d);
  }

  ghost function After(g: Grid, colour: nat, painted: set<Cell>, c: Cell): set<Cell> {
    if c in painted then painted + Spread(g, colour, c, 8) else painted
  }

  lemma SpreadKeepsSound(g: Grid, start: Cell, replacement: nat, painted: set<Cell>, c: Cell)
    requires Sound(g, start, replacement, painted)
    ensures Sound(g, start, replacement, After(g, Target(g, start), painted, c))
  {
    hide Flooded, Spread, IsSource;
    forall d | d in Spread(g, Target(g, start), c, 8) && c in painted ensures Inside(g, d)
      && Flooded(g, start, replacement, d) {
      SpreadAll(g, Target(g, start), c, d);
      FloodsNeighbour(g, start, replacement, c, d);
    }
  }

  lemma {:induction false} ClosedHoldsWalk(g: Grid, colour: nat, painted: set<Cell>, walk: seq<Cell>)
    requires Closed(g, colour, painted) && IsWalk(g, colour, walk) && walk[0] in painted
    ensures walk[|walk| - 1] in painted
  {
    var l := |walk| - 1;
    if l > 0 {
      ClosedHoldsWalk(g, colour, painted, walk[..l]);
      SpreadAll(g, colour, walk[l - 1], walk[l]);
      assert Adjacent(walk[l - 1], walk[l]);
    }
  }

  lemma ClosedIsFlooded(g: Grid, start: Cell, replacement: nat, painted: set<Cell>)
    requires Sound(g, start, replacement, painted) && Closed(g, Target(g, start), painted)
    ensures forall d :: d in painted <==> Inside(g, d) && Flooded(g, start, replacement, d)
  {
    var colour := Target(g, start);
    forall d | Inside(g, d) && Flooded(g, start, replacement, d) ensures d in painted {
      var c :| IsSource(g, start, replacement, c) && Connected(g, colour, c, d);
      var walk :| Leads(g, colour, walk, c, d);
      ClosedHoldsWalk(g, colour, painted, walk);
    }
  }

  // A sweep spreads from every cell painted before it; so it paints more, or nothing is left to paint.
  ghost predicate SpreadFrom(g: Grid, colour: nat, before: set<Cell>, painted: set<Cell>) {
    before <= painted && forall c :: c in before ==> Spread(g, colour, c, 8) <= painted
  }

  lemma StaysClosed(g: Grid, start: Cell, replacement: nat, before: set<Cell>, painted: set<Cell>)
    requires Sound(g, start, replacement, before) && Sound(g, start, replacement, painted) && before <= painted
    ensures Closed(g, Target(g, start), before) ==> painted == before
  {
    if Closed(g, Target(g, start), before) {
      ClosedIsFlooded(g, start, replacement, before);
    }
  }

  lemma Grows(g: Grid, colour: nat, before: set<Cell>, painted: set<Cell>)
    requires SpreadFrom(g, colour, before, painted)
    ensures Closed(g, colour, painted) || |before| < |painted|
  {
    if before != painted {
      var rest := painted - before;
      assert painted == before + rest;
    }
  }

  lemma GrowsOrCloses(g: Grid, start: Cell, replacement: nat, before: set<Cell>, painted: set<Cell>)
    requires Sound(g, start, replacement, before) && Sound(g, start, replacement, painted)
    requires SpreadFrom(g, Target(g, start), before, painted)
    ensures Closed(g, Target(g, start), before) ==> Closed(g, Target(g, start), painted)
    ensures Closed(g, Target(g, start), painted) || |before| < |painted|
  {
    hide Sound, Closed, Target;
    StaysClosed(g, start, replacement, before, painted);
    Grows(g, Target(g, start), before, painted);
  }

  ghost function Line(r: int, columns: nat): set<Cell> {
    if columns == 0 then {} else Line(r, columns - 1) + {(r, columns - 1)}
  }

  lemma {:induction false} LineCells(r: int, columns: nat)
    ensures |Line(r, columns)| == columns
    ensures forall c: Cell :: c in Line(r, columns) <==> c.0 == r && 0 <= c.1 < columns
  {
    if columns > 0 {
      LineCells(r, columns - 1);
    }
  }

  ghost function Cells(rows: nat, columns: nat): set<Cell> {
    if rows == 0 then {} else Cells(rows - 1, columns) + Line(rows - 1, columns)
  }

  lemma {:induction false} CellsInside(rows: nat, columns: nat, c: Cell)
    ensures c in Cells(rows, columns) <==> 0 <= c.0 < rows && 0 <= c.1 < columns
  {
    hide Line;
    if rows > 0 {
      CellsInside(rows - 1, columns, c);
      LineCells(rows - 1, columns);
    }
  }

  lemma LineIsNew(rows: nat, columns: nat)
    ensures Cells(rows, columns) !! Line(rows, columns)
  {
    forall c | c in Line(rows, columns) ensures c !in Cells(rows, columns) {
      CellsInside(rows, columns, c);
      LineCells(rows, columns);
    }
  }

  lemma UnionSize(s: set<Cell>, t: set<Cell>)
    requires s !! t
    ensures |s + t| == |s| + |t|
  {
  }

  lemma NextCount(rows: nat, columns: nat)
    ensures |Cells(rows + 1, columns)| == |Cells(rows, columns)| + columns
  {
    var above, line := Cells(rows, columns), Line(rows, columns);
    LineIsNew(rows, columns);
    LineCells(rows, columns);
    assert Cells(rows + 1, columns) == above + line;
    hide *;
    UnionSize(above, line);
  }

  lemma NextProduct(rows: nat, columns: nat)
    ensures (rows + 1) * columns == rows * columns + columns
  {
  }

  lemma {:induction false} CountCells(rows: nat, columns: nat)
    ensures |Cells(rows, columns)| == rows * columns
  {
    if rows > 0 {
      CountCells(rows - 1, columns);
      NextCount(rows - 1, columns);
      NextProduct(rows - 1, columns);
    }
  }

  lemma FullSubset(s: set<Cell>, t: set<Cell>)
    requires s <= t && |s| >= |t|
    ensures s == t
  {
    var rest := t - s;
    assert t == s + rest;
    assert |rest| == 0;
  }

  // As many cells painted as the grid has: every cell is, so nothing is left to paint.
  lemma FullIsClosed(g: Grid, rows: nat, columns: nat, colour: nat, painted: set<Cell>)
    requires Rectangular(g, rows, columns) && (forall c :: c in painted ==> Inside(g, c))
    requires |painted| >= rows * columns
    ensures Closed(g, colour, painted)
  {
    CountCells(rows, columns);
    forall c | c in painted ensures c in Cells(rows, columns) {
      CellsInside(rows, columns, c);
    }
    FullSubset(painted, Cells(rows, columns));
    forall c, d | c in painted && d in Spread(g, colour, c, 8) ensures d in painted {
      SpreadAll(g, colour, c, d);
      CellsInside(rows, columns, d);
    }
  }

  // ---- The cells looked at, a function of the size of the grid alone ----

  function Touch(rows: nat, columns: nat, c: Cell): seq<Cell> {
    if 0 <= c.0 < rows && 0 <= c.1 < columns then [c] else []
  }

  // A cell and its first k neighbours.
  ghost function VisitCells(rows: nat, columns: nat, c: Cell, k: nat): seq<Cell>
    requires k <= 8
  {
    if k == 0 then [c] else VisitCells(rows, columns, c, k - 1) + Touch(rows, columns, Neighbour(c, k - 1))
  }

  // A sweep as far as cell (ix, iy).
  ghost function SweepCells(rows: nat, columns: nat, ix: nat, iy: nat): seq<Cell>
    decreases ix, iy
  {
    if iy > 0 then SweepCells(rows, columns, ix, iy - 1) + VisitCells(rows, columns, (ix, iy - 1), 8)
    else if ix > 0 then SweepCells(rows, columns, ix - 1, columns)
    else []
  }

  // The cells in raster order as far as cell (ix, iy).
  ghost function InOrder(columns: nat, ix: nat, iy: nat): seq<Cell>
    decreases ix, iy
  {
    if iy > 0 then InOrder(columns, ix, iy - 1) + [(ix, iy - 1)]
    else if ix > 0 then InOrder(columns, ix - 1, columns)
    else []
  }

  // The scan for the start, and n sweeps.
  ghost function FillCells(rows: nat, columns: nat, n: nat): seq<Cell> {
    if n == 0 then InOrder(columns, rows, 0)
    else FillCells(rows, columns, n - 1) + SweepCells(rows, columns, rows, 0)
  }

  lemma VisitCellsStep(rows: nat, columns: nat, c: Cell, k: nat)
    requires k < 8
    ensures VisitCells(rows, columns, c, 0) == [c]
    ensures VisitCells(rows, columns, c, k + 1)
      == VisitCells(rows, columns, c, k) + Touch(rows, columns, Neighbour(c, k))
  {
  }

  lemma SweepCellsStep(rows: nat, columns: nat, ix: nat, iy: nat)
    ensures SweepCells(rows, columns, 0, 0) == []
    ensures SweepCells(rows, columns, ix, iy + 1)
      == SweepCells(rows, columns, ix, iy) + VisitCells(rows, columns, (ix, iy), 8)
    ensures SweepCells(rows, columns, ix + 1, 0) == SweepCells(rows, columns, ix, columns)
  {
    hide VisitCells;
  }

  lemma InOrderStep(columns: nat, ix: nat, iy: nat)
    ensures InOrder(columns, 0, 0) == [] && InOrder(columns, ix + 1, 0) == InOrder(columns, ix, columns)
    ensures InOrder(columns, ix, iy + 1) == InOrder(columns, ix, iy) + [(ix, iy)]
  {
  }

  lemma FillCellsStep(rows: nat, columns: nat, n: nat)
    ensures FillCells(rows, columns, 0) == InOrder(columns, rows, 0)
    ensures FillCells(rows, columns, n + 1) == FillCells(rows, columns, n) + SweepCells(rows, columns, rows, 0)
  {
    hide SweepCells, InOrder;
  }

  // ---- The program ----

  ghost predicate Shows(mat: array2<nat>, g: Grid, replacement: nat, painted: set<Cell>)
    reads mat
  {
    && Rectangular(g, mat.Length0, mat.Length1)
    && forall r, c :: 0 <= r < mat.Length0 && 0 <= c < mat.Length1 ==>
         mat[r, c] == if (r, c) in painted then replacement else g[r][c]
  }

  ghost predicate HoldsOld(g: Grid, replacement: nat, painted: set<Cell>) {
    forall c :: HasColour(g, c, replacement) ==> c in painted
  }

  // Looks at one neighbour, when it lies in the grid.
  method Paint(mat: array2<nat>, nx: int, ny: int, atReplace: bool, target: nat, replacement: nat,
               ghost g: Grid, ghost painted: set<Cell>)
    returns (ghost painted': set<Cell>, ghost touched: seq<Cell>)
    requires Shows(mat, g, replacement, painted)
    modifies mat
    ensures touched == Touch(mat.Length0, mat.Length1, (nx, ny))
    ensures painted' == if atReplace && HasColour(g, (nx, ny), target) then painted + {(nx, ny)} else painted
    ensures Shows(mat, g, replacement, painted')
  {
    painted' := if atReplace && HasColour(g, (nx, ny), target) then painted + {(nx, ny)} else painted;
    touched := [];
    if 0 <= nx < mat.Length0 && 0 <= ny < mat.Length1 {
      var floodable := atReplace && mat[nx, ny] == target;
      mat[nx, ny] := if floodable then replacement else mat[nx, ny];
      touched := [(nx, ny)];
    }
  }

  lemma PaintedHere(mat: array2<nat>, g: Grid, replacement: nat, painted: set<Cell>, ix: nat, iy: nat)
    requires ix < mat.Length0 && iy < mat.Length1
    requires Shows(mat, g, replacement, painted) && HoldsOld(g, replacement, painted)
    ensures (mat[ix, iy] == replacement) == ((ix, iy) in painted)
  {
    assert HasColour(g, (ix, iy), g[ix][iy]);
  }

  lemma NoSpread(g: Grid, colour: nat, c: Cell)
    ensures Spread(g, colour, c, 0) == {}
  {
  }

  lemma SpreadMore(g: Grid, colour: nat, c: Cell, k: nat)
    requires k < 8
    ensures Spread(g, colour, c, k + 1) ==
      Spread(g, colour, c, k) + if HasColour(g, Neighbour(c, k), colour) then {Neighbour(c, k)} else {}
  {
  }

  // Looks at one cell and its eight neighbours.
  method Visit(mat: array2<nat>, ix: nat, iy: nat, target: nat, replacement: nat, ghost g: Grid,
    ghost painted: set<Cell>)
    returns (ghost painted': set<Cell>, ghost touched: seq<Cell>)
    requires ix < mat.Length0 && iy < mat.Length1
    requires Shows(mat, g, replacement, painted) && HoldsOld(g, replacement, painted)
    modifies mat
    ensures painted' == After(g, target, painted, (ix, iy))
    ensures touched == VisitCells(mat.Length0, mat.Length1, (ix, iy), 8)
    ensures Shows(mat, g, replacement, painted')
  {
    hide Shows, HoldsOld, HasColour, Spread, VisitCells, Touch;
    var atReplace := mat[ix, iy] == replacement;
    PaintedHere(mat, g, replacement, painted, ix, iy);
    NoSpread(g, target, (ix, iy));
    painted', touched := painted, [(ix, iy)];
    VisitCellsStep(mat.Length0, mat.Length1, (ix, iy), 0);
    for k := 0 to 8
      invariant touched == VisitCells(mat.Length0, mat.Length1, (ix, iy), k)
      invariant painted' == if atReplace then painted + Spread(g, target, (ix, iy), k) else painted
      invariant Shows(mat, g, replacement, painted')
    {
      SpreadMore(g, target, (ix, iy), k);
      VisitCellsStep(mat.Length0, mat.Length1, (ix, iy), k);
      ghost var more: seq<Cell>;
      var nx, ny := ix + ROW[k], iy + COL[k];
      painted', more := Paint(mat, nx, ny, atReplace, target, replacement, g, painted');
      touched := touched + more;
    }
  }

  // The cells painted before the sweep have spread, as far as the sweep has come.
  ghost predicate SpreadUpTo(g: Grid, colour: nat, before: set<Cell>, painted: set<Cell>, ix: nat, iy: nat) {
    && before <= painted
    && forall c :: c in before && (c.0 < ix || (c.0 == ix && c.1 < iy)) ==> Spread(g, colour, c, 8) <= painted
  }

  lemma SpreadNext(g: Grid, colour: nat, before: set<Cell>, painted: set<Cell>, ix: nat, iy: nat)
    requires SpreadUpTo(g, colour, before, painted, ix, iy)
    ensures SpreadUpTo(g, colour, before, After(g, colour, painted, (ix, iy)), ix, iy + 1)
  {
    hide Spread;
    forall c | c in before && (c.0 < ix || (c.0 == ix && c.1 < iy + 1))
      ensures Spread(g, colour, c, 8) <= After(g, colour, painted, (ix, iy))
    {
      assert c == (ix, iy) || Spread(g, colour, c, 8) <= painted;
    }
  }

  lemma SpreadRow(g: Grid, rows: nat, columns: nat, colour: nat, before: set<Cell>, painted: set<Cell>, ix: nat)
    requires Rectangular(g, rows, columns) && (forall c :: c in before ==> Inside(g, c))
    requires SpreadUpTo(g, colour, before, painted, ix, columns)
    ensures SpreadUpTo(g, colour, before, painted, ix + 1, 0)
  {
    hide Spread;
  }

  lemma SpreadAllRows(g: Grid, rows: nat, columns: nat, colour: nat, before: set<Cell>, painted: set<Cell>)
    requires Rectangular(g, rows, columns) && (forall c :: c in before ==> Inside(g, c))
    requires SpreadUpTo(g, colour, before, painted, rows, 0)
    ensures SpreadFrom(g, colour, before, painted)
  {
    hide Spread;
  }

  lemma SoundFacts(g: Grid, start: Cell, replacement: nat, painted: set<Cell>)
    requires Sound(g, start, replacement, painted)
    ensures HoldsOld(g, replacement, painted) && forall c :: c in painted ==> Inside(g, c)
  {
    forall c | HasColour(g, c, replacement) ensures c in painted {
      assert IsSource(g, start, replacement, c);
    }
  }

  // One sweep over all cells, in raster order, in place.
  method Sweep(mat: array2<nat>, target: nat, replacement: nat, ghost g: Grid, ghost start: Cell,
    ghost painted: set<Cell>)
    returns (ghost painted': set<Cell>, ghost touched: seq<Cell>)
    requires Shows(mat, g, replacement, painted) && Sound(g, start, replacement, painted) && target == Target(g, start)
    modifies mat
    ensures Shows(mat, g, replacement, painted') && Sound(g, start, replacement, painted')
    ensures SpreadFrom(g, target, painted, painted')
    ensures touched == SweepCells(mat.Length0, mat.Length1, mat.Length0, 0)
  {
    hide *;
    painted', touched := painted, [];
    SweepStarts(mat, g, start, replacement, painted);
    SweepCellsStep(mat.Length0, mat.Length1, 0, 0);
    for ix := 0 to mat.Length0
      invariant Shows(mat, g, replacement, painted') && Sound(g, start, replacement, painted')
      invariant SpreadUpTo(g, target, painted, painted', ix, 0)
      invariant touched == SweepCells(mat.Length0, mat.Length1, ix, 0)
    {
      for iy := 0 to mat.Length1
        invariant Shows(mat, g, replacement, painted') && Sound(g, start, replacement, painted')
        invariant SpreadUpTo(g, target, painted, painted', ix, iy)
        invariant touched == SweepCells(mat.Length0, mat.Length1, ix, iy)
      {
        SweepCellsStep(mat.Length0, mat.Length1, ix, iy);
        SoundFacts(g, start, replacement, painted');
        SpreadKeepsSound(g, start, replacement, painted', (ix, iy));
        SpreadNext(g, target, painted, painted', ix, iy);
        ghost var more: seq<Cell>;
        painted', more := Visit(mat, ix, iy, target, replacement, g, painted');
        touched := touched + more;
      }
      SweepCellsStep(mat.Length0, mat.Length1, ix, 0);
      SpreadRow(g, mat.Length0, mat.Length1, target, painted, painted', ix);
    }
    SpreadAllRows(g, mat.Length0, mat.Length1, target, painted, painted');
  }

  lemma SweepStarts(mat: array2<nat>, g: Grid, start: Cell, replacement: nat, painted: set<Cell>)
    requires Shows(mat, g, replacement, painted) && Sound(g, start, replacement, painted)
    ensures Rectangular(g, mat.Length0, mat.Length1) && (forall c :: c in painted ==> Inside(g, c))
    ensures SpreadUpTo(g, Target(g, start), painted, painted, 0, 0)
  {
    SoundFacts(g, start, replacement, painted);
  }

  // Paints the chosen cell and remembers its colour.
  method SeedStart(mat: array2<nat>, x: int, y: int, replacement: nat, ghost g: Grid)
    returns (target: nat, ghost painted: set<Cell>, ghost touched: seq<Cell>)
    requires Shows(mat, g, replacement, {})
    modifies mat
    ensures target == Target(g, (x, y))
    ensures Shows(mat, g, replacement, painted) && Sound(g, (x, y), replacement, painted)
    ensures touched == InOrder(mat.Length1, mat.Length0, 0)
  {
    hide Sound, InOrder;
    InOrderStep(mat.Length1, 0, 0);
    target, touched := 0, [];
    ghost var seed: set<Cell> := if Inside(g, (x, y)) then {(x, y)} else {};
    for ix := 0 to mat.Length0
      invariant target == if 0 <= x < ix && Inside(g, (x, y)) then Target(g, (x, y)) else 0
      invariant Shows(mat, g, replacement, set c | c in seed && c.0 < ix)
      invariant touched == InOrder(mat.Length1, ix, 0)
    {
      InOrderStep(mat.Length1, ix, 0);
      for iy := 0 to mat.Length1
        invariant target == if 0 <= x && (x < ix || (x == ix && 0 <= y < iy))
          && Inside(g, (x, y)) then Target(g, (x, y)) else 0
        invariant Shows(mat, g, replacement, set c | c in seed && (c.0 < ix || (c.0 == ix && c.1 < iy)))
        invariant touched == InOrder(mat.Length1, ix, iy)
      {
        InOrderStep(mat.Length1, ix, iy);
        var isTarget := x == ix && y == iy;
        target := if isTarget then mat[ix, iy] else target;
        mat[ix, iy] := if isTarget then replacement else mat[ix, iy];
        touched := touched + [(ix, iy)];
      }
    }
    painted := Sources(g, (x, y), replacement, mat.Length0, mat.Length1);
    SourcesAreSound(g, (x, y), replacement, mat.Length0, mat.Length1);
  }

  ghost function Sources(g: Grid, start: Cell, replacement: nat, rows: nat, columns: nat): set<Cell> {
    set r: int, c: int | 0 <= r < rows && 0 <= c < columns && IsSource(g, start, replacement, (r, c)) :: (r, c)
  }

  lemma SourcesAreSound(g: Grid, start: Cell, replacement: nat, rows: nat, columns: nat)
    requires Rectangular(g, rows, columns)
    ensures Sound(g, start, replacement, Sources(g, start, replacement, rows, columns))
  {
    hide Connected;
    forall c | c in Sources(g, start, replacement, rows, columns)
      ensures Inside(g, c) && Flooded(g, start, replacement, c)
    {
      ConnectedToItself(g, Target(g, start), c);
    }
  }

  // rows * columns sweeps are enough, whatever the grid, the start and the colour.
  method FloodFill(mat: array2<nat>, x: int, y: int, replacement: nat, ghost g: Grid)
    returns (ghost touched: seq<Cell>)
    requires Shows(mat, g, replacement, {})
    modifies mat
    ensures forall r, c :: 0 <= r < mat.Length0 && 0 <= c < mat.Length1 ==>
      mat[r, c] == if Flooded(g, (x, y), replacement, (r, c)) then replacement else g[r][c]
    ensures touched == FillCells(mat.Length0, mat.Length1, mat.Length1 * mat.Length0)
  {
    hide *;
    var target: nat;
    ghost var painted: set<Cell>;
    target, painted, touched := SeedStart(mat, x, y, replacement, g);
    FillCellsStep(mat.Length0, mat.Length1, 0);
    ghost var start := (x, y);
    for i := 0 to mat.Length1 * mat.Length0
      invariant Shows(mat, g, replacement, painted) && Sound(g, start, replacement, painted)
      invariant Closed(g, target, painted) || |painted| >= i
      invariant touched == FillCells(mat.Length0, mat.Length1, i)
    {
      ghost var before, more := painted, touched;
      FillCellsStep(mat.Length0, mat.Length1, i);
      painted, more := Sweep(mat, target, replacement, g, start, painted);
      touched := touched + more;
      GrowsOrCloses(g, start, replacement, before, painted);
    }
    Finished(mat, g, start, replacement, painted);
  }

  lemma Finished(mat: array2<nat>, g: Grid, start: Cell, replacement: nat, painted: set<Cell>)
    requires Shows(mat, g, replacement, painted) && Sound(g, start, replacement, painted)
    requires Closed(g, Target(g, start), painted) || |painted| >= mat.Length1 * mat.Length0
    ensures forall r, c :: 0 <= r < mat.Length0 && 0 <= c < mat.Length1 ==>
      mat[r, c] == if Flooded(g, start, replacement, (r, c)) then replacement else g[r][c]
  {
    hide Closed, Sound, Flooded, Target;
    ShowsFacts(mat, g, start, replacement, painted);
    FullOrClosed(g, mat.Length0, mat.Length1, Target(g, start), painted);
    ClosedIsFlooded(g, start, replacement, painted);
  }

  lemma ShowsFacts(mat: array2<nat>, g: Grid, start: Cell, replacement: nat, painted: set<Cell>)
    requires Shows(mat, g, replacement, painted) && Sound(g, start, replacement, painted)
    ensures Rectangular(g, mat.Length0, mat.Length1) && forall c :: c in painted ==> Inside(g, c)
  {
  }

  lemma FullOrClosed(g: Grid, rows: nat, columns: nat, colour: nat, painted: set<Cell>)
    requires Rectangular(g, rows, columns) && (forall c :: c in painted ==> Inside(g, c))
    requires Closed(g, colour, painted) || |painted| >= columns * rows
    ensures Closed(g, colour, painted)
  {
    hide Closed, Rectangular;
    if |painted| >= columns * rows {
      FullIsClosed(g, rows, columns, colour, painted);
    }
  }
}
