/** Whole-game runs on small boards, derived from the operations' contracts. */
module Scenarios {
  import opened Grid
  import opened Placement
  import opened Adjacency
  import opened FloodFill
  import opened Game

  /** On a 3 by 3 board with its only mine in the far corner `(2, 2)`, the
      cells `(1, 0)` and `(0, 1)` have no neighbouring mine, while `(1, 1)`
      has one. */
  lemma CornerMineValues(mines: seq<Point>)
    requires mines == [Point(2, 2)]
    ensures Lookup(Numbers(mines, 3, 3), Point(0, 0)) == Some(0)
    ensures Lookup(Numbers(mines, 3, 3), Point(1, 0)) == Some(0)
    ensures Lookup(Numbers(mines, 3, 3), Point(0, 1)) == Some(0)
    ensures Lookup(Numbers(mines, 3, 3), Point(1, 1)) == Some(1)
    ensures Lookup(Numbers(mines, 3, 3), Point(2, 2)) == None
  {
    LookupNumbers(mines, 3, 3, Point(0, 0));
    LookupNumbers(mines, 3, 3, Point(1, 0));
    LookupNumbers(mines, 3, 3, Point(0, 1));
    LookupNumbers(mines, 3, 3, Point(1, 1));
    LookupNumbers(mines, 3, 3, Point(2, 2));
    assert MineNeighbours(Point(0, 0), mines, 3, 3) == {};
    assert MineNeighbours(Point(1, 0), mines, 3, 3) == {};
    assert MineNeighbours(Point(0, 1), mines, 3, 3) == {};
    InAllCells(Point(2, 2), 3, 3);
    assert MineNeighbours(Point(1, 1), mines, 3, 3) == {Point(2, 2)};
  }

  /** A 3 by 3 game with one mine, first click on `(0, 0)`, and a random
      source whose first draw is id 8: the mine lands on `(2, 2)` and the
      cascade opens all eight other cells, which wins the game. */
  method CornerMineGame() returns (g: Minesweeper, finished: bool)
    ensures finished && !g.revealMines
    ensures g.mines == [Point(2, 2)]
    ensures forall q :: q in g.openFields <==> InBounds(q, 3, 3) && q != Point(2, 2)
    ensures Won(|g.openFields|, g.mineCount, g.rows, g.columns) && !g.clockRunning && g.time == 1
  {
    g := new Minesweeper();
    var accepted := g.Update(3, 3, 1);
    var draws := [8];
    CornerPlacement(draws, [Point(2, 2)]);
    assert g.rows == 3 && g.columns == 3 && g.mineCount == 1 && g.mines == [] && !g.revealMines;
    assert Placed(Point(0, 0), g.columns, g.mineCount, draws) == Some([Point(2, 2)]);
    assert g.Valid();
    assert InBounds(Point(0, 0), g.rows, g.columns);
    assert forall k | 0 <= k < |draws| :: 0 <= draws[k] < g.rows * g.columns;
    finished := g.Reveal(Point(0, 0), draws);
    CornerWin(g.openFields, g.numbers, g.mines, g.rows, g.columns);
  }

  /** The end state of `CornerMineGame`, from what `Reveal` promises about
      the first click. */
  lemma CornerWin(openFields: seq<Point>, numbers: seq<CellValue>, mines: seq<Point>, rows: int, columns: int)
    requires rows == 3 && columns == 3
    requires mines == [Point(2, 2)] && numbers == Numbers(mines, rows, columns)
    requires Distinct(openFields) && AllInBounds(openFields, rows, columns) && !HitMine(openFields, mines)
    requires |openFields| > 0 && openFields[0] == Point(0, 0)
    requires Lookup(numbers, Point(0, 0)) == Some(0) ==> Surrounded(Point(0, 0), openFields, rows, columns)
    requires ClosedExcept(numbers, openFields, 0, 0, 0, rows, columns)
    ensures forall q :: q in openFields <==> InBounds(q, 3, 3) && q != Point(2, 2)
    ensures Won(|openFields|, 1, rows, columns)
  {
    CornerMineValues(mines);
    assert Point(2, 2) !in openFields;
    OpenedAll(openFields, numbers);
    WonMeansSafeCellsOpen(openFields, mines, 3, 3, 1);
    assert Elems(mines) == {Point(2, 2)};
    forall q ensures q in openFields <==> InBounds(q, 3, 3) && q != Point(2, 2) {
      InAllCells(q, 3, 3);
      assert q in openFields <==> q in Elems(openFields);
    }
  }

  /** Once the cascade from `(0, 0)` has closed over the zero cells `(1, 0)`
      and `(0, 1)`, every cell but `(2, 2)` is open. */
  lemma OpenedAll(openFields: seq<Point>, numbers: seq<CellValue>)
    requires Lookup(numbers, Point(1, 0)) == Some(0) && Lookup(numbers, Point(0, 1)) == Some(0)
    requires AllInBounds(openFields, 3, 3) && Point(2, 2) !in openFields
    requires Surrounded(Point(0, 0), openFields, 3, 3)
    requires ClosedExcept(numbers, openFields, 0, 0, 0, 3, 3)
    ensures Elems(openFields) == AllCells(3, 3) - {Point(2, 2)}
  {
    EightOpen(openFields, numbers);
    forall q | q in AllCells(3, 3) - {Point(2, 2)} ensures q in Elems(openFields) {
      InAllCells(q, 3, 3);
      SafeCorner(q);
    }
    forall q | q in Elems(openFields) ensures q in AllCells(3, 3) - {Point(2, 2)} {
      var k :| 0 <= k < |openFields| && openFields[k] == q;
      InAllCells(q, 3, 3);
    }
  }

  lemma EightOpen(openFields: seq<Point>, numbers: seq<CellValue>)
    requires Lookup(numbers, Point(1, 0)) == Some(0) && Lookup(numbers, Point(0, 1)) == Some(0)
    requires Surrounded(Point(0, 0), openFields, 3, 3)
    requires ClosedExcept(numbers, openFields, 0, 0, 0, 3, 3)
    ensures forall q | q in {Point(0, 0), Point(1, 0), Point(2, 0), Point(0, 1), Point(1, 1),
                             Point(2, 1), Point(0, 2), Point(1, 2)} :: q in openFields
  {
    CornerNeighbours();
    assert Point(1, 0) in openFields && Point(0, 1) in openFields;
    var i :| 0 <= i < |openFields| && openFields[i] == Point(1, 0);
    var j :| 0 <= j < |openFields| && openFields[j] == Point(0, 1);
    assert Lookup(numbers, openFields[i]) == Some(0) ==> Surrounded(openFields[i], openFields, 3, 3);
    assert Lookup(numbers, openFields[j]) == Some(0) ==> Surrounded(openFields[j], openFields, 3, 3);
  }

  /** With a single draw of id 8, one mine on a 3 by 3 board clicked at
      `(0, 0)` lands on `(2, 2)`. */
  lemma CornerPlacement(draws: seq<int>, mines: seq<Point>)
    requires draws == [8] && mines == [Point(2, 2)]
    ensures Placed(Point(0, 0), 3, 1, draws) == Some(mines)
  {
    assert draws[..0] == [];
    assert draws[..1] == draws;
    assert Drawn(0, draws[..0]) == [0];
    var ids := Drawn(0, draws[..1]);
    assert ids == [0, 8];
    assert ids[1..] == [8];
    assert DecodeAll([8], 3) == mines;
    assert PlacedFrom(0, 3, 1, draws, 1) == Some(mines);
    assert PlacedFrom(0, 3, 1, draws, 0) == Some(mines);
    assert Encode(Point(0, 0), 3) == 0;
  }

  lemma CornerNeighbours()
    ensures Neighbours(Point(0, 0), 3, 3) == [Point(1, 0), Point(0, 1), Point(1, 1)]
    ensures Neighbours(Point(1, 0), 3, 3) == [Point(0, 0), Point(2, 0), Point(0, 1), Point(1, 1), Point(2, 1)]
    ensures Neighbours(Point(0, 1), 3, 3) == [Point(0, 0), Point(1, 0), Point(1, 1), Point(0, 2), Point(1, 2)]
  {
  }

  lemma SafeCorner(q: Point)
    requires InBounds(q, 3, 3) && q != Point(2, 2)
    ensures q in {Point(0, 0), Point(1, 0), Point(2, 0), Point(0, 1), Point(1, 1),
                  Point(2, 1), Point(0, 2), Point(1, 2)}
  {
  }

  /** A 1 by 4 game with one mine, first click on `(2, 0)`, and a random
      source whose first draw is id 3: the mine lands on `(3, 0)`, the clicked
      cell has value 1, so only that cell opens, the game is not won and the
      timer keeps running. */
  method NumberedClickGame() returns (g: Minesweeper, finished: bool)
    ensures finished && !g.revealMines
    ensures g.mines == [Point(3, 0)]
    ensures g.openFields == [Point(2, 0)]
    ensures !Won(|g.openFields|, g.mineCount, g.rows, g.columns) && g.clockRunning && g.time == 1
  {
    g := new Minesweeper();
    var accepted := g.Update(1, 4, 1);
    var draws := [3];
    NumberedPlacement(draws, [Point(3, 0)]);
    assert g.rows == 1 && g.columns == 4 && g.mineCount == 1 && g.mines == [] && !g.revealMines;
    assert Placed(Point(2, 0), g.columns, g.mineCount, draws) == Some([Point(3, 0)]);
    assert g.Valid();
    assert InBounds(Point(2, 0), g.rows, g.columns);
    assert forall k | 0 <= k < |draws| :: 0 <= draws[k] < g.rows * g.columns;
    finished := g.Reveal(Point(2, 0), draws);
    NumberedValue(g.mines, g.numbers, g.rows, g.columns);
  }

  /** With a single draw of id 3, one mine on a 1 by 4 board clicked at
      `(2, 0)` lands on `(3, 0)`. */
  lemma NumberedPlacement(draws: seq<int>, mines: seq<Point>)
    requires draws == [3] && mines == [Point(3, 0)]
    ensures Placed(Point(2, 0), 4, 1, draws) == Some(mines)
  {
    assert draws[..0] == [];
    assert draws[..1] == draws;
    assert Drawn(2, draws[..0]) == [2];
    var ids := Drawn(2, draws[..1]);
    assert ids == [2, 3];
    assert ids[1..] == [3];
    assert DecodeAll([3], 4) == mines;
    assert PlacedFrom(2, 4, 1, draws, 1) == Some(mines);
    assert PlacedFrom(2, 4, 1, draws, 0) == Some(mines);
    assert Encode(Point(2, 0), 4) == 2;
  }

  /** On a 1 by 4 board whose only mine is `(3, 0)`, the cell `(2, 0)` has
      value 1. */
  lemma NumberedValue(mines: seq<Point>, numbers: seq<CellValue>, rows: int, columns: int)
    requires rows == 1 && columns == 4
    requires mines == [Point(3, 0)] && numbers == Numbers(mines, rows, columns)
    ensures Lookup(numbers, Point(2, 0)) == Some(1)
  {
    LookupNumbers(mines, rows, columns, Point(2, 0));
    InAllCells(Point(3, 0), rows, columns);
    assert MineNeighbours(Point(2, 0), mines, rows, columns) == {Point(3, 0)};
  }

  /** A 1 by 2 game without mines: the first click places no mine, the
      cascade from the clicked cell opens the other one, and the game is won
      at once with the clock stopped. */
  method MineFreeGame() returns (g: Minesweeper, finished: bool)
    ensures finished && !g.revealMines
    ensures g.mines == [] && Elems(g.openFields) == AllCells(1, 2)
    ensures Won(|g.openFields|, g.mineCount, g.rows, g.columns) && !g.clockRunning && g.time == 1
  {
    g := new Minesweeper();
    var accepted := g.Update(1, 2, 0);
    var draws: seq<int> := [];
    MineFreePlacement(draws);
    assert g.rows == 1 && g.columns == 2 && g.mineCount == 0 && g.mines == [] && !g.revealMines;
    assert Placed(Point(0, 0), g.columns, g.mineCount, draws) == Some([]);
    assert g.Valid();
    assert InBounds(Point(0, 0), g.rows, g.columns);
    finished := g.Reveal(Point(0, 0), draws);
    MineFreeWin(g.openFields, g.numbers, g.mines, g.rows, g.columns);
  }

  /** With no mine to place, placement ends before the first draw. */
  lemma MineFreePlacement(draws: seq<int>)
    requires draws == []
    ensures Placed(Point(0, 0), 2, 0, draws) == Some([])
  {
    assert draws[..0] == [] && Drawn(0, draws[..0]) == [0];
    assert Encode(Point(0, 0), 2) == 0;
  }

  lemma NothingToSubtract(cells: set<Point>, mines: seq<Point>)
    requires mines == []
    ensures cells - Elems(mines) == cells
  {
    assert Elems(mines) == {};
  }

  /** On a 1 by 2 board without mines, a list of board cells that starts
      at `(0, 0)` and holds all its neighbours holds every cell, which wins. */
  lemma MineFreeWin(openFields: seq<Point>, numbers: seq<CellValue>, mines: seq<Point>, rows: int, columns: int)
    requires rows == 1 && columns == 2 && mines == [] && numbers == Numbers(mines, rows, columns)
    requires Distinct(openFields) && AllInBounds(openFields, rows, columns)
    requires |openFields| > 0 && openFields[0] == Point(0, 0)
    requires Lookup(numbers, Point(0, 0)) == Some(0) ==> Surrounded(Point(0, 0), openFields, rows, columns)
    ensures Elems(openFields) == AllCells(1, 2)
    ensures Won(|openFields|, 0, rows, columns)
  {
    NoMinesAllZero(mines, rows, columns, Point(0, 0));
    BothOpen(openFields);
    WonMeansSafeCellsOpen(openFields, mines, 1, 2, 0);
    NothingToSubtract(AllCells(1, 2), mines);
  }

  /** On a 1 by 2 board, a list of board cells holding `(0, 0)` and all its
      neighbours holds every cell. */
  lemma BothOpen(openFields: seq<Point>)
    requires AllInBounds(openFields, 1, 2) && |openFields| > 0 && openFields[0] == Point(0, 0)
    requires Surrounded(Point(0, 0), openFields, 1, 2)
    ensures Elems(openFields) == AllCells(1, 2)
  {
    assert Neighbours(Point(0, 0), 1, 2) == [Point(1, 0)];
    assert Point(0, 0) in openFields && Point(1, 0) in openFields;
    forall q | q in AllCells(1, 2) ensures q in Elems(openFields) {
      InAllCells(q, 1, 2);
      assert q == Point(0, 0) || q == Point(1, 0);
    }
    forall q | q in Elems(openFields) ensures q in AllCells(1, 2) {
      var k :| 0 <= k < |openFields| && openFields[k] == q;
      InAllCells(q, 1, 2);
    }
  }
}
